/** MemberController: the signed-in member reads and edits their own row. The
    caller is identified by the email of the authenticated principal. */
module Profile {
  import opened Common
  import opened Members

  datatype UpdateProfileRequest = UpdateProfileRequest(
    name: Option<string>, phone: Option<string>, gender: Option<string>, birthday: Option<int>)

  datatype ChangePasswordRequest = ChangePasswordRequest(oldPassword: string, newPassword: string)

  const MemberNotFound := "Error: Member not found."
  const UserNotFound := "錯誤：找不到使用者"
  const ProfileUpdated := "個人資料更新成功！"
  const WrongOldPassword := "錯誤：舊密碼不正確！"
  const PasswordChanged := "密碼修改成功！"

  /** Every row other than the caller's is left as it was. */
  ghost predicate OnlyCallerTouched(before: MemberStore, after: MemberStore, email: string) {
    && |after.rows| == |before.rows| && after.nextId == before.nextId
    && forall j :: 0 <= j < |before.rows| && before.rows[j].email != email ==> after.rows[j] == before.rows[j]
  }

  /** `getMyProfile`: the caller's row with the password hidden; the table is
      not written. */
  function GetMyProfile(st: MemberStore, email: string): (r: Response<Member>)
    requires Valid(st)
    ensures (forall i :: 0 <= i < |st.rows| ==> st.rows[i].email != email) ==> r == Thrown(Runtime(MemberNotFound))
    ensures forall i :: 0 <= i < |st.rows| && st.rows[i].email == email ==>
      r.Ok? && r.body.password.None? && r.body.(password := st.rows[i].password) == st.rows[i]
  {
    match FindByEmail(st, email)
    case NoMatch => Thrown(Runtime(MemberNotFound))
    case Several => Thrown(IncorrectResultSize)
    case Unique(i) => Ok(st.rows[i].(password := None))
  }

  /** `after` is `before` with only name, phone, gender, birthday and the
      update time replaced, and those four taken from `req`. */
  predicate ProfileOverwritten(before: Member, after: Member, req: UpdateProfileRequest) {
    && after.name == req.name && after.phone == req.phone
    && after.gender == req.gender && after.birthday == req.birthday
    && after == before.(name := after.name, phone := after.phone, gender := after.gender,
                        birthday := after.birthday, updatedAt := after.updatedAt)
  }

  /** The request repeats the four profile columns of `m` as they are. */
  predicate SameProfile(m: Member, req: UpdateProfileRequest) {
    m.name == req.name && m.phone == req.phone && m.gender == req.gender && m.birthday == req.birthday
  }

  /** The request's text fits the name, phone and gender columns. */
  predicate ProfileFits(req: UpdateProfileRequest) {
    FitsWidth(req.name, NameWidth) && FitsWidth(req.phone, PhoneWidth) && FitsWidth(req.gender, GenderWidth)
  }

  /** `updateMyProfile`: overwrites the four profile columns of the caller's
      row; a phone already held by another member, or text too wide for its
      column, makes the save fail. Re-sending the current values writes
      nothing, so the update time is kept. */
  function UpdateMyProfile(st: MemberStore, email: string, req: UpdateProfileRequest, now: int)
    : (r: (MemberStore, Response<string>))
    requires Valid(st)
    ensures (forall i :: 0 <= i < |st.rows| ==> st.rows[i].email != email) ==> r == (st, Thrown(Runtime(UserNotFound)))
    ensures r.1.Ok? || r.0 == st
    ensures r.1.Ok? ==> r.1.body == ProfileUpdated
    ensures OnlyCallerTouched(st, r.0, email)
    ensures forall i :: 0 <= i < |st.rows| && st.rows[i].email == email ==>
      && (r.1.Ok? <==> !PhoneTakenByOther(st.rows, i, req.phone) && ProfileFits(req))
      && (r.1.Ok? ==> ProfileOverwritten(st.rows[i], r.0.rows[i], req)
                      && (r.0.rows[i].updatedAt == now || r.0.rows[i] == st.rows[i]))
      && (SameProfile(st.rows[i], req) ==> r == (st, Ok(ProfileUpdated)))
      && (!r.1.Ok? ==> r.1 == Thrown(DataIntegrityViolation))
    ensures Valid(r.0)
    ensures TokensPaired(st) ==> TokensPaired(r.0)
  {
    match FindByEmail(st, email)
    case NoMatch => (st, Thrown(Runtime(UserNotFound)))
    case Several => (st, Thrown(IncorrectResultSize))
    case Unique(i) =>
      var m := st.rows[i].(name := req.name, phone := req.phone, gender := req.gender, birthday := req.birthday);
      match UpdateRow(st, i, m, now)
      case Success(st') => (st', Ok(ProfileUpdated))
      case Failure(f) => (st, Thrown(f))
  }

  /** `changePassword`: the old password must match the stored hash; only the
      hash of the caller's row changes, and the update time when the new
      hash differs from the old one. */
  function ChangePassword(st: MemberStore, email: string, req: ChangePasswordRequest, enc: PasswordEncoder, now: int)
    : (r: (MemberStore, Response<string>))
    requires Valid(st)
    ensures (forall i :: 0 <= i < |st.rows| ==> st.rows[i].email != email) ==> r == (st, Thrown(Runtime(UserNotFound)))
    ensures r.1.Ok? || r.0 == st
    ensures OnlyCallerTouched(st, r.0, email)
    ensures forall i :: 0 <= i < |st.rows| && st.rows[i].email == email ==>
      && (!Matches(enc, req.oldPassword, st.rows[i].password) ==> r == (st, BadRequest(WrongOldPassword)))
      && (Matches(enc, req.oldPassword, st.rows[i].password) ==>
            && r.1 == Ok(PasswordChanged)
            && r.0.rows[i].(updatedAt := st.rows[i].updatedAt) == st.rows[i].(password := Some(enc.encode(req.newPassword)))
            && r.0.rows[i] == Stamped(st.rows[i], st.rows[i].(password := Some(enc.encode(req.newPassword))), now))
    ensures Valid(r.0)
    ensures TokensPaired(st) ==> TokensPaired(r.0)
  {
    match FindByEmail(st, email)
    case NoMatch => (st, Thrown(Runtime(UserNotFound)))
    case Several => (st, Thrown(IncorrectResultSize))
    case Unique(i) =>
      if !Matches(enc, req.oldPassword, st.rows[i].password) then (st, BadRequest(WrongOldPassword))
      else
        var m := st.rows[i].(password := Some(enc.encode(req.newPassword)));
        match UpdateRow(st, i, m, now)
        case Success(st') => (st', Ok(PasswordChanged))
        case Failure(f) => (st, Thrown(f))
  }

  /** Under the encoder assumption, a password set by `changePassword` is the
      one a following change must quote as the old password. */
  lemma NewPasswordIsNextOldPassword(st: MemberStore, email: string, req: ChangePasswordRequest, next: string,
                                     enc: PasswordEncoder, now: int, later: int)
    requires Valid(st) && Consistent(enc)
    requires ChangePassword(st, email, req, enc, now).1.Ok?
    ensures var st' := ChangePassword(st, email, req, enc, now).0;
      ChangePassword(st', email, ChangePasswordRequest(req.newPassword, next), enc, later).1 == Ok(PasswordChanged)
  {
    var st' := ChangePassword(st, email, req, enc, now).0;
    var i :| 0 <= i < |st.rows| && st.rows[i].email == email;
    assert st'.rows[i].email == email;
    assert enc.matches(req.newPassword, enc.encode(req.newPassword));
  }

  /** The gender column is one character wide, while the profile page offers
      "Male", "Female" and "Other": choosing any of them makes the save fail
      with a constraint violation, and the row stays as it was. */
  lemma PageGenderRefused(st: MemberStore, email: string, req: UpdateProfileRequest, now: int)
    requires Valid(st)
    requires exists i :: 0 <= i < |st.rows| && st.rows[i].email == email
    requires req.gender == Some("Male") || req.gender == Some("Female") || req.gender == Some("Other")
    ensures UpdateMyProfile(st, email, req, now) == (st, Thrown(DataIntegrityViolation))
  {
    var i :| 0 <= i < |st.rows| && st.rows[i].email == email;
    assert FitsColumns(st.rows[i]);
    assert !ProfileFits(req);
  }
}
