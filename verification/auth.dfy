/** AuthController: sign-up and the password-reset token flow, as transitions
    of the member table. The random UUID, the clock and the password encoder
    are parameters. */
module Auth {
  import opened Common
  import opened Text
  import opened Members

  datatype SignupRequest = SignupRequest(
    name: string, email: string, phone: string, password: string,
    gender: Option<string>, birthday: Option<int>)

  const EmailInUse := "Error: Email is already in use!"
  const PhoneInUse := "Error: Phone number is already in use!"
  const Registered := "Member registered successfully!"
  const TokenIssued := "Password reset token generated. Check console/email."
  const InvalidToken := "Error: Invalid or expired token."
  const TokenExpired := "Error: Token has expired."
  const PasswordWasReset := "Password reset successfully!"

  /** Lifetime of a reset token, in seconds: 24 hours. */
  const TokenLifetime: int := 24 * 60 * 60

  function MemberNotFound(email: string): string {
    "Error: Member not found with email: " + email
  }

  /** The member code: the UUID's text with its dashes removed. */
  function MemberCode(uuid: Uuid): string {
    Without(uuid.ToString(), '-')
  }

  /** The entity `registerUser` fills in before saving it; status and the
      verification flags keep the entity's defaults. */
  function NewMember(req: SignupRequest, enc: PasswordEncoder, uuid: Uuid): Member {
    Member(0, MemberCode(uuid), req.email, Some(req.phone), Some(enc.encode(req.password)), None,
           Some(req.name), req.gender, req.birthday, 1, 0, 0, 0, 0, None, None, None)
  }

  /** A member row created from `req`: the request's data, the encoded
      password, a dash-free code, the default flags, and no reset token. */
  predicate RegisteredFrom(m: Member, req: SignupRequest, enc: PasswordEncoder) {
    && m.name == Some(req.name) && m.email == req.email && m.phone == Some(req.phone)
    && m.gender == req.gender && m.birthday == req.birthday
    && m.password == Some(enc.encode(req.password))
    && '-' !in m.memberCode
    && m.status == 1 && m.emailVerified == 0 && m.phoneVerified == 0
    && m.passwordSalt.None? && m.lastLoginAt.None?
    && m.resetPasswordToken.None? && m.resetPasswordTokenExpiry.None?
  }

  predicate CodeInUse(st: MemberStore, code: string) {
    exists i :: 0 <= i < |st.rows| && st.rows[i].memberCode == code
  }

  /** The new member's text fits the table's column widths. */
  predicate SignupFits(req: SignupRequest, uuid: Uuid) {
    && |MemberCode(uuid)| <= CodeWidth && |req.email| <= EmailWidth && |req.phone| <= PhoneWidth
    && |req.name| <= NameWidth && FitsWidth(req.gender, GenderWidth)
  }

  /** `registerUser`: the email check, then the phone check, then one insert. */
  function RegisterUser(st: MemberStore, req: SignupRequest, enc: PasswordEncoder, uuid: Uuid, now: int)
    : (r: (MemberStore, Response<string>))
    ensures ExistsByEmail(st, req.email) ==> r == (st, BadRequest(EmailInUse))
    ensures !ExistsByEmail(st, req.email) && ExistsByPhone(st, req.phone) ==> r == (st, BadRequest(PhoneInUse))
    ensures r.1.Ok? <==>
      !ExistsByEmail(st, req.email) && !ExistsByPhone(st, req.phone) && !CodeInUse(st, MemberCode(uuid)) && SignupFits(req, uuid)
    ensures !ExistsByEmail(st, req.email) && !ExistsByPhone(st, req.phone) && !r.1.Ok? ==> r == (st, Thrown(DataIntegrityViolation))
    ensures !r.1.Ok? ==> r.0 == st
    ensures r.1.Ok? ==> r.1.body == Registered && |r.0.rows| == |st.rows| + 1 && r.0.rows[..|st.rows|] == st.rows
    ensures r.1.Ok? ==> var m := r.0.rows[|st.rows|];
      && RegisteredFrom(m, req, enc) && m.memberCode == MemberCode(uuid)
      && m.id == st.nextId && m.createdAt == now && m.updatedAt == now
    ensures Valid(st) ==> Valid(r.0)
    ensures TokensPaired(st) ==> TokensPaired(r.0)
  {
    if ExistsByEmail(st, req.email) then (st, BadRequest(EmailInUse))
    else if ExistsByPhone(st, req.phone) then (st, BadRequest(PhoneInUse))
    else
      assert !ClashesWithOthers(st.rows, NewMember(req, enc, uuid), -1) <==> !CodeInUse(st, MemberCode(uuid)) by {
        var m := NewMember(req, enc, uuid);
        assert forall j :: 0 <= j < |st.rows| ==> (Clash(st.rows[j], m) <==> st.rows[j].memberCode == m.memberCode);
      }
      match Insert(st, NewMember(req, enc, uuid), now)
      case Success(saved) =>
        assert saved.0.rows[..|st.rows|] == st.rows;
        assert forall i :: 0 <= i < |st.rows| ==> saved.0.rows[i] == st.rows[i];
        (saved.0, Ok(Registered))
      case Failure(f) => (st, Thrown(f))
  }

  /** No two members share an email, and no two share a (non-null) phone. */
  ghost predicate ContactsDistinct(st: MemberStore) {
    forall i, j :: 0 <= i < j < |st.rows| ==>
      st.rows[i].email != st.rows[j].email && (st.rows[i].phone.Some? ==> st.rows[i].phone != st.rows[j].phone)
  }

  /** The email and phone checks of `registerUser` alone keep contacts
      distinct: the database's own constraints are not needed for it. */
  lemma {:induction false} RegisterKeepsContactsDistinct(st: MemberStore, req: SignupRequest, enc: PasswordEncoder, uuid: Uuid, now: int)
    requires ContactsDistinct(st)
    ensures ContactsDistinct(RegisterUser(st, req, enc, uuid, now).0)
  {
    var r := RegisterUser(st, req, enc, uuid, now);
    if r.1.Ok? {
      var rows := r.0.rows;
      forall i, j | 0 <= i < j < |rows|
        ensures rows[i].email != rows[j].email && (rows[i].phone.Some? ==> rows[i].phone != rows[j].phone)
      {
        assert rows[i] == st.rows[i];
        if j == |st.rows| {
          assert rows[j].email == req.email && rows[j].phone == Some(req.phone);
          assert st.rows[i].email != req.email;
          assert st.rows[i].phone != Some(req.phone);
        } else {
          assert rows[j] == st.rows[j];
        }
      }
    }
  }

  /** `after` is the row a save of `before` holding `token` and `expiry`
      leaves: stamped with `now`, unless it already held both and the save
      changed nothing. */
  predicate TokenIssuedTo(before: Member, after: Member, token: string, expiry: int, now: int) {
    after == Stamped(before, before.(resetPasswordToken := Some(token), resetPasswordTokenExpiry := Some(expiry)), now)
  }

  /** `forgotPassword`: stamps the member owning `email` with a fresh token
      valid for 24 hours. */
  function ForgotPassword(st: MemberStore, email: string, uuid: Uuid, now: int): (r: (MemberStore, Response<string>))
    requires Valid(st)
    ensures (forall i :: 0 <= i < |st.rows| ==> st.rows[i].email != email) ==> r == (st, Thrown(Runtime(MemberNotFound(email))))
    ensures r.1.Ok? || r.0 == st
    ensures forall i :: 0 <= i < |st.rows| && st.rows[i].email == email && |uuid.ToString()| <= TokenWidth ==>
      && r.1 == Ok(TokenIssued)
      && |r.0.rows| == |st.rows| && r.0.nextId == st.nextId
      && TokenIssuedTo(st.rows[i], r.0.rows[i], uuid.ToString(), now + TokenLifetime, now)
      && forall j :: 0 <= j < |st.rows| && j != i ==> r.0.rows[j] == st.rows[j]
    ensures (exists i :: 0 <= i < |st.rows| && st.rows[i].email == email) && |uuid.ToString()| > TokenWidth ==>
      r == (st, Thrown(DataIntegrityViolation))
    ensures Valid(r.0)
    ensures TokensPaired(st) ==> TokensPaired(r.0)
  {
    match FindByEmail(st, email)
    case NoMatch => (st, Thrown(Runtime(MemberNotFound(email))))
    case Several => (st, Thrown(IncorrectResultSize))
    case Unique(i) =>
      var m := st.rows[i].(resetPasswordToken := Some(uuid.ToString()),
                           resetPasswordTokenExpiry := Some(now + TokenLifetime));
      match UpdateRow(st, i, m, now)
      case Success(st') => (st', Ok(TokenIssued))
      case Failure(f) => (st, Thrown(f))
  }

  /** The member at `i` holds `token` and no other member does. */
  ghost predicate SoleHolder(st: MemberStore, i: int, token: string) {
    && 0 <= i < |st.rows| && st.rows[i].resetPasswordToken == Some(token)
    && forall j :: 0 <= j < |st.rows| && j != i ==> st.rows[j].resetPasswordToken != Some(token)
  }

  /** `resetPassword`: a token that is not past its expiry is exchanged, once,
      for a new password. */
  function ResetPassword(st: MemberStore, token: string, newPassword: string, enc: PasswordEncoder, now: int)
    : (r: (MemberStore, Response<string>))
    requires Valid(st)
    ensures (forall i :: 0 <= i < |st.rows| ==> st.rows[i].resetPasswordToken != Some(token)) ==> r == (st, Thrown(Runtime(InvalidToken)))
    ensures r.1.Ok? || r.0 == st
    ensures forall i :: SoleHolder(st, i, token) && st.rows[i].resetPasswordTokenExpiry.Some? ==>
      var expiry := st.rows[i].resetPasswordTokenExpiry.value;
      (expiry < now ==> r == (st, BadRequest(TokenExpired)))
      && (now <= expiry ==>
            && r.1 == Ok(PasswordWasReset)
            && r.0.rows == st.rows[i := st.rows[i].(password := Some(enc.encode(newPassword)),
                                                   resetPasswordToken := None,
                                                   resetPasswordTokenExpiry := None,
                                                   updatedAt := now)]
            && r.0.nextId == st.nextId)
    ensures forall i :: SoleHolder(st, i, token) && st.rows[i].resetPasswordTokenExpiry.None? ==>
      r == (st, Thrown(NullDereference))
    ensures TokenShared(st, token) ==> r == (st, Thrown(IncorrectResultSize))
    ensures r.1.Ok? ==> exists i :: SoleHolder(st, i, token) && st.rows[i].resetPasswordTokenExpiry.Some? && now <= st.rows[i].resetPasswordTokenExpiry.value
    ensures Valid(r.0)
    ensures TokensPaired(st) ==> TokensPaired(r.0) && r.1 != Thrown(NullDereference)
  {
    match FindByResetToken(st, token)
    case NoMatch => (st, Thrown(Runtime(InvalidToken)))
    case Several => (st, Thrown(IncorrectResultSize))
    case Unique(i) =>
      assert SoleHolder(st, i, token);
      match st.rows[i].resetPasswordTokenExpiry
      case None => (st, Thrown(NullDereference))
      case Some(expiry) =>
        if expiry < now then (st, BadRequest(TokenExpired))
        else
          var m := st.rows[i].(password := Some(enc.encode(newPassword)),
                               resetPasswordToken := None, resetPasswordTokenExpiry := None);
          match UpdateRow(st, i, m, now)
          case Success(st') => (st', Ok(PasswordWasReset))
          case Failure(f) => (st, Thrown(f))
  }

  /** A token is single-use: once a reset succeeded with it, every later
      reset with the same token is refused as invalid. */
  lemma ResetTokenSingleUse(st: MemberStore, token: string, p1: string, p2: string, enc: PasswordEncoder, now: int, later: int)
    requires Valid(st)
    requires ResetPassword(st, token, p1, enc, now).1.Ok?
    ensures var st' := ResetPassword(st, token, p1, enc, now).0;
      ResetPassword(st', token, p2, enc, later) == (st', Thrown(Runtime(InvalidToken)))
  {
    var st' := ResetPassword(st, token, p1, enc, now).0;
    var i :| SoleHolder(st, i, token) && st.rows[i].resetPasswordTokenExpiry.Some? && now <= st.rows[i].resetPasswordTokenExpiry.value;
    assert forall j :: 0 <= j < |st'.rows| ==> st'.rows[j].resetPasswordToken != Some(token) by {
      forall j | 0 <= j < |st'.rows|
        ensures st'.rows[j].resetPasswordToken != Some(token)
      {
        if j != i {
          assert st'.rows[j] == st.rows[j];
        }
      }
    }
  }
}
