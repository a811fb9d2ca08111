/** The `member` table: the entity, the repository queries the controllers use,
    and the table's unique constraints on email, phone and member_code. */
module Members {
  import opened Common

  /** One row of the member table. Dates and times are integers (seconds, or
      days for the birthday); `password` holds the encoded hash. */
  datatype Member = Member(
    id: int,
    memberCode: string,
    email: string,
    phone: Option<string>,
    password: Option<string>,
    passwordSalt: Option<string>,
    name: Option<string>,
    gender: Option<string>,
    birthday: Option<int>,
    status: int,
    emailVerified: int,
    phoneVerified: int,
    createdAt: int,
    updatedAt: int,
    lastLoginAt: Option<int>,
    resetPasswordToken: Option<string>,
    resetPasswordTokenExpiry: Option<int>)

  /** The table's rows in insertion order, and the next identity value. */
  datatype MemberStore = MemberStore(rows: seq<Member>, nextId: int)

  /** The password encoder: `encode` hashes a raw password and `matches`
      compares a raw password with a stored hash. */
  datatype PasswordEncoder = PasswordEncoder(encode: string -> string, matches: (string, string) -> bool)

  /** `encoder.matches(raw, stored)`; a null stored hash never matches. */
  predicate Matches(enc: PasswordEncoder, raw: string, stored: Option<string>) {
    stored.Some? && enc.matches(raw, stored.value)
  }

  /** The assumption, not made by the model itself, that a hash produced by
      `encode` matches the password it was produced from. */
  ghost predicate Consistent(enc: PasswordEncoder) {
    forall p :: enc.matches(p, enc.encode(p))
  }

  /** Two rows the unique constraints forbid to coexist: equal email, equal
      member code, or equal non-null phone (SQL lets several rows hold null). */
  predicate Clash(a: Member, b: Member) {
    a.email == b.email || (a.phone.Some? && a.phone == b.phone) || a.memberCode == b.memberCode
  }

  /** Declared widths of the member table's character columns. */
  const CodeWidth := 32
  const EmailWidth := 255
  const PhoneWidth := 20
  const SaltWidth := 64
  const NameWidth := 50
  const GenderWidth := 1
  const TokenWidth := 64

  /** A nullable value fits a column of `width` characters. */
  predicate FitsWidth(s: Option<string>, width: nat) {
    s.None? || |s.value| <= width
  }

  /** Every character column of `m` fits its declared width. The password
      hash is the encoder's output and is not measured. */
  predicate FitsColumns(m: Member) {
    && |m.memberCode| <= CodeWidth && |m.email| <= EmailWidth
    && FitsWidth(m.phone, PhoneWidth) && FitsWidth(m.passwordSalt, SaltWidth)
    && FitsWidth(m.name, NameWidth) && FitsWidth(m.gender, GenderWidth)
    && FitsWidth(m.resetPasswordToken, TokenWidth)
  }

  /** What the database guarantees of the table: distinct identities below
      the next identity value, every row within the column widths, and no
      two rows violating a unique constraint. */
  ghost predicate Valid(st: MemberStore) {
    && (forall i :: 0 <= i < |st.rows| ==> st.rows[i].id < st.nextId && FitsColumns(st.rows[i]))
    && (forall i, j :: 0 <= i < j < |st.rows| ==> st.rows[i].id != st.rows[j].id && !Clash(st.rows[i], st.rows[j]))
  }

  /** The application's own pairing of a reset token with its expiry. */
  ghost predicate TokensPaired(st: MemberStore) {
    forall i :: 0 <= i < |st.rows| ==>
      (st.rows[i].resetPasswordToken.Some? <==> st.rows[i].resetPasswordTokenExpiry.Some?)
  }

  /** Some row other than the one at `skip` clashes with `m`. */
  predicate ClashesWithOthers(rows: seq<Member>, m: Member, skip: int) {
    exists j :: 0 <= j < |rows| && j != skip && Clash(rows[j], m)
  }

  /** A row other than the one at `skip` holds the non-null `phone`. */
  predicate PhoneTakenByOther(rows: seq<Member>, skip: int, phone: Option<string>) {
    phone.Some? && exists j :: 0 <= j < |rows| && j != skip && rows[j].phone == phone
  }

  /** `memberRepository.save` of a new entity: the database assigns the next
      identity and the creation/update timestamps, or refuses a row that
      breaks a unique constraint or is too wide for a column. */
  function Insert(st: MemberStore, m: Member, now: int): (r: Result<(MemberStore, Member)>)
    ensures r.Success? <==> !ClashesWithOthers(st.rows, m, -1) && FitsColumns(m)
    ensures r.Success? ==> r.value.0.rows == st.rows + [r.value.1] && r.value.0.nextId == st.nextId + 1
    ensures r.Success? ==> r.value.1 == m.(id := st.nextId, createdAt := now, updatedAt := now)
    ensures r.Failure? ==> r.fault == DataIntegrityViolation
    ensures Valid(st) && r.Success? ==> Valid(r.value.0)
  {
    if ClashesWithOthers(st.rows, m, -1) || !FitsColumns(m) then Failure(DataIntegrityViolation)
    else
      var saved := m.(id := st.nextId, createdAt := now, updatedAt := now);
      var st' := MemberStore(st.rows + [saved], st.nextId + 1);
      assert Valid(st) ==> Valid(st') by {
        if Valid(st) {
          forall i, j | 0 <= i < j < |st'.rows|
            ensures st'.rows[i].id != st'.rows[j].id && !Clash(st'.rows[i], st'.rows[j])
          {
            if j == |st.rows| {
              assert !Clash(st.rows[i], m);
            }
          }
        }
      }
      Success((st', saved))
  }

  /** The loaded entity `before` was modified into `m` in some column other
      than the update time. */
  predicate Changed(before: Member, m: Member) {
    m.(updatedAt := before.updatedAt) != before
  }

  /** The row a save of `m` leaves behind. Hibernate stamps `@UpdateTimestamp`
      only when its flush finds a changed column: the new update time is
      `now` if `m` differs from `before`, and otherwise stays as it was. */
  function Stamped(before: Member, m: Member, now: int): (after: Member)
    ensures after.(updatedAt := m.updatedAt) == m
    ensures Changed(before, m) ==> after.updatedAt == now
    ensures !Changed(before, m) ==> after == before
  {
    if Changed(before, m) then m.(updatedAt := now) else before
  }

  /** `memberRepository.save` of the loaded entity at index `i`. An entity
      with no changed column issues no UPDATE and cannot fail; a changed one
      is written and stamped, or refused by a constraint. */
  function UpdateRow(st: MemberStore, i: nat, m: Member, now: int): (r: Result<MemberStore>)
    requires i < |st.rows|
    ensures !Changed(st.rows[i], m) ==> r == Success(st)
    ensures Changed(st.rows[i], m) ==> (r.Success? <==> !ClashesWithOthers(st.rows, m, i) && FitsColumns(m))
    ensures r.Success? ==> r.value.rows == st.rows[i := Stamped(st.rows[i], m, now)] && r.value.nextId == st.nextId
    ensures r.Failure? ==> r.fault == DataIntegrityViolation
    ensures Valid(st) && m.email == st.rows[i].email && m.memberCode == st.rows[i].memberCode ==>
      (r.Success? <==> !PhoneTakenByOther(st.rows, i, m.phone) && FitsColumns(m))
    ensures Valid(st) && m.id == st.rows[i].id && r.Success? ==> Valid(r.value)
  {
    if !Changed(st.rows[i], m) then
      assert Valid(st) ==> FitsColumns(m) && !PhoneTakenByOther(st.rows, i, m.phone) by {
        if Valid(st) {
          assert m.(updatedAt := st.rows[i].updatedAt) == st.rows[i];
          ClashOnlyOnPhone(st, i, st.rows[i]);
          forall j | 0 <= j < |st.rows| && j != i
            ensures !Clash(st.rows[j], st.rows[i])
          {
            if j < i {
              assert !Clash(st.rows[j], st.rows[i]);
            } else {
              assert !Clash(st.rows[i], st.rows[j]);
            }
          }
        }
      }
      assert st.rows[i := Stamped(st.rows[i], m, now)] == st.rows;
      Success(st)
    else
      assert Valid(st) && m.email == st.rows[i].email && m.memberCode == st.rows[i].memberCode ==>
        (ClashesWithOthers(st.rows, m, i) <==> PhoneTakenByOther(st.rows, i, m.phone)) by {
        if Valid(st) && m.email == st.rows[i].email && m.memberCode == st.rows[i].memberCode {
          ClashOnlyOnPhone(st, i, m);
        }
      }
      if ClashesWithOthers(st.rows, m, i) || !FitsColumns(m) then Failure(DataIntegrityViolation)
      else
        var st' := st.(rows := st.rows[i := m.(updatedAt := now)]);
        assert Valid(st) && m.id == st.rows[i].id ==> Valid(st') by {
          if Valid(st) && m.id == st.rows[i].id {
            forall a, b | 0 <= a < b < |st'.rows|
              ensures st'.rows[a].id != st'.rows[b].id && !Clash(st'.rows[a], st'.rows[b])
            {
              if a == i {
                assert !Clash(st.rows[b], m);
              } else if b == i {
                assert !Clash(st.rows[a], m);
              }
            }
          }
        }
        Success(st')
  }

  /** Keeping email and member code, a row can only clash on its phone. */
  lemma ClashOnlyOnPhone(st: MemberStore, i: nat, m: Member)
    requires Valid(st) && i < |st.rows|
    requires m.email == st.rows[i].email && m.memberCode == st.rows[i].memberCode
    ensures ClashesWithOthers(st.rows, m, i) <==> PhoneTakenByOther(st.rows, i, m.phone)
  {
    forall j | 0 <= j < |st.rows| && j != i
      ensures Clash(st.rows[j], m) <==> m.phone.Some? && st.rows[j].phone == m.phone
    {
      if j < i {
        assert !Clash(st.rows[j], st.rows[i]);
      } else {
        assert !Clash(st.rows[i], st.rows[j]);
      }
    }
  }

  /** `findByEmail`. */
  function FindByEmail(st: MemberStore, email: string): (r: Lookup)
    ensures r.NoMatch? <==> forall i :: 0 <= i < |st.rows| ==> st.rows[i].email != email
    ensures r.Unique? ==> r.index < |st.rows| && st.rows[r.index].email == email
    ensures r.Unique? ==> forall i :: 0 <= i < |st.rows| && i != r.index ==> st.rows[i].email != email
    ensures Valid(st) ==> !r.Several?
  {
    var r := FindUnique(st.rows, (m: Member) => m.email == email);
    assert Valid(st) ==> !r.Several? by {
      if Valid(st) {
        assert forall i, j :: 0 <= i < j < |st.rows| ==> !Clash(st.rows[i], st.rows[j]);
      }
    }
    r
  }

  /** `existsByEmail`: the query finds a row with that email. */
  function ExistsByEmail(st: MemberStore, email: string): (b: bool)
    ensures b <==> exists i :: 0 <= i < |st.rows| && st.rows[i].email == email
  {
    FirstIndex(st.rows, (m: Member) => m.email == email).Some?
  }

  /** `existsByPhone`: the query finds a row with that (non-null) phone. */
  function ExistsByPhone(st: MemberStore, phone: string): (b: bool)
    ensures b <==> exists i :: 0 <= i < |st.rows| && st.rows[i].phone == Some(phone)
  {
    FirstIndex(st.rows, (m: Member) => m.phone == Some(phone)).Some?
  }

  /** At least two members hold `token`. */
  predicate TokenShared(st: MemberStore, token: string) {
    exists i, j :: 0 <= i < j < |st.rows| && st.rows[i].resetPasswordToken == Some(token)
                                         && st.rows[j].resetPasswordToken == Some(token)
  }

  /** `findByResetPasswordToken`; reset tokens carry no unique constraint. */
  function FindByResetToken(st: MemberStore, token: string): (r: Lookup)
    ensures r.NoMatch? <==> forall i :: 0 <= i < |st.rows| ==> st.rows[i].resetPasswordToken != Some(token)
    ensures r.Unique? ==> r.index < |st.rows| && st.rows[r.index].resetPasswordToken == Some(token)
    ensures r.Unique? ==> forall i :: 0 <= i < |st.rows| && i != r.index ==> st.rows[i].resetPasswordToken != Some(token)
    ensures r.Several? ==> TokenShared(st, token)
  {
    FindUnique(st.rows, (m: Member) => m.resetPasswordToken == Some(token))
  }
}
