/** String operations the source relies on: JavaScript's `String.prototype.trim`
    (the blank-requirement guard), Java's `String.replace("-", "")` and the
    canonical text form of a random UUID (member codes and reset tokens). */
module Text {

  /** The code points `trim` removes: ECMAScript WhiteSpace (TAB, VT, FF,
      ZWNBSP and every space separator) and LineTerminator (LF, CR, LS, PS). */
  const JsWhitespace: set<char> := {
    '\t', '\n', '\U{000B}', '\U{000C}', '\r', ' ', '\U{00A0}', '\U{1680}',
    '\U{2000}', '\U{2001}', '\U{2002}', '\U{2003}', '\U{2004}', '\U{2005}',
    '\U{2006}', '\U{2007}', '\U{2008}', '\U{2009}', '\U{200A}',
    '\U{2028}', '\U{2029}', '\U{202F}', '\U{205F}', '\U{3000}', '\U{FEFF}'
  }

  predicate IsJsWhitespace(c: char) {
    c in JsWhitespace
  }

  /** Drops leading whitespace: the result is a suffix of `s`. */
  function TrimStart(s: string): (r: string)
    ensures |r| <= |s| && r == s[|s| - |r|..]
    ensures forall i :: 0 <= i < |s| - |r| ==> IsJsWhitespace(s[i])
    ensures r == [] || !IsJsWhitespace(r[0])
  {
    if s != [] && IsJsWhitespace(s[0]) then TrimStart(s[1..]) else s
  }

  /** Drops trailing whitespace: the result is a prefix of `s`. */
  function TrimEnd(s: string): (r: string)
    ensures |r| <= |s| && r == s[..|r|]
    ensures forall i :: |r| <= i < |s| ==> IsJsWhitespace(s[i])
    ensures r == [] || !IsJsWhitespace(r[|r| - 1])
  {
    if s != [] && IsJsWhitespace(s[|s| - 1]) then TrimEnd(s[..|s| - 1]) else s
  }

  /** `s.trim()`: the slice of `s` left after removing whitespace from both
      ends. It is empty exactly when every character is whitespace, and
      otherwise starts and ends with a non-whitespace character. */
  function Trim(s: string): (r: string)
    ensures exists k :: TrimmedAt(s, r, k)
    ensures r == [] <==> forall i :: 0 <= i < |s| ==> IsJsWhitespace(s[i])
    ensures r != [] ==> !IsJsWhitespace(r[0]) && !IsJsWhitespace(r[|r| - 1])
  {
    var t := TrimStart(s);
    var r := TrimEnd(t);
    TrimSlice(s, t, r);
    r
  }

  /** Trimming the front and then the back leaves a slice of `s` with only
      whitespace outside it and none at its ends. */
  lemma TrimSlice(s: string, t: string, r: string)
    requires |t| <= |s| && t == s[|s| - |t|..]
    requires forall i :: 0 <= i < |s| - |t| ==> IsJsWhitespace(s[i])
    requires t == [] || !IsJsWhitespace(t[0])
    requires |r| <= |t| && r == t[..|r|]
    requires forall i :: |r| <= i < |t| ==> IsJsWhitespace(t[i])
    requires r == [] || !IsJsWhitespace(r[|r| - 1])
    ensures TrimmedAt(s, r, |s| - |t|)
    ensures r == [] <==> forall i :: 0 <= i < |s| ==> IsJsWhitespace(s[i])
    ensures r != [] ==> !IsJsWhitespace(r[0]) && !IsJsWhitespace(r[|r| - 1])
  {
    var k := |s| - |t|;
    forall i | k + |r| <= i < |s|
      ensures IsJsWhitespace(s[i])
    {
      assert s[i] == t[i - k];
    }
    assert s[k..k + |r|] == t[..|r|];
    if r != [] {
      assert r[0] == t[0];
    }
  }

  /** `r` is the slice of `s` starting at `k`, and everything of `s` outside
      that slice is whitespace. */
  predicate TrimmedAt(s: string, r: string, k: int) {
    && 0 <= k && k + |r| <= |s| && r == s[k..k + |r|]
    && (forall i :: 0 <= i < k ==> IsJsWhitespace(s[i]))
    && (forall i :: k + |r| <= i < |s| ==> IsJsWhitespace(s[i]))
  }

  /** Some character is not whitespace: the non-recursive form of `!IsBlank`. */
  predicate HasVisible(s: string) {
    exists i :: 0 <= i < |s| && !IsJsWhitespace(s[i])
  }

  /** JavaScript's `!s.trim()`: the string is empty after trimming. */
  predicate IsBlank(s: string) {
    Trim(s) == []
  }

  /** `s.replace(c, "")` for a one-character target: every occurrence removed. */
  function Without(s: string, c: char): (r: string)
    ensures c !in r
    ensures forall x :: x in r <==> x in s && x != c
    ensures |r| <= |s|
  {
    if s == [] then []
    else if s[0] == c then Without(s[1..], c)
    else [s[0]] + Without(s[1..], c)
  }

  lemma {:induction false} WithoutAppend(a: string, b: string, c: char)
    ensures Without(a + b, c) == Without(a, c) + Without(b, c)
  {
    if a == [] {
      assert a + b == b;
    } else {
      assert (a + b)[0] == a[0];
      assert (a + b)[1..] == a[1..] + b;
      WithoutAppend(a[1..], b, c);
    }
  }

  lemma {:induction false} WithoutAbsent(s: string, c: char)
    requires c !in s
    ensures Without(s, c) == s
  {
    if s != [] {
      assert s == [s[0]] + s[1..];
      WithoutAbsent(s[1..], c);
    }
  }

  predicate IsLowerHex(c: char) {
    ('0' <= c && c <= '9') || ('a' <= c && c <= 'f')
  }

  predicate HexGroup(g: string, n: nat) {
    |g| == n && forall i :: 0 <= i < |g| ==> IsLowerHex(g[i])
  }

  /** A random UUID as its five hexadecimal groups. */
  datatype Uuid = Uuid(g1: string, g2: string, g3: string, g4: string, g5: string) {

    /** The 8-4-4-4-12 shape of `UUID.randomUUID()`. */
    predicate Valid() {
      HexGroup(g1, 8) && HexGroup(g2, 4) && HexGroup(g3, 4) && HexGroup(g4, 4) && HexGroup(g5, 12)
    }

    /** `UUID.toString()`: the groups joined by '-'. */
    function ToString(): string {
      g1 + "-" + g2 + "-" + g3 + "-" + g4 + "-" + g5
    }

    function Hex(): string {
      g1 + g2 + g3 + g4 + g5
    }
  }

  lemma DashJoin(a: string, b: string)
    requires '-' !in b
    ensures Without(a + "-" + b, '-') == Without(a, '-') + b
  {
    WithoutAppend(a + "-", b, '-');
    WithoutAppend(a, "-", '-');
    WithoutAbsent(b, '-');
  }

  lemma HexGroupHasNoDash(g: string, n: nat)
    requires HexGroup(g, n)
    ensures '-' !in g
  {
    forall i | 0 <= i < |g|
      ensures g[i] != '-'
    {
      assert IsLowerHex(g[i]);
    }
  }

  /** The text of a random UUID is 36 characters long. */
  lemma UuidTextLength(u: Uuid)
    requires u.Valid()
    ensures |u.ToString()| == 36
  {
  }

  /** Removing the dashes from a UUID's text leaves exactly its 32 hexadecimal
      digits, which fits the 32-character member_code column. */
  lemma UuidWithoutDashes(u: Uuid)
    requires u.Valid()
    ensures Without(u.ToString(), '-') == u.Hex()
    ensures |Without(u.ToString(), '-')| == 32
  {
    HexGroupHasNoDash(u.g1, 8);
    HexGroupHasNoDash(u.g2, 4);
    HexGroupHasNoDash(u.g3, 4);
    HexGroupHasNoDash(u.g4, 4);
    HexGroupHasNoDash(u.g5, 12);
    WithoutAbsent(u.g1, '-');
    var s1 := u.g1 + "-" + u.g2;
    DashJoin(u.g1, u.g2);
    var s2 := s1 + "-" + u.g3;
    DashJoin(s1, u.g3);
    var s3 := s2 + "-" + u.g4;
    DashJoin(s2, u.g4);
    var s4 := s3 + "-" + u.g5;
    DashJoin(s3, u.g5);
    assert s4 == u.ToString();
  }
}
