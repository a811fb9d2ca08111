/** Shared vocabulary of the model: optional (nullable) values, repository
    results, the controllers' HTTP responses, and sequence searches used by the
    repositories' derived queries. */
module Common {

  /** A Java reference that may be null. */
  datatype Option<+T> = None | Some(value: T)

  /** Exceptions that escape a controller method; the framework answers each
      of them with a server error. */
  datatype Fault =
    | Runtime(message: string)   // a RuntimeException the controller throws itself
    | DataIntegrityViolation     // the database refused a row that breaks a unique constraint
    | IncorrectResultSize        // a single-result repository query matched several rows
    | NullDereference            // a NullPointerException

  /** Outcome of a repository write. */
  datatype Result<+T> = Success(value: T) | Failure(fault: Fault)

  /** What a controller method answers: `ResponseEntity.ok(body)`,
      `ResponseEntity.badRequest().body(new MessageResponse(message))`,
      `ResponseEntity.notFound()`, or an exception that escapes. */
  datatype Response<+T> = Ok(body: T) | BadRequest(message: string) | NotFound | Thrown(fault: Fault)

  /** Outcome of a Spring Data query returning `Optional<T>`: no row, exactly
      one row (at this index), or several rows (which makes Spring throw). */
  datatype Lookup = NoMatch | Unique(index: nat) | Several

  /** Index of the first element satisfying `p`. */
  function FirstIndex<T>(s: seq<T>, p: T -> bool): (r: Option<nat>)
    ensures r.Some? ==> r.value < |s| && p(s[r.value])
    ensures r.Some? ==> forall j :: 0 <= j < r.value ==> !p(s[j])
    ensures r.None? <==> forall j :: 0 <= j < |s| ==> !p(s[j])
  {
    if s == [] then None
    else if p(s[0]) then Some(0)
    else match FirstIndex(s[1..], p)
      case None => None
      case Some(k) => Some(k + 1)
  }

  /** A list query with a `where` condition: the elements satisfying `p`, each
      as often as it occurs in `s`; no order is promised. */
  function Filter<T(!new)>(s: seq<T>, p: T -> bool): (r: seq<T>)
    ensures forall x :: multiset(r)[x] == if p(x) then multiset(s)[x] else 0
    ensures forall x :: x in r <==> x in s && p(x)
    ensures |r| <= |s|
  {
    if s == [] then []
    else
      assert s == [s[0]] + s[1..];
      (if p(s[0]) then [s[0]] else []) + Filter(s[1..], p)
  }

  /** Single-result query: which rows satisfy `p`. */
  function FindUnique<T>(s: seq<T>, p: T -> bool): (r: Lookup)
    ensures r.NoMatch? <==> forall i :: 0 <= i < |s| ==> !p(s[i])
    ensures r.Unique? ==> r.index < |s| && p(s[r.index])
    ensures r.Unique? ==> forall i :: 0 <= i < |s| && i != r.index ==> !p(s[i])
    ensures r.Several? ==> exists i, j :: 0 <= i < j < |s| && p(s[i]) && p(s[j])
  {
    match FirstIndex(s, p)
    case None => NoMatch
    case Some(i) =>
      match FirstIndex(s[i + 1..], p)
      case None =>
        assert forall j :: i < j < |s| ==> s[j] == s[i + 1..][j - i - 1];
        Unique(i)
      case Some(k) =>
        assert s[i + 1..][k] == s[i + 1 + k];
        Several
  }

  /** Java's string conversion in `"..." + x`: a null reference prints as "null". */
  function JavaString(s: Option<string>): (r: string)
    ensures s.Some? ==> r == s.value
    ensures s.None? ==> r == "null"
  {
    match s
    case Some(v) => v
    case None => "null"
  }
}
