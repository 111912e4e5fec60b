/** Vocabulary shared by every controller of the library back end: optional
    values, handler outcomes, the request conventions of JavaScript (`x || d`),
    ASCII case mapping and the substring test behind SQL `LIKE '%q%'`. */
module Common {

  datatype Option<+T> = None | Some(value: T)

  /** The HTTP status class of a refused or failed request. */
  datatype ErrorKind =
    | BadRequest    // 400
    | Unauthorized  // 401
    | Forbidden     // 403
    | NotFound      // 404
    | ServerError   // 500

  /** A refused request: its status class and the message the handler sends. */
  datatype Failure = Failure(kind: ErrorKind, message: string)

  /** What a handler answers: a success payload or a failure. */
  datatype Result<+T> = Ok(value: T) | Err(failure: Failure)

  /** Timestamps are integer milliseconds; a day is 24 * 60 * 60 * 1000 of them. */
  const DAY: int := 86400000

  /** JavaScript `n || d` on a number: 0 stands for zero or for an absent field. */
  function OrElse(n: int, d: int): int
  {
    if n != 0 then n else d
  }

  /** JavaScript `s || null` on a text field: "" stands for an empty or absent
      field, and Oracle stores both as NULL. */
  function Nullable(s: string): Option<string>
  {
    if s == "" then None else Some(s)
  }

  function LowerChar(c: char): char
  {
    if 'A' <= c <= 'Z' then (c as int + 32) as char else c
  }

  function UpperChar(c: char): char
  {
    if 'a' <= c <= 'z' then (c as int - 32) as char else c
  }

  /** `toLowerCase` / SQL `LOWER` restricted to ASCII letters. */
  function Lower(s: string): (r: string)
    ensures |r| == |s|
    ensures forall i :: 0 <= i < |s| ==> r[i] == LowerChar(s[i])
  {
    seq(|s|, i requires 0 <= i < |s| => LowerChar(s[i]))
  }

  /** `toUpperCase` restricted to ASCII letters. */
  function Upper(s: string): (r: string)
    ensures |r| == |s|
    ensures forall i :: 0 <= i < |s| ==> r[i] == UpperChar(s[i])
  {
    seq(|s|, i requires 0 <= i < |s| => UpperChar(s[i]))
  }

  /** Lower-casing first never changes what upper-casing gives. */
  lemma UpperOfLower(s: string)
    ensures Upper(Lower(s)) == Upper(s)
  {
    forall i | 0 <= i < |s|
      ensures Upper(Lower(s))[i] == Upper(s)[i]
    {
      var c := s[i];
      if 'A' <= c <= 'Z' {
        assert LowerChar(c) as int == c as int + 32;
      }
    }
  }

  /** Upper-casing first never changes what lower-casing gives. */
  lemma LowerOfUpper(s: string)
    ensures Lower(Upper(s)) == Lower(s)
  {
    forall i | 0 <= i < |s|
      ensures Lower(Upper(s))[i] == Lower(s)[i]
    {
      var c := s[i];
      if 'a' <= c <= 'z' {
        assert UpperChar(c) as int == c as int - 32;
      }
    }
  }

  /** Lower-casing twice is lower-casing once. */
  lemma LowerOfLower(s: string)
    ensures Lower(Lower(s)) == Lower(s)
  {
    forall i | 0 <= i < |s|
      ensures Lower(Lower(s))[i] == Lower(s)[i]
    {
      var c := s[i];
      if 'A' <= c <= 'Z' {
        assert LowerChar(c) as int == c as int + 32;
      }
    }
  }

  /** `s LIKE '%sub%'` with no wildcard characters inside `sub`. */
  predicate Contains(s: string, sub: string)
  {
    exists i :: 0 <= i <= |s| - |sub| && OccursAt(s, sub, i)
  }

  /** `sub` is the slice of `s` starting at position `i`. */
  predicate OccursAt(s: string, sub: string, i: int)
  {
    0 <= i && i + |sub| <= |s| && s[i..i + |sub|] == sub
  }
}
