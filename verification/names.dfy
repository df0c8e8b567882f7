/**
 * Strings and the character tests the rules apply to names.
 *
 * JavaScript's `toUpperCase`/`toLowerCase` are modelled over ASCII: the only
 * characters they change are the letters `a`-`z` and `A`-`Z` respectively.
 */
module Names {
  import opened Sorting

  datatype Option<+T> = None | Some(value: T)

  predicate StartsWith(s: string, prefix: string) {
    |prefix| <= |s| && s[..|prefix|] == prefix
  }

  predicate EndsWith(s: string, suffix: string) {
    |suffix| <= |s| && s[|s| - |suffix|..] == suffix
  }

  predicate IsAsciiLower(c: char) {
    'a' <= c <= 'z'
  }

  predicate IsAsciiUpper(c: char) {
    'A' <= c <= 'Z'
  }

  /** `c === c.toUpperCase()`: true of every character that is not a
      lower-case letter, digits and punctuation included. */
  predicate UnchangedByUpper(c: char) {
    !IsAsciiLower(c)
  }

  function LowerChar(c: char): char {
    if IsAsciiUpper(c) then (c as int + 32) as char else c
  }

  /** `s.toLowerCase()`. */
  function ToLower(s: string): (r: string)
    ensures |r| == |s|
    ensures forall i | 0 <= i < |s| :: r[i] == LowerChar(s[i])
  {
    if s == [] then [] else [LowerChar(s[0])] + ToLower(s[1..])
  }

  /** Lexicographic comparison of character codes; a concrete name order used
      by the worked examples. */
  function CodePointCompare(a: string, b: string): (r: int)
    ensures r == 0 <==> a == b
    ensures -1 <= r <= 1
  {
    if a == [] && b == [] then 0
    else if a == [] then -1
    else if b == [] then 1
    else if a[0] < b[0] then -1
    else if a[0] > b[0] then 1
    else CodePointCompare(a[1..], b[1..])
  }

  lemma {:induction false} CodePointAntisymmetric(a: string, b: string)
    ensures CodePointCompare(b, a) == -CodePointCompare(a, b)
  {
    if a != [] && b != [] && a[0] == b[0] {
      CodePointAntisymmetric(a[1..], b[1..]);
    }
  }

  lemma {:induction false} CodePointTransitive(a: string, b: string, c: string)
    requires CodePointCompare(a, b) <= 0 && CodePointCompare(b, c) <= 0
    ensures CodePointCompare(a, c) <= 0
  {
    if a != [] && b != [] && c != [] && a[0] == b[0] && b[0] == c[0] {
      CodePointTransitive(a[1..], b[1..], c[1..]);
    }
  }

  /** The code-point order is a total order, so it is a valid name order. */
  lemma CodePointIsTotalPreorder()
    ensures TotalPreorder(CodePointCompare)
  {
    forall a, b ensures Sign(CodePointCompare(a, b)) == -Sign(CodePointCompare(b, a)) {
      CodePointAntisymmetric(a, b);
    }
    forall a, b, c | CodePointCompare(a, b) <= 0 && CodePointCompare(b, c) <= 0
      ensures CodePointCompare(a, c) <= 0
    {
      CodePointTransitive(a, b, c);
    }
  }
}
