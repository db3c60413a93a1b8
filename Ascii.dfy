/** ASCII case folding, as used by the `/i` flag of a JavaScript regular
    expression whose pattern is ASCII, and by the case-insensitive attribute
    names of a Set-Cookie string. */
module Ascii {

  /** Lower-cases 'A'..'Z' and leaves every other character alone. A non-ASCII
      character never folds onto an ASCII letter, as in the regular-expression
      Canonicalize operation of ECMA-262. */
  function Lower(c: char): (r: char)
    ensures !('A' <= r <= 'Z')
  {
    if 'A' <= c <= 'Z' then (c as int + 32) as char else c
  }

  /** Two characters fold together exactly when they are equal or are the same
      ASCII letter in its two cases. */
  lemma {:induction false} FoldsTogether(a: char, b: char)
    ensures Lower(a) == Lower(b) <==>
      a == b || ('A' <= a <= 'Z' && b as int == a as int + 32) || ('A' <= b <= 'Z' && a as int == b as int + 32)
  {
  }

  /** Two strings are equal up to ASCII case. */
  predicate EqualIgnoringCase(a: string, b: string) {
    |a| == |b| && forall k :: 0 <= k < |a| ==> Lower(a[k]) == Lower(b[k])
  }
}
