/** ASCII case folding, as Rust's `str::eq_ignore_ascii_case` performs it. */
module Ascii {

  /** `char::to_ascii_lowercase`: 'A'..'Z' become 'a'..'z', every other character is kept. */
  function ToAsciiLowercase(c: char): (l: char)
    ensures 'A' <= c <= 'Z' ==> 'a' <= l <= 'z' && l as int - c as int == 32
    ensures !('A' <= c <= 'Z') ==> l == c
  {
    if 'A' <= c <= 'Z' then (c as int + 32) as char else c
  }

  /** Two strings are equal ignoring ASCII case: same length, and equal letter
      by letter once ASCII upper case is folded to lower case. */
  predicate EqIgnoreAsciiCase(a: string, b: string)
  {
    |a| == |b| && forall i :: 0 <= i < |a| ==> ToAsciiLowercase(a[i]) == ToAsciiLowercase(b[i])
  }

  lemma EqIgnoreAsciiCaseReflexive(a: string)
    ensures EqIgnoreAsciiCase(a, a)
  {
  }

  lemma EqIgnoreAsciiCaseSymmetric(a: string, b: string)
    requires EqIgnoreAsciiCase(a, b)
    ensures EqIgnoreAsciiCase(b, a)
  {
  }

  lemma EqIgnoreAsciiCaseTransitive(a: string, b: string, c: string)
    requires EqIgnoreAsciiCase(a, b) && EqIgnoreAsciiCase(b, c)
    ensures EqIgnoreAsciiCase(a, c)
  {
  }

  /** Folding only identifies a letter with its other-case twin: characters that
      are not ASCII letters must match exactly. */
  lemma {:induction false} FoldingIdentifiesOnlyCaseTwins(c: char, d: char)
    requires ToAsciiLowercase(c) == ToAsciiLowercase(d)
    ensures c == d || ('A' <= c <= 'Z' && d as int == c as int + 32) || ('A' <= d <= 'Z' && c as int == d as int + 32)
  {
  }
}
