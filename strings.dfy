/** `str::split` on a single character, as `split('/')` and `split(":")` use it. */
module Strings {

  /** Position of the first `c` in `s`, or `|s|` when `s` holds none. */
  function IndexOf(s: string, c: char): (i: nat)
    ensures i <= |s|
    ensures i < |s| ==> s[i] == c
    ensures forall k :: 0 <= k < i ==> s[k] != c
    ensures i == |s| <==> c !in s
  {
    if s == [] then 0
    else if s[0] == c then 0
    else 1 + IndexOf(s[1..], c)
  }

  /** The text of `s` before its first `c` (all of `s` when there is none). */
  function Before(s: string, c: char): (b: string)
    ensures c !in b
    ensures b <= s
    ensures |b| < |s| ==> s[|b|] == c
  {
    s[..IndexOf(s, c)]
  }

  /** The pieces of `s` between occurrences of `sep`, in order; like Rust's `split`,
      the empty string gives one empty piece and adjacent separators give empty pieces. */
  function Split(s: string, sep: char): (parts: seq<string>)
    ensures |parts| >= 1
    ensures parts[0] == Before(s, sep)
    ensures forall k :: 0 <= k < |parts| ==> sep !in parts[k]
    ensures |parts| == 1 <==> sep !in s
    decreases |s|
  {
    var i := IndexOf(s, sep);
    if i == |s| then [s] else [s[..i]] + Split(s[i + 1..], sep)
  }

  /** The pieces joined back with `sep` between them. */
  function Join(parts: seq<string>, sep: char): string
  {
    if parts == [] then ""
    else if |parts| == 1 then parts[0]
    else parts[0] + [sep] + Join(parts[1..], sep)
  }

  /** The second piece of a split is the text between the first and the second separator. */
  lemma {:induction false} SplitSecond(s: string, sep: char)
    requires sep in s
    ensures |Split(s, sep)| >= 2
    ensures Split(s, sep)[1] == Before(s[IndexOf(s, sep) + 1..], sep)
  {
  }

  /** Splitting loses nothing: joining the pieces gives back the input. */
  lemma {:induction false} JoinSplit(s: string, sep: char)
    ensures Join(Split(s, sep), sep) == s
    decreases |s|
  {
    var i := IndexOf(s, sep);
    if i < |s| {
      var rest := s[i + 1..];
      JoinSplit(rest, sep);
      JoinCons(s[..i], Split(rest, sep), sep);
      Decompose(s, i);
    }
  }

  lemma Decompose(s: string, i: nat)
    requires i < |s|
    ensures s == s[..i] + [s[i]] + s[i + 1..]
  {
  }

  lemma JoinCons(x: string, rest: seq<string>, sep: char)
    requires |rest| >= 1
    ensures Join([x] + rest, sep) == x + [sep] + Join(rest, sep)
  {
    assert ([x] + rest)[1..] == rest;
  }

  /** Splitting a join of separator-free pieces gives back the pieces. */
  lemma {:induction false} SplitJoin(parts: seq<string>, sep: char)
    requires |parts| >= 1
    requires forall k :: 0 <= k < |parts| ==> sep !in parts[k]
    ensures Split(Join(parts, sep), sep) == parts
  {
    if |parts| > 1 {
      SplitJoin(parts[1..], sep);
      SplitCons(parts[0], Join(parts[1..], sep), sep);
      assert [parts[0]] + parts[1..] == parts;
    }
  }

  /** A separator-free piece followed by the separator is the first piece of the split. */
  lemma SplitCons(x: string, rest: string, sep: char)
    requires sep !in x
    ensures Split(x + [sep] + rest, sep) == [x] + Split(rest, sep)
  {
    var s := x + [sep] + rest;
    IndexOfAfter(x, rest, sep);
    assert s[..|x|] == x;
    assert s[|x| + 1..] == rest;
  }

  lemma IndexOfAfter(x: string, rest: string, sep: char)
    requires sep !in x
    ensures IndexOf(x + [sep] + rest, sep) == |x|
  {
    var s := x + [sep] + rest;
    assert s[|x|] == sep;
    forall k | 0 <= k < |x| ensures s[k] != sep {
      assert s[k] == x[k];
    }
  }
}
