/** The repository records of `src/repository.rs` and `load_file`, which reads a
    mirrored file and replaces every `{enc:P}` secret token by the decryption of `P`. */
module Repository {
  import opened Wrappers

  /** Rust's `u64`. */
  newtype u64 = x: int | 0 <= x < 0x1_0000_0000_0000_0000

  /** A user name and password allowed to read a repository through the HTTP API. */
  datatype Credential = Credential(user_name: string, password: string)

  /** A served git repository: where to clone it from, with which credentials,
      how often to refresh it, and who may read it (`None`: everyone). */
  datatype GitRepository = GitRepository(
    name: string,
    url: string,
    user_name: string,
    password: string,
    refresh_interval: u64,
    credentials: Option<seq<Credential>>)

  /** The decryption routine `load_file` calls: key and envelope to plaintext, or `None` when it fails. */
  type Decrypt = (string, string) -> Option<string>

  /** The literal that opens a secret token. */
  const Open: string := "{enc:"

  // ---------------------------------------------------------------------------
  // The regular expression `\{enc:.*?\}`

  /** First position at or after `j` holding `}` or a newline, or `|s|` when there is none. */
  function StopAt(s: string, j: nat): (k: nat)
    requires j <= |s|
    ensures j <= k <= |s|
    ensures k < |s| ==> s[k] == '}' || s[k] == '\n'
    ensures forall m :: j <= m < k ==> s[m] != '}' && s[m] != '\n'
    decreases |s| - j
  {
    if j == |s| || s[j] == '}' || s[j] == '\n' then j else StopAt(s, j + 1)
  }

  /** The end (exclusive) of the match of `\{enc:.*?\}` that starts at position `i`, if any.
      `.` excludes the newline and `*?` is lazy, so the match closes at the first `}`
      after the opening literal, and there is none when a newline comes first
      (lemma TokenAtExactly states the converse). */
  function TokenAt(s: string, i: nat): (e: Option<nat>)
    ensures e.Some? ==> i + 6 <= e.value <= |s|
  {
    if i + 5 <= |s| && s[i..i + 5] == Open then
      var k := StopAt(s, i + 5);
      if k < |s| && s[k] == '}' then Some(k + 1) else None
    else None
  }

  /** No newline in `s[from..to]`. */
  predicate NoNewline(s: string, from: nat, to: nat)
    requires from <= to <= |s|
  {
    forall m :: from <= m < to ==> s[m] != '\n'
  }

  /** A match starts at `i` exactly when the opening literal is there and some `}` follows
      it with no newline in between, which is what `\{enc:.*?\}` demands. */
  lemma TokenAtExactly(s: string, i: nat)
    ensures TokenAt(s, i).Some? <==> (i + 5 <= |s| && s[i..i + 5] == Open &&
                                     exists j :: i + 5 <= j < |s| && s[j] == '}' && NoNewline(s, i + 5, j))
  {
    if i + 5 <= |s| && s[i..i + 5] == Open {
      var k := StopAt(s, i + 5);
      if k < |s| && s[k] == '}' {
        assert NoNewline(s, i + 5, k);
      } else {
        forall j | i + 5 <= j < |s| && s[j] == '}' ensures !NoNewline(s, i + 5, j) {
          assert k <= j && s[k] == '\n';
        }
      }
    }
  }

  /** A match cannot span a newline: when a newline comes before any `}`, no match starts at `i`. */
  lemma TokenStopsAtNewline(s: string, i: nat, j: nat)
    requires i + 5 <= j < |s| && s[j] == '\n'
    requires forall m :: i + 5 <= m < j ==> s[m] != '}'
    ensures TokenAt(s, i).None?
  {
    if i + 5 <= |s| && s[i..i + 5] == Open {
      var k := StopAt(s, i + 5);
      assert k <= j;
    }
  }

  /** No match starts anywhere in `[from, to)`. */
  predicate NoTokenIn(s: string, from: nat, to: nat)
  {
    forall m :: from <= m < to ==> TokenAt(s, m).None?
  }

  /** The position of one match in the scanned text. */
  datatype Span = Span(start: nat, end: nat)

  /** The matches `captures_iter` yields when scanning `s` from `from`: the leftmost match
      first, then the search resumes where that match ended; no match starts in the gaps. */
  function Matches(s: string, from: nat): (spans: seq<Span>)
    requires from <= |s|
    ensures forall k :: 0 <= k < |spans| ==> from <= spans[k].start && TokenAt(s, spans[k].start) == Some(spans[k].end)
    ensures forall k :: 0 <= k < |spans| - 1 ==> spans[k].end <= spans[k + 1].start
    decreases |s| - from
  {
    if from == |s| then []
    else if TokenAt(s, from).None? then Matches(s, from + 1)
    else
      var e := TokenAt(s, from).value;
      [Span(from, e)] + Matches(s, e)
  }

  /** The scan misses nothing: no match starts before the first match, between two
      consecutive matches, or after the last one. */
  lemma MatchesAreLeftmost(s: string, from: nat)
    requires from <= |s|
    ensures var spans := Matches(s, from);
      (spans == [] ==> NoTokenIn(s, from, |s|)) &&
      (spans != [] ==> NoTokenIn(s, from, spans[0].start) && NoTokenIn(s, spans[|spans| - 1].end, |s|)) &&
      (forall k :: 0 <= k < |spans| - 1 ==> NoTokenIn(s, spans[k].end, spans[k + 1].start))
  {
    MatchesMissNothingBefore(s, from);
    MatchesMissNothingAfter(s, from);
    MatchesMissNothingBetween(s, from);
    assert Matches(s, from) != [] ==> LastEnd(Matches(s, from), from) == Matches(s, from)[|Matches(s, from)| - 1].end;
  }

  lemma {:induction false} MatchesMissNothingBefore(s: string, from: nat)
    requires from <= |s|
    ensures var spans := Matches(s, from);
      NoTokenIn(s, from, if spans == [] then |s| else spans[0].start)
    decreases |s| - from
  {
    if from < |s| && TokenAt(s, from).None? {
      MatchesMissNothingBefore(s, from + 1);
      var spans := Matches(s, from + 1);
      assert Matches(s, from) == spans;
      NoTokenInExtend(s, from, if spans == [] then |s| else spans[0].start);
    }
  }

  /** A stretch without a match grows by one position at the front that opens none. */
  lemma NoTokenInExtend(s: string, from: nat, to: nat)
    requires TokenAt(s, from).None? && NoTokenIn(s, from + 1, to)
    ensures NoTokenIn(s, from, to)
  {
  }

  lemma {:induction false} MatchesMissNothingAfter(s: string, from: nat)
    requires from <= |s|
    ensures NoTokenIn(s, LastEnd(Matches(s, from), from), |s|)
    decreases |s| - from
  {
    if from < |s| {
      if TokenAt(s, from).None? {
        MatchesMissNothingAfter(s, from + 1);
        AfterSkip(s, from);
      } else {
        MatchesMissNothingAfter(s, TokenAt(s, from).value);
        AfterToken(s, from);
      }
    }
  }

  lemma AfterSkip(s: string, from: nat)
    requires from < |s| && TokenAt(s, from).None?
    requires NoTokenIn(s, LastEnd(Matches(s, from + 1), from + 1), |s|)
    ensures NoTokenIn(s, LastEnd(Matches(s, from), from), |s|)
  {
    assert Matches(s, from) == Matches(s, from + 1);
  }

  lemma AfterToken(s: string, from: nat)
    requires from < |s| && TokenAt(s, from).Some?
    requires NoTokenIn(s, LastEnd(Matches(s, TokenAt(s, from).value), TokenAt(s, from).value), |s|)
    ensures NoTokenIn(s, LastEnd(Matches(s, from), from), |s|)
  {
    var e := TokenAt(s, from).value;
    MatchesAtToken(s, from);
    LastEndCons(Span(from, e), Matches(s, e), from);
  }

  /** Where the scan stands after the given matches: the end of the last one, or `start`. */
  function LastEnd(spans: seq<Span>, start: nat): nat
  {
    if spans == [] then start else spans[|spans| - 1].end
  }

  lemma LastEndCons(x: Span, rest: seq<Span>, start: nat)
    ensures LastEnd([x] + rest, start) == LastEnd(rest, x.end)
  {
    if rest != [] {
      assert ([x] + rest)[|rest|] == rest[|rest| - 1];
    }
  }

  lemma {:induction false} MatchesMissNothingBetween(s: string, from: nat)
    requires from <= |s|
    ensures GapsClear(s, Matches(s, from))
    decreases |s| - from
  {
    if from < |s| {
      if TokenAt(s, from).None? {
        MatchesMissNothingBetween(s, from + 1);
        assert Matches(s, from) == Matches(s, from + 1);
      } else {
        var e := TokenAt(s, from).value;
        MatchesAtToken(s, from);
        MatchesMissNothingBetween(s, e);
        MatchesMissNothingBefore(s, e);
        GapsClearCons(s, Span(from, e), Matches(s, e));
      }
    }
  }

  /** No match starts between two consecutive spans. */
  predicate GapsClear(s: string, spans: seq<Span>)
  {
    forall k :: 0 <= k < |spans| - 1 ==> NoTokenIn(s, spans[k].end, spans[k + 1].start)
  }

  lemma GapsClearCons(s: string, x: Span, rest: seq<Span>)
    requires GapsClear(s, rest)
    requires rest != [] ==> NoTokenIn(s, x.end, rest[0].start)
    ensures GapsClear(s, [x] + rest)
  {
    var spans := [x] + rest;
    forall k | 0 <= k < |spans| - 1 ensures NoTokenIn(s, spans[k].end, spans[k + 1].start) {
      if k > 0 {
        assert spans[k] == rest[k - 1] && spans[k + 1] == rest[k];
      }
    }
  }

  /** A token text: the opening literal, a payload with no `}` and no newline, and `}`. */
  predicate IsToken(t: string)
  {
    |t| >= 6 && t[..5] == Open && t[|t| - 1] == '}' &&
    forall m :: 5 <= m < |t| - 1 ==> t[m] != '}' && t[m] != '\n'
  }

  /** The texts of the given matches. */
  function Texts(s: string, spans: seq<Span>): (ts: seq<string>)
    requires forall k :: 0 <= k < |spans| ==> spans[k].start <= spans[k].end <= |s|
    ensures |ts| == |spans|
    ensures forall k :: 0 <= k < |spans| ==> ts[k] == s[spans[k].start..spans[k].end]
  {
    if spans == [] then [] else [s[spans[0].start..spans[0].end]] + Texts(s, spans[1..])
  }

  /** The token texts `load_file` iterates over: all matches in the original content, in order. */
  function Tokens(s: string): (ts: seq<string>)
    ensures forall k :: 0 <= k < |ts| ==> IsToken(ts[k])
  {
    var spans := Matches(s, 0);
    var ts := Texts(s, spans);
    assert forall k :: 0 <= k < |ts| ==> IsToken(ts[k]) by {
      forall k | 0 <= k < |ts| ensures IsToken(ts[k]) {
        MatchIsToken(s, spans[k].start);
      }
    }
    ts
  }

  /** The text of a match is a token. */
  lemma MatchIsToken(s: string, i: nat)
    requires TokenAt(s, i).Some?
    ensures IsToken(s[i..TokenAt(s, i).value])
  {
    var e := TokenAt(s, i).value;
    var k := StopAt(s, i + 5);
    assert e == k + 1 && s[k] == '}';
    var t := s[i..e];
    assert t[..5] == s[i..i + 5];
    forall m | 5 <= m < |t| - 1 ensures t[m] != '}' && t[m] != '\n' {
      assert t[m] == s[i + m];
    }
  }

  /** The text between the opening literal and the closing brace: `&cap[1][5..len - 1]`. */
  function Payload(t: string): string
    requires |t| >= 6
  {
    t[5..|t| - 1]
  }

  /** What a token is replaced by: its decryption, or the bare payload when decryption fails. */
  function Replacement(t: string, key: string, decrypt: Decrypt): string
    requires |t| >= 6
  {
    match decrypt(key, Payload(t))
    case Some(d) => d
    case None => Payload(t)
  }

  // ---------------------------------------------------------------------------
  // `str::replace`

  /** `pat` occurs in `s` at position `i`. */
  predicate OccursAt(s: string, pat: string, i: nat)
  {
    i + |pat| <= |s| && s[i..i + |pat|] == pat
  }

  /** `str::replace`: every non-overlapping occurrence of `pat`, scanned left to right, replaced by `rep`. */
  function ReplaceAll(s: string, pat: string, rep: string): string
    requires pat != []
  {
    ReplaceFrom(s, pat, rep, 0)
  }

  /** `str::replace` applied to the suffix of `s` that starts at `i`. */
  function ReplaceFrom(s: string, pat: string, rep: string, i: nat): string
    requires pat != [] && i <= |s|
    decreases |s| - i
  {
    if |s| - i < |pat| then s[i..]
    else if OccursAt(s, pat, i) then rep + ReplaceFrom(s, pat, rep, i + |pat|)
    else [s[i]] + ReplaceFrom(s, pat, rep, i + 1)
  }

  // ---------------------------------------------------------------------------
  // `load_file`

  /** The content after replacing, one after the other, each of `tokens` everywhere in it. */
  function ApplyAll(content: string, tokens: seq<string>, key: string, decrypt: Decrypt): string
    requires forall k :: 0 <= k < |tokens| ==> IsToken(tokens[k])
    decreases tokens
  {
    if tokens == [] then content
    else
      assert IsToken(tokens[0]);
      ApplyAll(ReplaceAll(content, tokens[0], Replacement(tokens[0], key, decrypt)), tokens[1..], key, decrypt)
  }

  /** What `load_file` returns for a file whose text is `content`. */
  function Substituted(content: string, key: string, decrypt: Decrypt): string
  {
    ApplyAll(content, Tokens(content), key, decrypt)
  }

  /** `load_file` once the path has been joined: `read` is the outcome of `fs::read_to_string`
      (`None` when the file cannot be read). Every token matched in the text as read is
      replaced, in match order, everywhere in the current content. */
  method LoadFile(read: Option<string>, key: string, decrypt: Decrypt) returns (loaded: Option<string>)
    ensures read.None? <==> loaded.None?
    ensures read.Some? ==> loaded == Some(Substituted(read.value, key, decrypt))
  {
    if read.None? {
      return None;
    }
    var content := read.value;
    var tokens := Tokens(content);
    var i := 0;
    while i < |tokens|
      invariant 0 <= i <= |tokens|
      invariant ApplyAll(content, tokens[i..], key, decrypt) == Substituted(read.value, key, decrypt)
    {
      var token := tokens[i];
      var enc := Payload(token);
      var dec := match decrypt(key, enc) case Some(d) => d case None => enc;
      assert tokens[i..][1..] == tokens[i + 1..];
      content := ReplaceAll(content, token, dec);
      i := i + 1;
    }
    return Some(content);
  }

  // ---------------------------------------------------------------------------
  // Properties of `str::replace`

  /** Text in which `pat` does not occur is returned unchanged. */
  lemma ReplaceAllAbsent(s: string, pat: string, rep: string)
    requires pat != []
    requires forall i :: 0 <= i <= |s| ==> !OccursAt(s, pat, i)
    ensures ReplaceAll(s, pat, rep) == s
  {
    ReplaceFromAbsent(s, pat, rep, 0);
  }

  lemma {:induction false} ReplaceFromAbsent(s: string, pat: string, rep: string, i: nat)
    requires pat != [] && i <= |s|
    requires forall j :: i <= j <= |s| ==> !OccursAt(s, pat, j)
    ensures ReplaceFrom(s, pat, rep, i) == s[i..]
    decreases |s| - i
  {
    if |s| - i >= |pat| {
      ReplaceFromAbsent(s, pat, rep, i + 1);
      assert [s[i]] + s[i + 1..] == s[i..];
    }
  }

  /** The text before the first occurrence of `pat` is kept, that occurrence becomes `rep`,
      and the text after it is rewritten the same way: with ReplaceAllAbsent this pins down
      `str::replace` completely. */
  lemma ReplaceAllFirst(s: string, pat: string, rep: string, i: nat)
    requires pat != []
    requires OccursAt(s, pat, i)
    requires forall j :: 0 <= j < i ==> !OccursAt(s, pat, j)
    ensures ReplaceAll(s, pat, rep) == s[..i] + rep + ReplaceFrom(s, pat, rep, i + |pat|)
  {
    ReplaceFromFirst(s, pat, rep, 0, i);
  }

  lemma {:induction false} ReplaceFromFirst(s: string, pat: string, rep: string, from: nat, i: nat)
    requires pat != [] && from <= i
    requires OccursAt(s, pat, i)
    requires forall j :: from <= j < i ==> !OccursAt(s, pat, j)
    ensures ReplaceFrom(s, pat, rep, from) == s[from..i] + rep + ReplaceFrom(s, pat, rep, i + |pat|)
    decreases i - from
  {
    if from < i {
      ReplaceFromFirst(s, pat, rep, from + 1, i);
      assert [s[from]] + s[from + 1..i] == s[from..i];
    }
  }

  // ---------------------------------------------------------------------------
  // Properties of `load_file`

  /** Content in which no match of `\{enc:.*?\}` starts is served unchanged. */
  lemma SubstitutedWithoutTokens(content: string, key: string, decrypt: Decrypt)
    requires NoTokenIn(content, 0, |content|)
    ensures Substituted(content, key, decrypt) == content
  {
  }

  /** Scanning skips a stretch in which no match starts. */
  lemma {:induction false} MatchesSkip(s: string, from: nat, to: nat)
    requires from <= to <= |s|
    requires NoTokenIn(s, from, to)
    ensures Matches(s, from) == Matches(s, to)
    decreases |s| - from
  {
    if from < to {
      MatchesSkip(s, from + 1, to);
    }
  }

  /** No match starts in a stretch without `{`. */
  lemma NoTokenWithoutBrace(s: string, from: nat, to: nat)
    requires from <= to <= |s|
    requires forall m :: from <= m < to ==> s[m] != '{'
    ensures NoTokenIn(s, from, to)
  {
    forall m | from <= m < to ensures TokenAt(s, m).None? {
      if m + 5 <= |s| {
        assert s[m..m + 5][0] == s[m] != Open[0];
      }
    }
  }

  /** A token around which no other match starts is the only match, and it is replaced by
      its decryption (or bare payload) while the surroundings are kept. The surroundings may
      hold `{`, as long as none of them opens a match. */
  lemma LoneTokenSubstituted(x: string, t: string, y: string, key: string, decrypt: Decrypt)
    requires IsToken(t)
    requires NoTokenIn(x + t + y, 0, |x|) && NoTokenIn(x + t + y, |x| + |t|, |x + t + y|)
    ensures Substituted(x + t + y, key, decrypt) == x + Replacement(t, key, decrypt) + y
  {
    PiecesOfThree(x, t, y);
    SingleMatchSubstituted(x + t + y, t, |x|, key, decrypt);
  }

  /** `s` holds the token `t` at `a`, and no other match starts before or after it. */
  predicate SingleMatch(s: string, t: string, a: nat)
  {
    IsToken(t) && a + |t| <= |s| && s[a..a + |t|] == t &&
    NoTokenIn(s, 0, a) && NoTokenIn(s, a + |t|, |s|)
  }

  /** Where the pieces of `x + t + y` sit. */
  lemma PiecesOfThree(x: string, t: string, y: string)
    ensures var s := x + t + y; s[|x|..|x| + |t|] == t && s[..|x|] == x && s[|x| + |t|..] == y
  {
  }

  lemma SingleMatchSubstituted(s: string, t: string, a: nat, key: string, decrypt: Decrypt)
    requires SingleMatch(s, t, a)
    ensures Substituted(s, key, decrypt) == s[..a] + Replacement(t, key, decrypt) + s[a + |t|..]
  {
    var rep := Replacement(t, key, decrypt);
    SingleMatchMatched(s, t, a);
    SingleMatchReplaced(s, t, rep, a);
    assert ApplyAll(s, [t], key, decrypt) == ReplaceAll(s, t, rep);
  }

  /** Replacing the single match where it stands gives the same text. */
  lemma SingleMatchPositional(s: string, t: string, a: nat, key: string, decrypt: Decrypt)
    requires SingleMatch(s, t, a)
    ensures Positional(s, 0, key, decrypt) == s[..a] + Replacement(t, key, decrypt) + s[a + |t|..]
  {
    TokenAtToken(s, t, a);
    PositionalAtFirstMatch(s, 0, a, a + |t|, key, decrypt);
    PositionalWithoutMatches(s, a + |t|, key, decrypt);
  }

  /** The token is the only match of the scan. */
  lemma SingleMatchMatched(s: string, t: string, a: nat)
    requires SingleMatch(s, t, a)
    ensures Tokens(s) == [t]
  {
    var b := a + |t|;
    TokenAtToken(s, t, a);
    OneMatch(s, a, b);
    assert Tokens(s) == Texts(s, [Span(a, b)]);
  }

  /** One match and nothing else around it. */
  lemma OneMatch(s: string, a: nat, b: nat)
    requires a <= b <= |s|
    requires NoTokenIn(s, 0, a) && NoTokenIn(s, b, |s|)
    requires a < |s| && TokenAt(s, a) == Some(b)
    ensures Matches(s, 0) == [Span(a, b)]
  {
    MatchesSkip(s, 0, a);
    MatchesAtToken(s, a);
    MatchesSkip(s, b, |s|);
  }

  /** `str::replace` rewrites the token and keeps everything else. */
  lemma SingleMatchReplaced(s: string, t: string, rep: string, a: nat)
    requires SingleMatch(s, t, a)
    ensures ReplaceAll(s, t, rep) == s[..a] + rep + s[a + |t|..]
  {
    var b := a + |t|;
    NotOccursWithoutMatch(s, t, 0, a);
    ReplaceAllFirst(s, t, rep, a);
    NotOccursWithoutMatch(s, t, b, |s|);
    TailReplacedUnchanged(s, t, rep, b);
  }

  /** Wherever a token occurs, the scan matches it. */
  lemma OccurrenceIsMatch(s: string, t: string, j: nat)
    requires IsToken(t)
    ensures OccursAt(s, t, j) ==> TokenAt(s, j) == Some(j + |t|)
  {
    if OccursAt(s, t, j) {
      TokenAtToken(s, t, j);
    }
  }

  /** A token does not occur where no match starts. */
  lemma NotOccursWithoutMatch(s: string, t: string, from: nat, to: nat)
    requires IsToken(t) && NoTokenIn(s, from, to)
    ensures forall j :: from <= j < to ==> !OccursAt(s, t, j)
  {
    forall j | from <= j < to ensures !OccursAt(s, t, j) {
      OccurrenceIsMatch(s, t, j);
    }
  }

  /** A well-formed token whose payload decrypts is replaced by the plaintext. */
  lemma DecryptedTokenReplaced(x: string, payload: string, y: string, key: string, decrypt: Decrypt, plain: string)
    requires '}' !in payload && '\n' !in payload
    requires var s := x + Open + payload + "}" + y;
      NoTokenIn(s, 0, |x|) && NoTokenIn(s, |x| + |payload| + 6, |s|)
    requires decrypt(key, payload) == Some(plain)
    ensures Substituted(x + Open + payload + "}" + y, key, decrypt) == x + plain + y
  {
    var t := Open + payload + "}";
    TokenShape(payload);
    assert x + Open + payload + "}" + y == x + t + y;
    LoneTokenSubstituted(x, t, y, key, decrypt);
  }

  /** A token whose payload does not decrypt is replaced by the bare payload, not kept. */
  lemma FailedTokenBecomesPayload(x: string, payload: string, y: string, key: string, decrypt: Decrypt)
    requires '}' !in payload && '\n' !in payload
    requires var s := x + Open + payload + "}" + y;
      NoTokenIn(s, 0, |x|) && NoTokenIn(s, |x| + |payload| + 6, |s|)
    requires decrypt(key, payload).None?
    ensures Substituted(x + Open + payload + "}" + y, key, decrypt) == x + payload + y
  {
    var t := Open + payload + "}";
    TokenShape(payload);
    assert x + Open + payload + "}" + y == x + t + y;
    LoneTokenSubstituted(x, t, y, key, decrypt);
  }

  /** `{enc:` + payload + `}` is a token, and its payload is the one put in. */
  lemma TokenShape(payload: string)
    requires '}' !in payload && '\n' !in payload
    ensures IsToken(Open + payload + "}") && Payload(Open + payload + "}") == payload
  {
    var t := Open + payload + "}";
    assert t[..5] == Open;
    forall m | 5 <= m < |t| - 1 ensures t[m] != '}' && t[m] != '\n' {
      assert t[m] == payload[m - 5];
    }
    assert t[5..|t| - 1] == payload;
  }

  /** The replacement is final: whatever the plaintext holds, even token syntax, is not scanned again. */
  lemma SubstitutionNotRescanned(t: string, key: string, decrypt: Decrypt, plain: string)
    requires IsToken(t)
    requires decrypt(key, Payload(t)) == Some(plain)
    ensures Substituted(t, key, decrypt) == plain
  {
    assert t[0..|t|] == t;
    SingleMatchSubstituted(t, t, 0, key, decrypt);
    assert t[..0] == [] && t[|t|..] == [];
  }

  /** `str::replace` rewrites every occurrence: a token that appears twice is replaced at both places. */
  lemma RepeatedTokenSubstituted(x: string, t: string, y: string, z: string, key: string, decrypt: Decrypt)
    requires IsToken(t)
    requires '{' !in x && '{' !in y && '{' !in z && '{' !in Replacement(t, key, decrypt)
    ensures var rep := Replacement(t, key, decrypt);
      Substituted(x + t + y + t + z, key, decrypt) == x + rep + y + rep + z
  {
    PiecesOfFive(x, t, y, z);
    FiveSubstituted(x + t + y + t + z, t, x, y, z, |x|, |x| + |t| + |y|, key, decrypt);
  }

  lemma FiveSubstituted(s: string, t: string, x: string, y: string, z: string, a: nat, c: nat, key: string, decrypt: Decrypt)
    requires TwoCopies(s, t, a, c) && s[..a] == x && s[a + |t|..c] == y && s[c + |t|..] == z
    requires '{' !in Replacement(t, key, decrypt)
    ensures var rep := Replacement(t, key, decrypt);
      Substituted(s, key, decrypt) == x + rep + y + rep + z
  {
    TwoCopiesSubstituted(s, t, a, c, key, decrypt);
  }

  lemma TwoCopiesSubstituted(s: string, t: string, a: nat, c: nat, key: string, decrypt: Decrypt)
    requires TwoCopies(s, t, a, c)
    requires '{' !in Replacement(t, key, decrypt)
    ensures var rep := Replacement(t, key, decrypt);
      Substituted(s, key, decrypt) == s[..a] + rep + s[a + |t|..c] + rep + s[c + |t|..]
  {
    var rep := Replacement(t, key, decrypt);
    TwoCopiesMatched(s, t, a, c);
    TwoCopiesReplaced(s, t, rep, a, c);
    var r := ReplaceAll(s, t, rep);
    assert '{' !in r by {
      BraceFreeConcat(s[..a], rep, s[a + |t|..c], s[c + |t|..]);
    }
    NoBraceUnchanged(r, t, rep);
    assert ApplyAll(s, [t, t], key, decrypt) == ApplyAll(r, [t], key, decrypt);
  }

  lemma BraceFreeConcat(x: string, r: string, y: string, z: string)
    requires '{' !in x && '{' !in r && '{' !in y && '{' !in z
    ensures '{' !in x + r + y + r + z
  {
  }

  /** A token does not occur in a text without `{`, so replacing it changes nothing. */
  lemma NoBraceUnchanged(r: string, t: string, rep: string)
    requires IsToken(t) && '{' !in r
    ensures ReplaceAll(r, t, rep) == r
  {
    NotOccursWithoutBrace(r, t, 0, |r|);
    assert !OccursAt(r, t, |r|);
    ReplaceAllAbsent(r, t, rep);
  }

  /** No `{` in `s` between `from` and `to`. */
  predicate BraceFree(s: string, from: nat, to: nat)
    requires from <= to <= |s|
  {
    forall m :: from <= m < to ==> s[m] != '{'
  }

  /** `s` holds the token `t` at `a` and at `c`, and no `{` anywhere else. */
  predicate TwoCopies(s: string, t: string, a: nat, c: nat)
  {
    IsToken(t) && a + |t| <= c && c + |t| <= |s| &&
    s[a..a + |t|] == t && s[c..c + |t|] == t &&
    BraceFree(s, 0, a) && BraceFree(s, a + |t|, c) && BraceFree(s, c + |t|, |s|)
  }

  /** Where the pieces of `x + t + y + t + z` sit. */
  lemma PiecesOfFive(x: string, t: string, y: string, z: string)
    requires IsToken(t)
    requires '{' !in x && '{' !in y && '{' !in z
    ensures var s, a, c := x + t + y + t + z, |x|, |x| + |t| + |y|;
      TwoCopies(s, t, a, c) && s[..a] == x && s[a + |t|..c] == y && s[c + |t|..] == z
  {
    var s, a, b := x + t + y + t + z, |x|, |x| + |t|;
    var c, d := b + |y|, b + |y| + |t|;
    assert s[a..b] == t && s[c..d] == t;
    forall m | 0 <= m < a ensures s[m] != '{' { assert s[m] == x[m]; }
    forall m | b <= m < c ensures s[m] != '{' { assert s[m] == y[m - b]; }
    forall m | d <= m < |s| ensures s[m] != '{' { assert s[m] == z[m - d]; }
  }

  /** The two copies are the two matches of the scan. */
  lemma TwoCopiesMatched(s: string, t: string, a: nat, c: nat)
    requires TwoCopies(s, t, a, c)
    ensures Tokens(s) == [t, t]
  {
    TwoCopiesSpans(s, t, a, c);
    var ts := Tokens(s);
    assert |ts| == 2 && ts[0] == s[a..a + |t|] && ts[1] == s[c..c + |t|];
  }

  lemma TwoCopiesSpans(s: string, t: string, a: nat, c: nat)
    requires TwoCopies(s, t, a, c)
    ensures Matches(s, 0) == [Span(a, a + |t|), Span(c, c + |t|)]
  {
    var b, d := a + |t|, c + |t|;
    NoTokenWithoutBrace(s, 0, a);
    NoTokenWithoutBrace(s, b, c);
    NoTokenWithoutBrace(s, d, |s|);
    TokenAtToken(s, t, a);
    TokenAtToken(s, t, c);
    TwoMatches(s, a, b, c, d);
  }

  /** Two matches and nothing else between or around them. */
  lemma TwoMatches(s: string, a: nat, b: nat, c: nat, d: nat)
    requires a <= b <= c <= d <= |s|
    requires NoTokenIn(s, 0, a) && NoTokenIn(s, b, c) && NoTokenIn(s, d, |s|)
    requires a < |s| && TokenAt(s, a) == Some(b) && c < |s| && TokenAt(s, c) == Some(d)
    ensures Matches(s, 0) == [Span(a, b), Span(c, d)]
  {
    MatchesSkip(s, 0, a);
    MatchesAtToken(s, a);
    MatchesSkip(s, b, c);
    MatchesAtToken(s, c);
    MatchesSkip(s, d, |s|);
  }

  /** `str::replace` rewrites both copies and keeps everything else. */
  lemma TwoCopiesReplaced(s: string, t: string, rep: string, a: nat, c: nat)
    requires TwoCopies(s, t, a, c)
    ensures ReplaceAll(s, t, rep) == s[..a] + rep + s[a + |t|..c] + rep + s[c + |t|..]
  {
    NotOccursWithoutBrace(s, t, 0, a);
    NotOccursWithoutBrace(s, t, a + |t|, c);
    NotOccursWithoutBrace(s, t, c + |t|, |s|);
    TwoOccurrencesReplaced(s, t, rep, a, c);
  }

  /** `pat`, which opens with `{`, does not occur where there is no `{`. */
  lemma NotOccursWithoutBrace(s: string, pat: string, from: nat, to: nat)
    requires |pat| >= 1 && pat[0] == '{' && from <= to <= |s|
    requires forall m :: from <= m < to ==> s[m] != '{'
    ensures forall j :: from <= j < to ==> !OccursAt(s, pat, j)
  {
    forall j | from <= j < to ensures !OccursAt(s, pat, j) {
      if j + |pat| <= |s| {
        assert s[j..j + |pat|][0] == s[j];
      }
    }
  }

  /** `pat` occurs nowhere in `[from, to)`. */
  predicate Absent(s: string, pat: string, from: nat, to: nat)
  {
    forall j :: from <= j < to ==> !OccursAt(s, pat, j)
  }

  /** `str::replace` on a text with exactly two occurrences of `pat`. */
  lemma TwoOccurrencesReplaced(s: string, pat: string, rep: string, a: nat, c: nat)
    requires pat != [] && a + |pat| <= c
    requires OccursAt(s, pat, a) && OccursAt(s, pat, c)
    requires Absent(s, pat, 0, a) && Absent(s, pat, a + |pat|, c) && Absent(s, pat, c + |pat|, |s|)
    ensures ReplaceAll(s, pat, rep) == s[..a] + rep + s[a + |pat|..c] + rep + s[c + |pat|..]
  {
    var b := a + |pat|;
    ReplaceAllFirst(s, pat, rep, a);
    LastOccurrenceReplaced(s, pat, rep, b, c);
    JoinReplaced(ReplaceAll(s, pat, rep), ReplaceFrom(s, pat, rep, b), s[..a], rep, s[b..c], s[c + |pat|..]);
  }

  lemma JoinReplaced(all: string, tail: string, x: string, r: string, y: string, z: string)
    requires all == x + r + tail && tail == y + r + z
    ensures all == x + r + y + r + z
  {
  }

  /** From `from`, the only occurrence of `pat` is at `c`. */
  lemma LastOccurrenceReplaced(s: string, pat: string, rep: string, from: nat, c: nat)
    requires pat != [] && from <= c
    requires OccursAt(s, pat, c)
    requires forall j :: from <= j < c ==> !OccursAt(s, pat, j)
    requires forall j :: c + |pat| <= j < |s| ==> !OccursAt(s, pat, j)
    ensures ReplaceFrom(s, pat, rep, from) == s[from..c] + rep + s[c + |pat|..]
  {
    ReplaceFromFirst(s, pat, rep, from, c);
    TailReplacedUnchanged(s, pat, rep, c + |pat|);
  }

  lemma TailReplacedUnchanged(s: string, pat: string, rep: string, d: nat)
    requires pat != [] && d <= |s|
    requires forall j :: d <= j < |s| ==> !OccursAt(s, pat, j)
    ensures ReplaceFrom(s, pat, rep, d) == s[d..]
  {
    assert !OccursAt(s, pat, |s|);
    ReplaceFromAbsent(s, pat, rep, d);
  }

  /** A match found at `a` is the first one reported, and the scan resumes at its end. */
  lemma MatchesAtToken(s: string, a: nat)
    requires a < |s| && TokenAt(s, a).Some?
    ensures Matches(s, a) == [Span(a, TokenAt(s, a).value)] + Matches(s, TokenAt(s, a).value)
  {
  }

  /** Where a token's text stands, the scan matches exactly that text. */
  lemma TokenAtToken(s: string, t: string, a: nat)
    requires IsToken(t)
    requires a + |t| <= |s| && s[a..a + |t|] == t
    ensures TokenAt(s, a) == Some(a + |t|)
  {
    var b := a + |t|;
    assert s[a..a + 5] == t[..5];
    var k := StopAt(s, a + 5);
    assert s[b - 1] == t[|t| - 1];
    forall m | a + 5 <= m < b - 1 ensures s[m] != '}' && s[m] != '\n' {
      assert s[m] == t[m - a];
    }
    assert k == b - 1;
  }

  // ---------------------------------------------------------------------------
  // Properties of the helpers

  /** A token is `{enc:`, its payload and `}`; the payload holds no `}` and no newline. */
  lemma PayloadBetweenDelimiters(t: string)
    requires IsToken(t)
    ensures t == Open + Payload(t) + "}"
    ensures '}' !in Payload(t) && '\n' !in Payload(t)
  {
    var p := Payload(t);
    assert t[..5] == Open && t[5..|t| - 1] == p && t[|t| - 1..] == "}";
    assert t == t[..5] + t[5..|t| - 1] + t[|t| - 1..];
    forall m | 0 <= m < |p| ensures p[m] != '}' && p[m] != '\n' {
      assert p[m] == t[m + 5];
    }
  }

  /** `unwrap_or(enc)`: a payload that fails to decrypt stands for itself, one that decrypts
      is replaced by its decryption, and a token built from a payload gives that payload back. */
  lemma ReplacementOfPayload(payload: string, key: string, decrypt: Decrypt)
    requires '}' !in payload && '\n' !in payload
    ensures IsToken(Open + payload + "}")
    ensures decrypt(key, payload).None? ==> Replacement(Open + payload + "}", key, decrypt) == payload
    ensures decrypt(key, payload).Some? ==>
      Replacement(Open + payload + "}", key, decrypt) == decrypt(key, payload).value
  {
    TokenShape(payload);
  }

  /** `replace` copies unchanged every position at which the pattern does not occur. */
  lemma {:induction false} ReplaceFromSkip(s: string, pat: string, rep: string, i: nat, j: nat)
    requires pat != [] && i <= j <= |s|
    requires forall m :: i <= m < j ==> !OccursAt(s, pat, m)
    ensures ReplaceFrom(s, pat, rep, i) == s[i..j] + ReplaceFrom(s, pat, rep, j)
    decreases j - i
  {
    if i == j {
      assert s[i..j] == [];
    } else if |s| - i < |pat| {
      assert s[i..] == s[i..j] + s[j..];
    } else {
      ReplaceFromSkip(s, pat, rep, i + 1, j);
      assert s[i..j] == [s[i]] + s[i + 1..j];
    }
  }

  // ---------------------------------------------------------------------------
  // Position by position: each match replaced where it stands

  /** Each match of the content from `from` on replaced by its own replacement at its own
      position, the text between matches kept, and nothing rescanned: the result of
      substituting at the match positions themselves. */
  function Positional(s: string, from: nat, key: string, decrypt: Decrypt): string
    requires from <= |s|
    decreases |s| - from
  {
    if from == |s| then ""
    else if TokenAt(s, from).None? then [s[from]] + Positional(s, from + 1, key, decrypt)
    else
      var e := TokenAt(s, from).value;
      Replacement(s[from..e], key, decrypt) + Positional(s, e, key, decrypt)
  }

  /** Content with no match from `from` on is kept as it is. */
  lemma {:induction false} PositionalWithoutMatches(s: string, from: nat, key: string, decrypt: Decrypt)
    requires from <= |s| && NoTokenIn(s, from, |s|)
    ensures Positional(s, from, key, decrypt) == s[from..]
    decreases |s| - from
  {
    if from < |s| {
      PositionalWithoutMatches(s, from + 1, key, decrypt);
      assert s[from..] == [s[from]] + s[from + 1..];
    }
  }

  /** The positional substitution sees its first match at `a`: the text before it is kept,
      the match becomes its replacement, and the rest is substituted independently. */
  lemma PositionalAtFirstMatch(s: string, from: nat, a: nat, e: nat, key: string, decrypt: Decrypt)
    requires from <= a <= |s| && NoTokenIn(s, from, a) && TokenAt(s, a) == Some(e)
    ensures Positional(s, from, key, decrypt) ==
      s[from..a] + Replacement(s[a..e], key, decrypt) + Positional(s, e, key, decrypt)
  {
    PositionalSkipsTo(s, from, a, key, decrypt);
    PositionalMatch(s, a, key, decrypt);
  }

  /** Text with no match is copied as it is. */
  lemma {:induction false} PositionalSkipsTo(s: string, from: nat, a: nat, key: string, decrypt: Decrypt)
    requires from <= a <= |s| && NoTokenIn(s, from, a)
    ensures Positional(s, from, key, decrypt) == s[from..a] + Positional(s, a, key, decrypt)
    decreases a - from
  {
    if from == a {
      assert s[from..a] == [];
    } else {
      assert TokenAt(s, from).None?;
      PositionalSkip(s, from, key, decrypt);
      PositionalSkipsTo(s, from + 1, a, key, decrypt);
      Prepend(s, from, a, Positional(s, a, key, decrypt));
    }
  }

  lemma PositionalSkip(s: string, from: nat, key: string, decrypt: Decrypt)
    requires from < |s| && TokenAt(s, from).None?
    ensures Positional(s, from, key, decrypt) == [s[from]] + Positional(s, from + 1, key, decrypt)
  {
  }

  lemma PositionalMatch(s: string, a: nat, key: string, decrypt: Decrypt)
    requires a < |s| && TokenAt(s, a).Some?
    ensures var e := TokenAt(s, a).value;
      Positional(s, a, key, decrypt) == Replacement(s[a..e], key, decrypt) + Positional(s, e, key, decrypt)
  {
  }

  lemma Prepend(s: string, from: nat, a: nat, r: string)
    requires from < a <= |s|
    ensures [s[from]] + (s[from + 1..a] + r) == s[from..a] + r
  {
    assert s[from..a] == [s[from]] + s[from + 1..a];
  }

  /** A stretch of content as the scan sees it: one character outside any match, or the text of one match. */
  datatype Piece = Lit(text: string) | Tok(text: string)

  /** The content the pieces make up. */
  function Render(ps: seq<Piece>): string
  {
    if ps == [] then "" else ps[0].text + Render(ps[1..])
  }

  /** The content from `from` on, cut at the matches of the scan. */
  function Pieces(s: string, from: nat): (ps: seq<Piece>)
    requires from <= |s|
    ensures Render(ps) == s[from..]
    decreases |s| - from
  {
    if from == |s| then []
    else if TokenAt(s, from).None? then
      var rest := Pieces(s, from + 1);
      assert ([Lit([s[from]])] + rest)[1..] == rest;
      [Lit([s[from]])] + rest
    else
      var e := TokenAt(s, from).value;
      var rest := Pieces(s, e);
      assert ([Tok(s[from..e])] + rest)[1..] == rest;
      assert s[from..] == s[from..e] + s[e..];
      [Tok(s[from..e])] + rest
  }

  /** The only `{` of a piece, if any, opens a token. */
  predicate PieceOk(p: Piece)
  {
    match p
    case Lit(x) => '{' !in x
    case Tok(t) => IsToken(t) && '{' !in t[1..]
  }

  predicate PiecesOk(ps: seq<Piece>)
  {
    forall i :: 0 <= i < |ps| ==> PieceOk(ps[i])
  }

  /** Every `{` of `s` opens a match: there is none between the matches and none inside a payload. */
  predicate BracesOpenMatches(s: string)
  {
    PiecesOk(Pieces(s, 0))
  }

  /** The texts of the token pieces, in order. */
  function TokTexts(ps: seq<Piece>): seq<string>
  {
    if ps == [] then [] else (if ps[0].Tok? then [ps[0].text] else []) + TokTexts(ps[1..])
  }

  /** The pieces rendered with every token replaced by its own replacement. */
  function RenderDecrypted(ps: seq<Piece>, key: string, decrypt: Decrypt): string
    requires PiecesOk(ps)
  {
    if ps == [] then ""
    else
      assert PieceOk(ps[0]);
      (match ps[0] case Lit(x) => x case Tok(t) => Replacement(t, key, decrypt))
        + RenderDecrypted(ps[1..], key, decrypt)
  }

  /** One token `t` in the pieces replaced by `rep`. */
  function SubstPiece(p: Piece, t: string, rep: string): Piece
  {
    if p == Tok(t) then Lit(rep) else p
  }

  function Subst(ps: seq<Piece>, t: string, rep: string): (qs: seq<Piece>)
    ensures |qs| == |ps|
    ensures forall i :: 0 <= i < |ps| ==> qs[i] == SubstPiece(ps[i], t, rep)
  {
    if ps == [] then [] else [SubstPiece(ps[0], t, rep)] + Subst(ps[1..], t, rep)
  }

  /** A piece after each of `ts`, one after the other, has been replaced in it. */
  function SubstAllPiece(p: Piece, ts: seq<string>, key: string, decrypt: Decrypt): Piece
    requires forall k :: 0 <= k < |ts| ==> IsToken(ts[k])
    decreases ts
  {
    if ts == [] then p
    else
      assert IsToken(ts[0]);
      SubstAllPiece(SubstPiece(p, ts[0], Replacement(ts[0], key, decrypt)), ts[1..], key, decrypt)
  }

  /** The pieces after each of `ts`, one after the other, has been replaced in them. */
  function SubstAll(ps: seq<Piece>, ts: seq<string>, key: string, decrypt: Decrypt): (qs: seq<Piece>)
    requires forall k :: 0 <= k < |ts| ==> IsToken(ts[k])
    ensures |qs| == |ps|
    ensures forall i :: 0 <= i < |ps| ==> qs[i] == SubstAllPiece(ps[i], ts, key, decrypt)
    decreases ts
  {
    if ts == [] then ps
    else
      assert IsToken(ts[0]);
      SubstAll(Subst(ps, ts[0], Replacement(ts[0], key, decrypt)), ts[1..], key, decrypt)
  }

  lemma RenderCons(p: Piece, rest: seq<Piece>)
    ensures Render([p] + rest) == p.text + Render(rest)
  {
    assert ([p] + rest)[1..] == rest;
  }

  /** The pieces of the content at `off` lay out the content from there. */
  lemma RenderFirst(s: string, ps: seq<Piece>, off: nat)
    requires off <= |s| && s[off..] == Render(ps) && ps != []
    ensures off + |ps[0].text| <= |s| && s[off..off + |ps[0].text|] == ps[0].text
    ensures s[off + |ps[0].text|..] == Render(ps[1..])
  {
    var n := |ps[0].text|;
    assert s[off..] == ps[0].text + Render(ps[1..]);
    assert s[off..][..n] == s[off..off + n];
    assert s[off..][n..] == s[off + n..];
  }

  /** Two tokens found at the same position are the same token. */
  lemma SameStartSameToken(s: string, t: string, u: string, a: nat)
    requires IsToken(t) && OccursAt(s, t, a)
    requires IsToken(u) && OccursAt(s, u, a)
    ensures t == u
  {
    TokenAtToken(s, t, a);
    TokenAtToken(s, u, a);
  }

  /** A token occurs in a well-formed piece only as that piece. */
  lemma NoOccurrenceInPiece(s: string, p: Piece, off: nat, t: string)
    requires PieceOk(p) && p != Tok(t) && IsToken(t)
    requires off + |p.text| <= |s| && s[off..off + |p.text|] == p.text
    ensures forall m :: off <= m < off + |p.text| ==> !OccursAt(s, t, m)
  {
    forall m | off <= m < off + |p.text| ensures !OccursAt(s, t, m) {
      if OccursAt(s, t, m) {
        assert s[m] == t[0] == '{';
        assert s[m] == p.text[m - off];
        if p.Tok? && m == off {
          SameStartSameToken(s, t, p.text, off);
        }
      }
    }
  }

  /** `replace` of one token over well-formed pieces replaces exactly the pieces that are that token. */
  lemma {:induction false} ReplaceOverPieces(s: string, ps: seq<Piece>, off: nat, t: string, rep: string)
    requires IsToken(t) && off <= |s| && s[off..] == Render(ps) && PiecesOk(ps)
    ensures ReplaceFrom(s, t, rep, off) == Render(Subst(ps, t, rep))
    decreases ps, 1
  {
    if ps == [] {
      ReplaceAtEnd(s, off, t, rep);
    } else {
      ReplaceOverNonEmpty(s, ps, off, t, rep);
    }
  }

  lemma {:induction false} ReplaceOverNonEmpty(s: string, ps: seq<Piece>, off: nat, t: string, rep: string)
    requires IsToken(t) && off <= |s| && s[off..] == Render(ps) && PiecesOk(ps) && ps != []
    ensures ReplaceFrom(s, t, rep, off) == Render(Subst(ps, t, rep))
    decreases ps, 0
  {
    RenderFirst(s, ps, off);
    PiecesOkTail(ps);
    ReplaceOverPieces(s, ps[1..], off + |ps[0].text|, t, rep);
    ReplaceOverFirstPiece(s, ps, off, t, rep);
  }

  lemma ReplaceAtEnd(s: string, off: nat, t: string, rep: string)
    requires t != [] && off <= |s| && s[off..] == Render([])
    ensures ReplaceFrom(s, t, rep, off) == Render(Subst([], t, rep))
  {
    assert off == |s|;
  }

  /** The step of `ReplaceOverPieces`: the first piece, then the rest. */
  lemma ReplaceOverFirstPiece(s: string, ps: seq<Piece>, off: nat, t: string, rep: string)
    requires IsToken(t) && ps != [] && PieceOk(ps[0])
    requires off + |ps[0].text| <= |s| && s[off..off + |ps[0].text|] == ps[0].text
    requires ReplaceFrom(s, t, rep, off + |ps[0].text|) == Render(Subst(ps[1..], t, rep))
    ensures ReplaceFrom(s, t, rep, off) == Render(Subst(ps, t, rep))
  {
    ReplaceFirstPiece(s, ps[0], off, t, rep);
    RenderSubstCons(ps, t, rep);
  }

  lemma RenderSubstCons(ps: seq<Piece>, t: string, rep: string)
    requires ps != []
    ensures Render(Subst(ps, t, rep)) == SubstPiece(ps[0], t, rep).text + Render(Subst(ps[1..], t, rep))
  {
    assert Subst(ps, t, rep) == [SubstPiece(ps[0], t, rep)] + Subst(ps[1..], t, rep);
    RenderCons(SubstPiece(ps[0], t, rep), Subst(ps[1..], t, rep));
  }

  /** `replace` turns the first of the pieces into its substitute and goes on after it. */
  lemma ReplaceFirstPiece(s: string, p: Piece, off: nat, t: string, rep: string)
    requires IsToken(t) && PieceOk(p)
    requires off + |p.text| <= |s| && s[off..off + |p.text|] == p.text
    ensures ReplaceFrom(s, t, rep, off) == SubstPiece(p, t, rep).text + ReplaceFrom(s, t, rep, off + |p.text|)
  {
    if p == Tok(t) {
      ReplaceAtToken(s, off, t, rep);
    } else {
      ReplaceAcrossPiece(s, p, off, t, rep);
    }
  }

  lemma ReplaceAtToken(s: string, off: nat, t: string, rep: string)
    requires t != [] && off + |t| <= |s| && s[off..off + |t|] == t
    ensures ReplaceFrom(s, t, rep, off) == rep + ReplaceFrom(s, t, rep, off + |t|)
  {
    assert OccursAt(s, t, off);
  }

  lemma ReplaceAcrossPiece(s: string, p: Piece, off: nat, t: string, rep: string)
    requires IsToken(t) && PieceOk(p) && p != Tok(t)
    requires off + |p.text| <= |s| && s[off..off + |p.text|] == p.text
    ensures ReplaceFrom(s, t, rep, off) == p.text + ReplaceFrom(s, t, rep, off + |p.text|)
  {
    NoOccurrenceInPiece(s, p, off, t);
    ReplaceFromSkip(s, t, rep, off, off + |p.text|);
  }

  /** A replacement without `{` keeps the pieces well formed. */
  lemma SubstKeepsOk(ps: seq<Piece>, t: string, rep: string)
    requires PiecesOk(ps) && '{' !in rep
    ensures PiecesOk(Subst(ps, t, rep))
  {
    var qs := Subst(ps, t, rep);
    forall i | 0 <= i < |qs| ensures PieceOk(qs[i]) {
      assert PieceOk(ps[i]);
    }
  }

  /** The replacements done one token after the other act on the pieces. */
  lemma {:induction false} ApplyOverPieces(ps: seq<Piece>, ts: seq<string>, key: string, decrypt: Decrypt)
    requires PiecesOk(ps)
    requires forall k :: 0 <= k < |ts| ==> IsToken(ts[k]) && '{' !in Replacement(ts[k], key, decrypt)
    ensures ApplyAll(Render(ps), ts, key, decrypt) == Render(SubstAll(ps, ts, key, decrypt))
    decreases ts
  {
    if ts != [] {
      var t := ts[0];
      var rep := Replacement(t, key, decrypt);
      var s := Render(ps);
      assert IsToken(t) && '{' !in rep;
      assert s[0..] == s;
      ReplaceOverPieces(s, ps, 0, t, rep);
      SubstKeepsOk(ps, t, rep);
      ApplyOverPieces(Subst(ps, t, rep), ts[1..], key, decrypt);
    }
  }

  /** The scan's token texts are the texts of the token pieces. */
  lemma {:induction false} TokensArePieces(s: string, from: nat)
    requires from <= |s|
    ensures Texts(s, Matches(s, from)) == TokTexts(Pieces(s, from))
    decreases |s| - from
  {
    if from < |s| {
      if TokenAt(s, from).None? {
        TokensArePieces(s, from + 1);
        TextsSkip(s, from);
        TokTextsSkip(s, from);
      } else {
        TokensArePieces(s, TokenAt(s, from).value);
        TextsAtToken(s, from);
        TokTextsAtToken(s, from);
      }
    }
  }

  lemma TextsSkip(s: string, from: nat)
    requires from < |s| && TokenAt(s, from).None?
    ensures Texts(s, Matches(s, from)) == Texts(s, Matches(s, from + 1))
  {
  }

  lemma TokTextsSkip(s: string, from: nat)
    requires from < |s| && TokenAt(s, from).None?
    ensures TokTexts(Pieces(s, from)) == TokTexts(Pieces(s, from + 1))
  {
    assert Pieces(s, from)[1..] == Pieces(s, from + 1);
  }

  lemma TextsAtToken(s: string, from: nat)
    requires from < |s| && TokenAt(s, from).Some?
    ensures var e := TokenAt(s, from).value;
      Texts(s, Matches(s, from)) == [s[from..e]] + Texts(s, Matches(s, e))
  {
    var spans := Matches(s, TokenAt(s, from).value);
    assert ([Span(from, TokenAt(s, from).value)] + spans)[1..] == spans;
  }

  lemma TokTextsAtToken(s: string, from: nat)
    requires from < |s| && TokenAt(s, from).Some?
    ensures var e := TokenAt(s, from).value;
      TokTexts(Pieces(s, from)) == [s[from..e]] + TokTexts(Pieces(s, e))
  {
    assert Pieces(s, from)[1..] == Pieces(s, TokenAt(s, from).value);
  }

  /** The pieces of well-formed content from `from` on are well formed from `from + 1` or a match end on. */
  lemma PiecesOkTail(ps: seq<Piece>)
    requires PiecesOk(ps) && ps != []
    ensures PieceOk(ps[0]) && PiecesOk(ps[1..])
  {
  }

  /** The positional substitution renders the pieces with each token decrypted. */
  lemma {:induction false} PositionalIsDecrypted(s: string, from: nat, key: string, decrypt: Decrypt)
    requires from <= |s| && PiecesOk(Pieces(s, from))
    ensures Positional(s, from, key, decrypt) == RenderDecrypted(Pieces(s, from), key, decrypt)
    decreases |s| - from
  {
    if from < |s| {
      var ps := Pieces(s, from);
      PiecesOkTail(ps);
      if TokenAt(s, from).None? {
        assert ps[1..] == Pieces(s, from + 1);
        PositionalIsDecrypted(s, from + 1, key, decrypt);
      } else {
        assert ps[1..] == Pieces(s, TokenAt(s, from).value);
        PositionalIsDecrypted(s, TokenAt(s, from).value, key, decrypt);
      }
    }
  }

  /** A literal piece is never replaced. */
  lemma {:induction false} SubstAllLit(x: string, ts: seq<string>, key: string, decrypt: Decrypt)
    requires forall k :: 0 <= k < |ts| ==> IsToken(ts[k])
    ensures SubstAllPiece(Lit(x), ts, key, decrypt) == Lit(x)
    decreases ts
  {
    if ts != [] {
      SubstAllLit(x, ts[1..], key, decrypt);
    }
  }

  /** A token piece listed among `ts` ends as its own replacement. */
  lemma {:induction false} TokReplaced(t: string, ts: seq<string>, key: string, decrypt: Decrypt)
    requires forall k :: 0 <= k < |ts| ==> IsToken(ts[k])
    requires t in ts
    ensures |t| >= 6 && SubstAllPiece(Tok(t), ts, key, decrypt) == Lit(Replacement(t, key, decrypt))
    decreases ts
  {
    if ts[0] == t {
      SubstAllLit(Replacement(t, key, decrypt), ts[1..], key, decrypt);
    } else {
      TokReplaced(t, ts[1..], key, decrypt);
    }
  }

  /** Every token piece's text is listed. */
  lemma {:induction false} TokTextsListed(ps: seq<Piece>, i: nat)
    requires i < |ps| && ps[i].Tok?
    ensures ps[i].text in TokTexts(ps)
    decreases ps
  {
    if i > 0 {
      TokTextsListed(ps[1..], i - 1);
    }
  }

  /** Replacing every listed token over the pieces renders them with each token decrypted. */
  lemma {:induction false} SubstAllDecrypts(ps: seq<Piece>, qs: seq<Piece>, ts: seq<string>, key: string, decrypt: Decrypt)
    requires PiecesOk(ps)
    requires forall k :: 0 <= k < |ts| ==> IsToken(ts[k])
    requires forall i :: 0 <= i < |ps| && ps[i].Tok? ==> ps[i].text in ts
    requires |qs| == |ps| && forall i :: 0 <= i < |ps| ==> qs[i] == SubstAllPiece(ps[i], ts, key, decrypt)
    ensures Render(qs) == RenderDecrypted(ps, key, decrypt)
    decreases ps
  {
    if ps != [] {
      PiecesOkTail(ps);
      SubstAllDecrypts(ps[1..], qs[1..], ts, key, decrypt);
      match ps[0]
      case Lit(x) => SubstAllLit(x, ts, key, decrypt);
      case Tok(t) => TokReplaced(t, ts, key, decrypt);
    }
  }

  /** When every `{` opens a match and no replacement brings a `{` in, the token-after-token
      replacement of `load_file` agrees with replacing each match where it stands. */
  lemma SubstitutedIsPositional(s: string, key: string, decrypt: Decrypt)
    requires BracesOpenMatches(s)
    requires forall k :: 0 <= k < |Tokens(s)| ==> '{' !in Replacement(Tokens(s)[k], key, decrypt)
    ensures Substituted(s, key, decrypt) == Positional(s, 0, key, decrypt)
  {
    var ps := Pieces(s, 0);
    var ts := Tokens(s);
    assert s[0..] == s;
    TokensArePieces(s, 0);
    ApplyOverPieces(ps, ts, key, decrypt);
    forall i | 0 <= i < |ps| && ps[i].Tok? ensures ps[i].text in ts {
      TokTextsListed(ps, i);
    }
    SubstAllDecrypts(ps, SubstAll(ps, ts, key, decrypt), ts, key, decrypt);
    PositionalIsDecrypted(s, 0, key, decrypt);
  }

  /** `load_file` as evidently intended: each match of the text as read is replaced by its
      own replacement where it stands, in one left-to-right pass. */
  method LoadFilePositional(read: Option<string>, key: string, decrypt: Decrypt) returns (loaded: Option<string>)
    ensures read.None? <==> loaded.None?
    ensures read.Some? ==> loaded == Some(Positional(read.value, 0, key, decrypt))
  {
    if read.None? {
      return None;
    }
    var s := read.value;
    var out := "";
    var i := 0;
    while i < |s|
      invariant 0 <= i <= |s|
      invariant out + Positional(s, i, key, decrypt) == Positional(s, 0, key, decrypt)
      decreases |s| - i
    {
      match TokenAt(s, i) {
        case None =>
          PositionalSkip(s, i, key, decrypt);
          Regroup3(out, [s[i]], Positional(s, i + 1, key, decrypt));
          out := out + [s[i]];
          i := i + 1;
        case Some(e) =>
          PositionalMatch(s, i, key, decrypt);
          var r := Replacement(s[i..e], key, decrypt);
          Regroup3(out, r, Positional(s, e, key, decrypt));
          out := out + r;
          i := e;
      }
    }
    assert out + Positional(s, i, key, decrypt) == out;
    return Some(out);
  }

  lemma Regroup3(a: string, b: string, c: string)
    ensures a + (b + c) == (a + b) + c
  {
  }

  // ---------------------------------------------------------------------------
  // A token inside other braces

  /** A `{` at the start of the content that opens no match breaks `BracesOpenMatches`. */
  lemma StrayBraceAtStart(s: string)
    requires |s| > 0 && s[0] == '{' && TokenAt(s, 0).None?
    ensures !BracesOpenMatches(s)
  {
    var ps := Pieces(s, 0);
    assert ps[0] == Lit([s[0]]);
    assert !PieceOk(ps[0]);
  }

  lemma JsonLayout(s: string)
    requires s == "{\"a\":\"{enc:X}\"}"
    ensures s == "{\"a\":\"" + (Open + "X" + "}") + "\"}"
  {
  }

  /** In `{"a":"{enc:X}"}` no match starts outside the token. */
  lemma JsonNoOtherMatch(s: string)
    requires s == "{\"a\":\"" + (Open + "X" + "}") + "\"}"
    ensures TokenAt(s, 0).None? && NoTokenIn(s, 0, 6) && NoTokenIn(s, 13, |s|)
  {
    assert s[0..5][1] == '"' != Open[1];
    forall m | 1 <= m < 6 ensures TokenAt(s, m).None? {
      NoTokenAtNonBrace(s, m);
    }
    NoTokenAtNonBrace(s, 13);
    NoTokenAtNonBrace(s, 14);
  }

  lemma JsonSides(s: string, t: string, key: string, decrypt: Decrypt)
    requires t == Open + "X" + "}" && s == "{\"a\":\"" + t + "\"}"
    requires decrypt(key, "X") == Some("D")
    ensures !BracesOpenMatches(s)
    ensures Substituted(s, key, decrypt) == "{\"a\":\"D\"}"
    ensures Positional(s, 0, key, decrypt) == "{\"a\":\"D\"}"
  {
    TokenShape("X");
    JsonNoOtherMatch(s);
    StrayBraceAtStart(s);
    assert s[6..13] == t && s[..6] + "D" + s[13..] == "{\"a\":\"D\"}";
    SingleMatchSubstituted(s, t, 6, key, decrypt);
    SingleMatchPositional(s, t, 6, key, decrypt);
  }

  /** `{"a":"{enc:X}"}` with `X` decrypting to `D`. The object's own braces open no match,
      so `BracesOpenMatches` does not hold; the token is still the only match, and it is
      replaced, just as it would be where it stands. */
  lemma TokenInsideJsonObject(s: string, key: string, decrypt: Decrypt)
    requires s == "{\"a\":\"{enc:X}\"}"
    requires decrypt(key, "X") == Some("D")
    ensures !BracesOpenMatches(s)
    ensures Substituted(s, key, decrypt) == "{\"a\":\"D\"}"
    ensures Positional(s, 0, key, decrypt) == "{\"a\":\"D\"}"
  {
    JsonLayout(s);
    JsonSides(s, Open + "X" + "}", key, decrypt);
  }

  // ---------------------------------------------------------------------------
  // Three inputs on which the token-after-token replacement is not positional

  /** No match starts at a character other than `{`. */
  lemma NoTokenAtNonBrace(s: string, i: nat)
    requires i < |s| && s[i] != '{'
    ensures TokenAt(s, i).None?
  {
    if i + 5 <= |s| {
      assert s[i..i + 5][0] == s[i];
    }
  }

  /** Content made of a token, a stretch without a match and a second token. */
  predicate TokenGapToken(s: string, t: string, g: string, u: string)
  {
    IsToken(t) && IsToken(u) && s == t + g + u && NoTokenIn(s, |t|, |t| + |g|)
  }

  lemma TokenGapTokenStarts(s: string, t: string, g: string, u: string)
    requires TokenGapToken(s, t, g, u)
    ensures TokenAt(s, 0) == Some(|t|) && TokenAt(s, |t| + |g|) == Some(|s|)
  {
    var c := |t| + |g|;
    assert s[0..|t|] == t && s[c..c + |u|] == u;
    TokenAtToken(s, t, 0);
    TokenAtToken(s, u, c);
  }

  lemma TokenGapTokenMatches(s: string, t: string, g: string, u: string)
    requires TokenGapToken(s, t, g, u)
    ensures Tokens(s) == [t, u]
  {
    var c := |t| + |g|;
    TokenGapTokenStarts(s, t, g, u);
    TwoMatches(s, 0, |t|, c, |s|);
    assert s[0..|t|] == t && s[c..|s|] == u;
  }

  /** Such content is rewritten by the two tokens' replacements, one after the other. */
  lemma TokenGapTokenSubstituted(s: string, t: string, g: string, u: string, key: string, decrypt: Decrypt)
    requires TokenGapToken(s, t, g, u)
    ensures Substituted(s, key, decrypt) ==
      ReplaceAll(ReplaceAll(s, t, Replacement(t, key, decrypt)), u, Replacement(u, key, decrypt))
  {
    TokenGapTokenMatches(s, t, g, u);
    var r := ReplaceAll(s, t, Replacement(t, key, decrypt));
    assert ApplyAll(s, [t, u], key, decrypt) == ApplyAll(r, [u], key, decrypt);
  }

  lemma TokenGapTokenSlices(s: string, t: string, g: string, u: string)
    requires s == t + g + u
    ensures s[0..0] == [] && s[0..|t|] == t && s[|t|..|t| + |g|] == g && s[|t| + |g|..|s|] == u
  {
  }

  /** Positionally, each of the two tokens becomes its own replacement. */
  lemma TokenGapTokenPositional(s: string, t: string, g: string, u: string, key: string, decrypt: Decrypt)
    requires TokenGapToken(s, t, g, u)
    ensures Positional(s, 0, key, decrypt) == Replacement(t, key, decrypt) + g + Replacement(u, key, decrypt)
  {
    TokenGapTokenStarts(s, t, g, u);
    TokenGapTokenSlices(s, t, g, u);
    PositionalOfTwoMatches(s, |t|, |t| + |g|, key, decrypt);
  }

  /** Content that is a match, a stretch without a match and a match to the end. */
  lemma PositionalOfTwoMatches(s: string, b: nat, c: nat, key: string, decrypt: Decrypt)
    requires b <= c < |s| && TokenAt(s, 0) == Some(b) && NoTokenIn(s, b, c) && TokenAt(s, c) == Some(|s|)
    ensures Positional(s, 0, key, decrypt) ==
      Replacement(s[0..b], key, decrypt) + s[b..c] + Replacement(s[c..|s|], key, decrypt)
  {
    PositionalMatch(s, 0, key, decrypt);
    PositionalSkipsTo(s, b, c, key, decrypt);
    LastTokenPositional(s, c, key, decrypt);
  }

  /** A match that runs to the end of the content is its replacement and nothing more. */
  lemma LastTokenPositional(s: string, c: nat, key: string, decrypt: Decrypt)
    requires c < |s| && TokenAt(s, c) == Some(|s|)
    ensures Positional(s, c, key, decrypt) == Replacement(s[c..|s|], key, decrypt)
  {
    PositionalMatch(s, c, key, decrypt);
    assert Positional(s, |s|, key, decrypt) == "";
  }

  /** Two copies of `t` at both ends of `s`, around a stretch `y` in which `t` does not occur. */
  lemma BothEndsReplaced(s: string, t: string, y: string, rep: string)
    requires t != [] && s == t + y + t
    requires forall j :: |t| <= j < |t| + |y| ==> !OccursAt(s, t, j)
    ensures ReplaceAll(s, t, rep) == rep + y + rep
  {
    var c := |t| + |y|;
    assert s[0..|t|] == t && s[c..c + |t|] == t;
    TwoOccurrencesReplaced(s, t, rep, 0, c);
    assert s[..0] == [] && s[|t|..c] == y && s[c + |t|..] == [];
  }

  /** A pattern longer than the text does not occur in it. */
  lemma LongerPatternUnchanged(r: string, t: string, rep: string)
    requires |r| < |t|
    ensures ReplaceAll(r, t, rep) == r
  {
  }

  lemma FirstExampleGap(s: string, t: string, y: string)
    requires t == Open + "a" + "}" && y == " {enc:b" && s == t + y + t
    ensures forall j :: 7 <= j < 14 ==> !OccursAt(s, t, j)
  {
    forall j | 7 <= j < 14 ensures !OccursAt(s, t, j) {
      assert s[j] == y[j - 7] && s[j + 5] == (y + t)[j - 2];
      if j == 8 {
        assert s[j..j + 7][5] == s[13];
      } else {
        assert j == 7 || j == 9 || j == 10 || j == 11 || j == 12 || j == 13;
        assert s[j..j + 7][0] == s[j];
      }
    }
  }

  lemma FirstExampleLayout(s: string)
    requires s == "{enc:a} {enc:b{enc:a}"
    ensures s == (Open + "a" + "}") + " " + (Open + "b{enc:a" + "}")
    ensures s == (Open + "a" + "}") + " {enc:b" + (Open + "a" + "}")
  {
  }

  lemma FirstExampleSides(s: string, t: string, u: string, y: string, key: string, decrypt: Decrypt)
    requires t == Open + "a" + "}" && u == Open + "b{enc:a" + "}" && y == " {enc:b"
    requires s == t + " " + u && s == t + y + t
    requires decrypt(key, "a").None? && decrypt(key, "b{enc:a").None?
    ensures Substituted(s, key, decrypt) == "a {enc:ba"
    ensures Positional(s, 0, key, decrypt) == "a b{enc:a"
  {
    assert "a" + y + "a" == "a {enc:ba" && "a" + " " + "b{enc:a" == "a b{enc:a";
    TokenShape("a");
    TokenShape("b{enc:a");
    NoTokenAtNonBrace(s, 7);
    assert TokenGapToken(s, t, " ", u);
    TokenGapTokenSubstituted(s, t, " ", u, key, decrypt);
    TokenGapTokenPositional(s, t, " ", u, key, decrypt);
    FirstExampleGap(s, t, y);
    BothEndsReplaced(s, t, y, "a");
    LongerPatternUnchanged("a" + y + "a", u, "b{enc:a");
  }

  /** `{enc:a} {enc:b{enc:a}` with neither payload decrypting. Replacing the first token
      everywhere also rewrites the tail of the second, which then no longer occurs, so the
      second token never becomes its payload; positionally it would. */
  lemma EarlierReplaceBreaksLaterMatch(s: string, key: string, decrypt: Decrypt)
    requires s == "{enc:a} {enc:b{enc:a}"
    requires decrypt(key, "a").None? && decrypt(key, "b{enc:a").None?
    ensures Substituted(s, key, decrypt) == "a {enc:ba"
    ensures Positional(s, 0, key, decrypt) == "a b{enc:a"
  {
    FirstExampleLayout(s);
    FirstExampleSides(s, Open + "a" + "}", Open + "b{enc:a" + "}", " {enc:b", key, decrypt);
  }

  lemma SecondExampleLayout(s: string)
    requires s == "{enc:a}{enc:b}"
    ensures s == (Open + "a" + "}") + "" + (Open + "b" + "}")
    ensures "{enc:b}" == Open + "b" + "}"
  {
  }

  /** The first token occurs only at the start of `{enc:a}{enc:b}`. */
  lemma SecondExampleFirstReplaced(s: string, t: string, u: string)
    requires t == Open + "a" + "}" && u == Open + "b" + "}" && s == t + "" + u
    ensures ReplaceAll(s, t, u) == u + u
  {
    assert OccursAt(s, t, 0);
    ReplaceAllFirst(s, t, u, 0);
    forall j | 7 <= j < 14 ensures !OccursAt(s, t, j) {
      if j == 7 {
        assert s[j..j + 7][5] == u[5];
      }
    }
    TailReplacedUnchanged(s, t, u, 7);
    assert s[..0] == [] && s[7..] == u;
  }

  lemma SecondExampleSubstituted(s: string, t: string, u: string, key: string, decrypt: Decrypt)
    requires t == Open + "a" + "}" && u == Open + "b" + "}" && s == t + "" + u
    requires decrypt(key, "a") == Some(u) && decrypt(key, "b") == Some("B")
    ensures Substituted(s, key, decrypt) == "BB"
  {
    TokenShape("a");
    TokenShape("b");
    assert TokenGapToken(s, t, "", u);
    TokenGapTokenSubstituted(s, t, "", u, key, decrypt);
    SecondExampleFirstReplaced(s, t, u);
    assert u + u == u + "" + u;
    BothEndsReplaced(u + u, u, "", "B");
  }

  lemma SecondExamplePositional(s: string, t: string, u: string, key: string, decrypt: Decrypt)
    requires t == Open + "a" + "}" && u == Open + "b" + "}" && s == t + "" + u
    requires decrypt(key, "a") == Some(u) && decrypt(key, "b") == Some("B")
    ensures Positional(s, 0, key, decrypt) == u + "B"
  {
    TokenShape("a");
    TokenShape("b");
    assert TokenGapToken(s, t, "", u);
    TokenGapTokenPositional(s, t, "", u, key, decrypt);
  }

  /** `{enc:a}{enc:b}` where `a` decrypts to `{enc:b}` and `b` to `B`. The plaintext that
      replaced the first token is rewritten when the second token is replaced everywhere;
      positionally it is kept. */
  lemma LaterReplaceRewritesPlaintext(s: string, key: string, decrypt: Decrypt)
    requires s == "{enc:a}{enc:b}"
    requires decrypt(key, "a") == Some("{enc:b}") && decrypt(key, "b") == Some("B")
    ensures Substituted(s, key, decrypt) == "BB"
    ensures Positional(s, 0, key, decrypt) == "{enc:b}B"
  {
    SecondExampleLayout(s);
    SecondExampleSubstituted(s, Open + "a" + "}", Open + "b" + "}", key, decrypt);
    SecondExamplePositional(s, Open + "a" + "}", Open + "b" + "}", key, decrypt);
  }

  lemma ThirdExampleLayout(s: string)
    requires s == "{en{enc:b}{enc:b}"
    ensures s == "{en" + (Open + "b" + "}") + (Open + "b" + "}")
    ensures "{enc:b}c:b}" == (Open + "b" + "}") + "c:b}"
  {
  }

  /** No match starts in `{en`; the two copies of `t` follow it. */
  lemma ThirdExampleStarts(s: string, t: string)
    requires t == Open + "b" + "}" && s == "{en" + t + t
    ensures |s| == 17 && s[0..3] == "{en" && s[3..10] == t && s[10..17] == t
    ensures NoTokenIn(s, 0, 3) && TokenAt(s, 3) == Some(10) && TokenAt(s, 10) == Some(17)
  {
    assert s[0..5][3] == '{' != Open[3];
    NoTokenAtNonBrace(s, 1);
    NoTokenAtNonBrace(s, 2);
    TokenShape("b");
    assert s[3..10] == t && s[10..17] == t;
    TokenAtToken(s, t, 3);
    TokenAtToken(s, t, 10);
  }

  /** A stretch `g` in which no match starts, then the token `t` twice: the two copies are
      the matches, the first round replaces both, and the second round replaces again in
      what the first produced. */
  lemma GapThenTwice(s: string, g: string, t: string, key: string, decrypt: Decrypt, second: string)
    requires IsToken(t) && |s| == |g| + 2 * |t|
    requires s[..|g|] == g && s[|g|..|g| + |t|] == t && s[|g| + |t|..] == t
    requires NoTokenIn(s, 0, |g|)
    requires var rep := Replacement(t, key, decrypt); ReplaceAll(g + rep + rep, t, rep) == second
    ensures Substituted(s, key, decrypt) == second
  {
    var rep := Replacement(t, key, decrypt);
    GapThenTwiceMatched(s, g, t);
    GapThenTwiceReplaced(s, g, t, rep);
    assert ApplyAll(s, [t, t], key, decrypt) == ApplyAll(g + rep + rep, [t], key, decrypt);
  }

  lemma GapThenTwiceMatched(s: string, g: string, t: string)
    requires IsToken(t) && |s| == |g| + 2 * |t|
    requires s[|g|..|g| + |t|] == t && s[|g| + |t|..] == t
    requires NoTokenIn(s, 0, |g|)
    ensures Tokens(s) == [t, t]
  {
    var a, b := |g|, |g| + |t|;
    assert s[b..b + |t|] == t;
    TokenAtToken(s, t, a);
    TokenAtToken(s, t, b);
    TwoMatches(s, a, b, b, |s|);
    TokensOfTwoMatches(s, a, b, b, |s|);
  }

  /** The texts of two matches. */
  lemma TokensOfTwoMatches(s: string, a: nat, b: nat, c: nat, d: nat)
    requires a <= b <= c <= d <= |s| && Matches(s, 0) == [Span(a, b), Span(c, d)]
    ensures Tokens(s) == [s[a..b], s[c..d]]
  {
    var ts := Tokens(s);
    assert |ts| == 2 && ts[0] == s[a..b] && ts[1] == s[c..d];
  }

  lemma GapThenTwiceReplaced(s: string, g: string, t: string, rep: string)
    requires IsToken(t) && |s| == |g| + 2 * |t|
    requires s[..|g|] == g && s[|g|..|g| + |t|] == t && s[|g| + |t|..] == t
    requires NoTokenIn(s, 0, |g|)
    ensures ReplaceAll(s, t, rep) == g + rep + rep
  {
    var a, b := |g|, |g| + |t|;
    assert s[b..b + |t|] == t && s[b..b] == [] && s[b + |t|..] == [];
    NotOccursWithoutMatch(s, t, 0, a);
    TwoOccurrencesReplaced(s, t, rep, a, b);
  }

  /** The second round over `{enc:b}c:b}` replaces the token it finds at the start. */
  lemma ThirdExampleSecondRound(r: string, t: string, rep: string)
    requires t == Open + "b" + "}" && rep == "c:b}" && r == "{en" + rep + rep
    ensures ReplaceAll(r, t, rep) == rep + rep
  {
    assert r == t + rep;
    assert OccursAt(r, t, 0);
    ReplaceAllFirst(r, t, rep, 0);
    assert r[..0] == [] && r[7..] == rep;
  }

  lemma ThirdExampleSubstitutedSide(s: string, t: string, key: string, decrypt: Decrypt)
    requires t == Open + "b" + "}" && Replacement(t, key, decrypt) == "c:b}"
    requires |s| == 17 && s[..3] == "{en" && s[3..10] == t && s[10..] == t && NoTokenIn(s, 0, 3)
    ensures Substituted(s, key, decrypt) == "c:b}c:b}"
  {
    TokenShape("b");
    ThirdExampleSecondRound("{en" + "c:b}" + "c:b}", t, "c:b}");
    GapThenTwice(s, "{en", t, key, decrypt, "c:b}c:b}");
  }

  /** Content that is a stretch without a match, then a match, then a match to the end. */
  lemma PositionalOfGapAndTwoMatches(s: string, a: nat, b: nat, key: string, decrypt: Decrypt)
    requires a <= b < |s| && NoTokenIn(s, 0, a) && TokenAt(s, a) == Some(b) && TokenAt(s, b) == Some(|s|)
    ensures Positional(s, 0, key, decrypt) ==
      s[0..a] + Replacement(s[a..b], key, decrypt) + Replacement(s[b..|s|], key, decrypt)
  {
    PositionalAtFirstMatch(s, 0, a, b, key, decrypt);
    LastTokenPositional(s, b, key, decrypt);
  }

  lemma ThirdExamplePositional(s: string, t: string, key: string, decrypt: Decrypt)
    requires 10 < |s| && NoTokenIn(s, 0, 3) && TokenAt(s, 3) == Some(10) && TokenAt(s, 10) == Some(|s|)
    requires |t| >= 6 && s[3..10] == t && s[10..|s|] == t && Replacement(t, key, decrypt) == "c:b}"
    requires s[0..3] + "c:b}" == t
    ensures Positional(s, 0, key, decrypt) == t + "c:b}"
  {
    PositionalOfGapAndTwoMatches(s, 3, 10, key, decrypt);
  }

  lemma ThirdExamplePositionalSide(s: string, t: string, key: string, decrypt: Decrypt)
    requires t == Open + "b" + "}" && s == "{en" + t + t
    requires decrypt(key, "b") == Some("c:b}")
    ensures Positional(s, 0, key, decrypt) == t + "c:b}"
  {
    TokenShape("b");
    assert Replacement(t, key, decrypt) == "c:b}";
    ThirdExampleStarts(s, t);
    assert "{en" + "c:b}" == t;
    ThirdExamplePositional(s, t, key, decrypt);
  }

  /** `{en{enc:b}{enc:b}` where `b` decrypts to `c:b}`. No match starts in `{en`, but the
      first replacement joins it to the plaintext into a new `{enc:b}`, which the second
      round, for the same token, rewrites again; positionally it is kept. */
  lemma ReplacementCompletesToken(s: string, key: string, decrypt: Decrypt)
    requires s == "{en{enc:b}{enc:b}"
    requires decrypt(key, "b") == Some("c:b}")
    ensures Substituted(s, key, decrypt) == "c:b}c:b}"
    ensures Positional(s, 0, key, decrypt) == "{enc:b}c:b}"
  {
    ThirdExampleLayout(s);
    var t := Open + "b" + "}";
    TokenShape("b");
    assert Replacement(t, key, decrypt) == "c:b}";
    ThirdExampleStarts(s, t);
    assert s[..3] == s[0..3] && s[10..] == s[10..17];
    ThirdExampleSubstitutedSide(s, t, key, decrypt);
    ThirdExamplePositionalSide(s, t, key, decrypt);
  }
}
