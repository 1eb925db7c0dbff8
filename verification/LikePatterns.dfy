/** SQL LIKE (06_executor.c:264-310): % matches any run of bytes, _ matches exactly one. */
module LikePatterns {
  import opened Values

  const PERCENT: Byte := 37
  const UNDERSCORE: Byte := 95
  const VALUE_LEN := 8192

  /** The definition: what a pattern means, one pattern byte at a time. */
  predicate Matches(text: Bytes, pattern: Bytes)
    decreases |pattern|, |text|
  {
    if pattern == [] then text == []
    else if pattern[0] == PERCENT then
      Matches(text, pattern[1..]) || (text != [] && Matches(text[1..], pattern))
    else text != [] && (pattern[0] == UNDERSCORE || pattern[0] == text[0]) && Matches(text[1..], pattern[1..])
  }

  /** Strings C can hold: no terminator inside. */
  predicate NulFree(s: Bytes) {
    forall i :: 0 <= i < |s| ==> s[i] != 0
  }

  /** A pattern byte, or the terminator after the last. */
  function At(s: Bytes, i: nat): Byte {
    if i < |s| then s[i] else 0
  }

  ghost predicate NoPercent(s: Bytes) {
    forall i :: 0 <= i < |s| ==> s[i] != PERCENT
  }

  /** A leading % can always swallow more. */
  lemma {:induction false} PercentSwallows(text: Bytes, k: nat, pattern: Bytes)
    requires k <= |text| && pattern != [] && pattern[0] == PERCENT && Matches(text[k..], pattern)
    ensures Matches(text, pattern)
    decreases k
  {
    if k > 0 {
      assert text[k..] == text[1..][k - 1..];
      PercentSwallows(text[1..], k - 1, pattern);
    } else {
      assert text[0..] == text;
    }
  }

  /** A run without % consumes exactly as many bytes as it has. */
  lemma {:induction false} RunConsumes(text: Bytes, run: Bytes, rest: Bytes)
    requires NoPercent(run) && Matches(text, run + rest)
    ensures |run| <= |text| && Matches(text[|run|..], rest)
  {
    if run == [] {
      assert run + rest == rest && text[0..] == text;
    } else {
      assert (run + rest)[1..] == run[1..] + rest;
      RunConsumes(text[1..], run[1..], rest);
      assert text[1..][|run| - 1..] == text[|run|..];
    }
  }

  /** A % followed by a run matches where the run matches first, or further on. */
  lemma {:induction false} RunMovesOn(text: Bytes, run: Bytes, rest: Bytes)
    requires NoPercent(run) && Matches(text, [PERCENT] + (run + rest)) && rest != [] && rest[0] == PERCENT
    ensures |run| <= |text| && Matches(text[|run|..], rest)
    decreases |text|
  {
    assert ([PERCENT] + (run + rest))[1..] == run + rest;
    if Matches(text, run + rest) {
      RunConsumes(text, run, rest);
    } else {
      RunMovesOn(text[1..], run, rest);
      assert text[1..][|run|..] == text[|run|..][1..];
      PercentSwallows(text[|run|..], 1, rest);
    }
  }

  /** With too little text left for the run, % has nowhere further to go. */
  lemma {:induction false} RunNeedsRoom(text: Bytes, run: Bytes, rest: Bytes)
    requires NoPercent(run) && |run| == |text|
    ensures Matches(text, [PERCENT] + (run + rest)) ==> Matches(text, run + rest)
  {
    assert ([PERCENT] + (run + rest))[1..] == run + rest;
    if text != [] && Matches(text[1..], [PERCENT] + (run + rest)) {
      TooShort(text[1..], run, rest);
    }
  }

  lemma {:induction false} TooShort(text: Bytes, run: Bytes, rest: Bytes)
    requires NoPercent(run) && |text| < |run|
    ensures !Matches(text, [PERCENT] + (run + rest))
    decreases |text|
  {
    assert ([PERCENT] + (run + rest))[1..] == run + rest;
    if Matches(text, run + rest) {
      RunConsumes(text, run, rest);
    }
    if text != [] {
      TooShort(text[1..], run, rest);
    }
  }

  /** Matching nothing takes a pattern of nothing but %. */
  lemma {:induction false} EmptyMatches(pattern: Bytes)
    ensures Matches([], pattern) <==> forall i :: 0 <= i < |pattern| ==> pattern[i] == PERCENT
  {
    if pattern != [] {
      EmptyMatches(pattern[1..]);
    }
  }

  /** What the loop knows: where it is decides the whole match, through the last % if there was one. */
  ghost predicate Here(text: Bytes, pattern: Bytes, t: nat, p: nat, afterStar: int, retry: nat) {
    && t <= |text| && p <= |pattern|
    && if afterStar < 0 then Matches(text, pattern) == Matches(text[t..], pattern[p..])
       else
         && 1 <= afterStar <= p && retry <= t && t - retry == p - afterStar
         && NoPercent(pattern[afterStar..p])
         && Matches(text, pattern) == Matches(text[retry..], [PERCENT] + pattern[afterStar..])
         && Matches(text[retry..], pattern[afterStar..]) == Matches(text[t..], pattern[p..])
  }

  lemma StarSeen(text: Bytes, pattern: Bytes, t: nat, p: nat, afterStar: int, retry: nat)
    requires Here(text, pattern, t, p, afterStar, retry) && t < |text| && p < |pattern| && pattern[p] == PERCENT
    ensures Here(text, pattern, t, p + 1, p + 1, t)
  {
    var rest := pattern[p..];
    assert [PERCENT] + pattern[p + 1..] == rest;
    if afterStar >= 0 {
      var run := pattern[afterStar..p];
      assert pattern[afterStar..] == run + rest;
      assert text[retry..][|run|..] == text[t..];
      if Matches(text, pattern) {
        RunMovesOn(text[retry..], run, rest);
      }
      if Matches(text[t..], rest) {
        assert ([PERCENT] + pattern[afterStar..])[1..] == pattern[afterStar..];
      }
    }
  }

  lemma ByteSeen(text: Bytes, pattern: Bytes, t: nat, p: nat, afterStar: int, retry: nat)
    requires Here(text, pattern, t, p, afterStar, retry) && t < |text| && p < |pattern| && pattern[p] != PERCENT
    requires pattern[p] == UNDERSCORE || pattern[p] == text[t]
    ensures Here(text, pattern, t + 1, p + 1, afterStar, retry)
  {
    assert text[t..][1..] == text[t + 1..];
    assert pattern[p..][1..] == pattern[p + 1..];
    if afterStar >= 0 {
      assert pattern[afterStar..p + 1] == pattern[afterStar..p] + [pattern[p]];
    }
  }

  /** No match from here: without a % that settles it, with one the % takes one byte more. */
  lemma Mismatch(text: Bytes, pattern: Bytes, t: nat, p: nat, afterStar: int, retry: nat)
    requires Here(text, pattern, t, p, afterStar, retry) && t < |text|
    requires p < |pattern| ==> pattern[p] != PERCENT && pattern[p] != UNDERSCORE && pattern[p] != text[t]
    ensures afterStar < 0 ==> !Matches(text, pattern)
    ensures afterStar >= 0 ==> Here(text, pattern, retry + 1, afterStar, afterStar, retry + 1)
  {
    assert !Matches(text[t..], pattern[p..]);
    if afterStar >= 0 {
      assert ([PERCENT] + pattern[afterStar..])[1..] == pattern[afterStar..];
      assert text[retry..][1..] == text[retry + 1..];
    }
  }

  lemma Finished(text: Bytes, pattern: Bytes, p: nat, afterStar: int, retry: nat)
    requires Here(text, pattern, |text|, p, afterStar, retry)
    ensures Matches(text, pattern) == Matches([], pattern[p..])
  {
    assert text[|text|..] == [];
    if afterStar >= 0 {
      var run, rest := pattern[afterStar..p], pattern[p..];
      assert pattern[afterStar..] == run + rest;
      RunNeedsRoom(text[retry..], run, rest);
      assert ([PERCENT] + (run + rest))[1..] == run + rest;
    }
  }

  lemma Starts(text: Bytes, pattern: Bytes)
    ensures Here(text, pattern, 0, 0, -1, 0)
  {
    assert text[0..] == text && pattern[0..] == pattern;
  }

  /** likeMatch: backtracks only to the last %, and agrees with the definition. */
  method LikeMatch(text: Bytes, pattern: Bytes) returns (matches: bool)
    requires NulFree(text) && NulFree(pattern)
    ensures matches == Matches(text, pattern)
  {
    var afterStar, retry := -1, 0;
    var t, p := 0, 0;
    hide Matches, Here;
    Starts(text, pattern);
    while t != |text|
      invariant Here(text, pattern, t, p, afterStar, retry)
      invariant retry <= t <= |text| && -1 <= afterStar <= p <= |pattern|
      decreases |pattern| - afterStar, |text| - retry, |text| - t
    {
      if At(pattern, p) == PERCENT {
        StarSeen(text, pattern, t, p, afterStar, retry);
        p := p + 1;
        afterStar, retry := p, t;
      } else if At(pattern, p) == UNDERSCORE || At(pattern, p) == text[t] {
        ByteSeen(text, pattern, t, p, afterStar, retry);
        t, p := t + 1, p + 1;
      } else if afterStar >= 0 {
        Mismatch(text, pattern, t, p, afterStar, retry);
        p := afterStar;
        retry := retry + 1;
        t := retry;
      } else {
        Mismatch(text, pattern, t, p, afterStar, retry);
        return false;
      }
    }
    Finished(text, pattern, p, afterStar, retry);
    EmptyMatches(pattern[p..]);
    ghost var from := p;
    while At(pattern, p) == PERCENT
      invariant from <= p <= |pattern|
      invariant forall i :: from <= i < p ==> pattern[i] == PERCENT
      decreases |pattern| - p
    {
      p := p + 1;
    }
    matches := At(pattern, p) == 0;
    if !matches {
      assert pattern[from..][p - from] == pattern[p];
    }
  }

  predicate Literal(b: Byte) {
    b != PERCENT && b != UNDERSCORE
  }

  /** The first n bytes are a pattern's literal head: it ends at a wildcard, or where the buffer does. */
  ghost predicate LiteralHead(pattern: Bytes, n: nat) {
    && n <= |pattern| && n <= VALUE_LEN - 1
    && (forall i :: 0 <= i < n ==> Literal(pattern[i]))
    && (n < |pattern| ==> !Literal(pattern[n]) || n == VALUE_LEN - 1)
  }

  /** likePrefix: every match of the pattern begins with the bytes it copies. */
  method LikePrefix(pattern: Bytes) returns (prefix: Bytes)
    requires NulFree(pattern)
    ensures LiteralHead(pattern, |prefix|) && prefix == pattern[..|prefix|]
    ensures forall text: Bytes :: Matches(text, pattern) ==> prefix <= text
  {
    var n := 0;
    while At(pattern, n) != 0 && Literal(pattern[n]) && n < VALUE_LEN - 1
      invariant 0 <= n <= |pattern| && n <= VALUE_LEN - 1
      invariant forall i :: 0 <= i < n ==> Literal(pattern[i])
      decreases |pattern| - n
    {
      n := n + 1;
    }
    prefix := pattern[..n];
    forall text: Bytes | Matches(text, pattern) ensures prefix <= text {
      HeadIsLiteral(text, pattern, n);
    }
  }

  lemma {:induction false} HeadIsLiteral(text: Bytes, pattern: Bytes, n: nat)
    requires n <= |pattern| && Matches(text, pattern)
    requires forall i :: 0 <= i < n ==> Literal(pattern[i])
    ensures pattern[..n] <= text
    decreases n
  {
    if n > 0 {
      HeadIsLiteral(text[1..], pattern[1..], n - 1);
      assert pattern[..n] == [pattern[0]] + pattern[1..][..n - 1];
      assert text == [text[0]] + text[1..];
    }
  }

  // ---------- the meaning at once ----------

  /** Where each pattern byte's share of the text starts: % takes any run, everything else one byte that fits. */
  ghost predicate Aligned(text: Bytes, pattern: Bytes, cuts: seq<nat>) {
    && |cuts| == |pattern| + 1 && cuts[0] == 0 && cuts[|pattern|] == |text|
    && forall i :: 0 <= i < |pattern| ==> Share(text, pattern[i], cuts[i], cuts[i + 1])
  }

  ghost predicate Share(text: Bytes, p: Byte, start: nat, end: nat) {
    && start <= end <= |text|
    && (p != PERCENT ==> end == start + 1 && (p == UNDERSCORE || p == text[start]))
  }

  /** A text matches exactly when it can be dealt out among the pattern's bytes. */
  lemma MatchesIffAligned(text: Bytes, pattern: Bytes)
    ensures Matches(text, pattern) <==> exists cuts :: Aligned(text, pattern, cuts)
  {
    if Matches(text, pattern) {
      var cuts := MatchAligns(text, pattern);
    }
    if cuts :| Aligned(text, pattern, cuts) {
      AlignedMatches(text, pattern, cuts);
    }
  }

  lemma {:induction false} MatchAligns(text: Bytes, pattern: Bytes) returns (cuts: seq<nat>)
    requires Matches(text, pattern)
    ensures Aligned(text, pattern, cuts)
    decreases |pattern|, |text|
  {
    if pattern == [] {
      cuts := [0];
    } else if pattern[0] == PERCENT && Matches(text, pattern[1..]) {
      var rest := MatchAligns(text, pattern[1..]);
      cuts := [0] + rest;
      forall i | 0 <= i < |pattern| ensures Share(text, pattern[i], cuts[i], cuts[i + 1]) {
        assert i > 0 ==> pattern[i] == pattern[1..][i - 1];
      }
    } else if pattern[0] == PERCENT {
      var rest := MatchAligns(text[1..], pattern);
      cuts := [0] + seq(|pattern|, i requires 0 <= i < |pattern| => rest[i + 1] + 1);
      assert Share(text[1..], pattern[0], rest[0], rest[1]);
      forall i | 0 <= i < |pattern| ensures Share(text, pattern[i], cuts[i], cuts[i + 1]) {
        assert Share(text[1..], pattern[i], rest[i], rest[i + 1]);
      }
    } else {
      var rest := MatchAligns(text[1..], pattern[1..]);
      cuts := [0] + seq(|pattern|, i requires 0 <= i < |pattern| => rest[i] + 1);
      forall i | 0 <= i < |pattern| ensures Share(text, pattern[i], cuts[i], cuts[i + 1]) {
        assert i > 0 ==> pattern[i] == pattern[1..][i - 1];
        assert i > 0 ==> Share(text[1..], pattern[1..][i - 1], rest[i - 1], rest[i]);
      }
    }
  }

  /** The same for what is left of the text once its first byte is dealt. */
  lemma {:induction false} AlignedMatches(text: Bytes, pattern: Bytes, cuts: seq<nat>)
    requires Aligned(text, pattern, cuts)
    ensures Matches(text, pattern)
    decreases |pattern|, |text|
  {
    if pattern != [] {
      assert Share(text, pattern[0], cuts[0], cuts[1]);
      var n := cuts[1];
      CutsAscend(text, pattern, cuts, 1);
      var rest := seq(|pattern|, i requires 0 <= i < |pattern| => cuts[i + 1] - n);
      forall i | 0 <= i < |pattern| - 1 ensures Share(text[n..], pattern[1..][i], rest[i], rest[i + 1]) {
        assert Share(text, pattern[i + 1], cuts[i + 1], cuts[i + 2]);
      }
      AlignedMatches(text[n..], pattern[1..], rest);
      if pattern[0] == PERCENT {
        PercentTakes(text, n, pattern);
      }
    }
  }

  lemma {:induction false} CutsAscend(text: Bytes, pattern: Bytes, cuts: seq<nat>, k: nat)
    requires Aligned(text, pattern, cuts) && k <= |pattern|
    ensures forall i :: k <= i <= |pattern| ==> cuts[k] <= cuts[i]
    decreases |pattern| - k
  {
    if k < |pattern| {
      assert Share(text, pattern[k], cuts[k], cuts[k + 1]);
      CutsAscend(text, pattern, cuts, k + 1);
    }
  }

  lemma PercentTakes(text: Bytes, n: nat, pattern: Bytes)
    requires n <= |text| && pattern != [] && pattern[0] == PERCENT && Matches(text[n..], pattern[1..])
    ensures Matches(text, pattern)
  {
    PercentSwallows(text, n, pattern);
  }
}
