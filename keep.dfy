/**
  * Backtick keep segments: strip_keep_chars, which reveals `x` as x, the split on the
  * same pattern that format_blanks walks, and the `content.match(...)` test of
  * replace_content.
  */
module KeepTokens {
  import opened Wrappers
  import opened JsRegex

  /** `p.slice(1, p.length - 1)`: the text between the surrounding characters ("" when too short). */
  function Inner(p: string): string
  {
    if |p| >= 2 then p[1..|p| - 1] else []
  }

  /** The global replace of strip_keep_chars, from position `i` on. */
  function StripFrom(s: string, i: nat): string
    requires i <= |s|
    decreases |s| - i
  {
    if i == |s| then []
    else
      var n := MatchLen(KeepSpan, s, i);
      if n == 0 then [s[i]] + StripFrom(s, i + 1)
      else Inner(s[i..i + n]) + StripFrom(s, i + n)
  }

  function StripKeepChars(s: string): string
  {
    StripFrom(s, 0)
  }

  /** Whether some backtick segment occurs from position `i` on. */
  predicate HasKeepFrom(s: string, i: nat)
    requires i <= |s|
    decreases |s| - i
  {
    i < |s| && (MatchLen(KeepSpan, s, i) > 0 || HasKeepFrom(s, i + 1))
  }

  /** `content.match(charKeepRegex)` is not null. */
  predicate HasKeep(s: string) { HasKeepFrom(s, 0) }

  /** The pieces of `content.split(charKeepRegex)`. */
  function KeepSplit(s: string): seq<string> { JsSplit(KeepSpan, s) }

  /** The text the pieces of a split stand for once each kept segment loses its backticks. */
  function Reveal(parts: seq<string>): string
  {
    if |parts| < 2 then Concat(parts) else parts[0] + Inner(parts[1]) + Reveal(parts[2..])
  }

  // ---------------------------------------------------------------------------

  /** One step of the replace: the first character, or the revealed segment, then the rest. */
  lemma StripFromStep(s: string, i: nat)
    requires i < |s|
    ensures MatchLen(KeepSpan, s, i) == 0 ==> StripFrom(s, i) == s[i..i + 1] + StripFrom(s, i + 1)
    ensures MatchLen(KeepSpan, s, i) > 0 ==>
      StripFrom(s, i) == Inner(s[i..i + MatchLen(KeepSpan, s, i)]) + StripFrom(s, i + MatchLen(KeepSpan, s, i))
  {
    assert [s[i]] == s[i..i + 1];
  }

  /** Text without a backtick is left as it is. */
  lemma {:induction false} StripNoBacktick(s: string, i: nat)
    requires i <= |s| && forall k :: i <= k < |s| ==> s[k] != '`'
    ensures StripFrom(s, i) == s[i..]
    decreases |s| - i
  {
    if i < |s| {
      MatchLenKeep(s, i);
      StripNoBacktick(s, i + 1);
      assert s[i..] == [s[i]] + s[i + 1..];
    }
  }

  /** A segment `x` in backticks is replaced by x, and the scan goes on after its closing backtick. */
  lemma StripToken(s: string, i: nat, x: string)
    requires |x| >= 1 && forall k :: 0 <= k < |x| ==> x[k] != '`' && !IsLineTerminator(x[k])
    requires i + |x| + 2 <= |s| && s[i..i + |x| + 2] == "`" + x + "`"
    ensures StripFrom(s, i) == x + StripFrom(s, i + |x| + 2)
  {
    TokenInner(s, i, x);
    StripFromMatch(s, i, |x| + 2, x);
  }

  lemma StripFromMatch(s: string, i: nat, n: nat, x: string)
    requires i < |s| && n > 0 && MatchLen(KeepSpan, s, i) == n && Inner(s[i..i + n]) == x
    ensures StripFrom(s, i) == x + StripFrom(s, i + n)
  {
  }

  lemma TokenInner(s: string, i: nat, x: string)
    requires |x| >= 1 && forall k :: 0 <= k < |x| ==> x[k] != '`' && !IsLineTerminator(x[k])
    requires i + |x| + 2 <= |s| && s[i..i + |x| + 2] == "`" + x + "`"
    ensures MatchLen(KeepSpan, s, i) == |x| + 2 && Inner(s[i..i + |x| + 2]) == x
  {
    TokenMatch(s, i, x);
    InnerTicks(s[i..i + |x| + 2], x);
  }

  lemma InnerTicks(t: string, x: string)
    requires t == "`" + x + "`"
    ensures Inner(t) == x
  {
  }

  lemma TokenMatch(s: string, i: nat, x: string)
    requires |x| >= 1 && forall k :: 0 <= k < |x| ==> x[k] != '`' && !IsLineTerminator(x[k])
    requires i + |x| + 2 <= |s| && s[i..i + |x| + 2] == "`" + x + "`"
    ensures MatchLen(KeepSpan, s, i) == |x| + 2
  {
    assert s[i] == '`';
    assert forall k :: i + 1 <= k <= i + |x| ==> s[k] == x[k - i - 1];
    assert s[i + |x| + 1] == '`';
    KeepEndFinds(s, i + 2, i + |x| + 1);
  }

  lemma {:induction false} KeepEndFinds(s: string, q: nat, e: nat)
    requires 1 <= q <= e < |s| && s[e] == '`'
    requires forall k :: q - 1 <= k < e ==> !IsLineTerminator(s[k])
    requires forall k :: q <= k < e ==> s[k] != '`'
    ensures KeepEnd(s, q) == Some(e)
    decreases e - q
  {
    if q < e {
      KeepEndFinds(s, q + 1, e);
    }
  }

  /**
    * The split walks the same matches as the global replace: revealing its pieces gives
    * strip_keep_chars of the text.
    */
  lemma {:induction false} RevealSplitFrom(s: string, p: nat, q: nat)
    requires p <= q <= |s|
    ensures Reveal(SplitFrom(KeepSpan, s, p, q)) == s[p..q] + StripFrom(s, q)
    decreases |s| - q
  {
    if q == |s| {
      ConcatOne(s[p..]);
    } else {
      var n := MatchLen(KeepSpan, s, q);
      if n == 0 {
        RevealSplitFrom(s, p, q + 1);
        RevealSkip(s, p, q);
      } else {
        RevealSplitFrom(s, q + n, q + n);
        RevealMatch(s, p, q, n);
      }
    }
  }

  lemma RevealSkip(s: string, p: nat, q: nat)
    requires p <= q < |s| && MatchLen(KeepSpan, s, q) == 0
    requires Reveal(SplitFrom(KeepSpan, s, p, q + 1)) == s[p..q + 1] + StripFrom(s, q + 1)
    ensures Reveal(SplitFrom(KeepSpan, s, p, q)) == s[p..q] + StripFrom(s, q)
  {
    StripFromStep(s, q);
    assert s[p..q + 1] == s[p..q] + s[q..q + 1];
  }

  lemma {:induction false} RevealMatch(s: string, p: nat, q: nat, n: nat)
    requires p <= q < |s| && n == MatchLen(KeepSpan, s, q) && n > 0
    requires Reveal(SplitFrom(KeepSpan, s, q + n, q + n)) == StripFrom(s, q + n)
    ensures Reveal(SplitFrom(KeepSpan, s, p, q)) == s[p..q] + StripFrom(s, q)
  {
    SplitFromMatch(KeepSpan, s, p, q);
    RevealPair(s[p..q], s[q..q + n], SplitFrom(KeepSpan, s, q + n, q + n));
    StripFromMatch(s, q, n, Inner(s[q..q + n]));
  }

  lemma {:induction false} RevealPair(a: string, t: string, rest: seq<string>)
    ensures Reveal([a, t] + rest) == a + (Inner(t) + Reveal(rest))
  {
    assert ([a, t] + rest)[2..] == rest;
    assert a + Inner(t) + Reveal(rest) == a + (Inner(t) + Reveal(rest));
  }

  lemma RevealSplit(s: string)
    ensures Reveal(KeepSplit(s)) == StripKeepChars(s)
  {
    RevealSplitFrom(s, 0, 0);
  }

  /** The split has more than one piece exactly when the text has a backtick segment. */
  lemma {:induction false} SplitFromMany(s: string, p: nat, q: nat)
    requires p <= q <= |s|
    ensures |SplitFrom(KeepSpan, s, p, q)| > 1 <==> HasKeepFrom(s, q)
    decreases |s| - q
  {
    if q < |s| && MatchLen(KeepSpan, s, q) == 0 {
      SplitFromMany(s, p, q + 1);
    }
  }

  lemma SplitMany(s: string)
    ensures |KeepSplit(s)| > 1 <==> HasKeep(s)
  {
    SplitFromMany(s, 0, 0);
  }

  // ---------------------------------------------------------------------------
  // The shape of the pieces

  /** A matched segment: a backtick, at least one character, a backtick, with no line terminator inside. */
  predicate KeepToken(t: string)
  {
    && |t| >= 3 && t[0] == '`' && t[|t| - 1] == '`'
    && (forall k :: 1 <= k < |t| - 1 ==> !IsLineTerminator(t[k]))
    && (forall k :: 2 <= k < |t| - 1 ==> t[k] != '`')
  }

  /** The pieces of a keep split: an odd number of them, with a matched segment at every odd index. */
  predicate KeepAlternating(parts: seq<string>)
  {
    |parts| % 2 == 1 && forall k :: 0 <= k < |parts| && k % 2 == 1 ==> KeepToken(parts[k])
  }

  lemma MatchToken(s: string, q: nat, n: nat)
    requires q < |s| && n == MatchLen(KeepSpan, s, q) && n > 0
    ensures KeepToken(s[q..q + n])
  {
    MatchLenKeep(s, q);
    var t := s[q..q + n];
    assert forall k :: 0 <= k < n ==> t[k] == s[q + k];
  }

  lemma {:induction false} KeepAlternatingPair(a: string, t: string, rest: seq<string>)
    requires KeepToken(t) && KeepAlternating(rest)
    ensures KeepAlternating([a, t] + rest)
  {
    var parts := [a, t] + rest;
    forall k | 2 <= k < |parts| && k % 2 == 1
      ensures KeepToken(parts[k])
    {
      assert parts[k] == rest[k - 2];
      assert (k - 2) % 2 == 1;
    }
  }

  lemma {:induction false} KeepSplitFromAlternates(s: string, p: nat, q: nat)
    requires p <= q <= |s|
    ensures KeepAlternating(SplitFrom(KeepSpan, s, p, q))
    decreases |s| - q
  {
    if q == |s| {
      assert SplitFrom(KeepSpan, s, p, q) == [s[p..]];
    } else {
      var n := MatchLen(KeepSpan, s, q);
      if n == 0 {
        KeepSplitFromAlternates(s, p, q + 1);
      } else {
        KeepSplitFromAlternates(s, q + n, q + n);
        SplitFromMatch(KeepSpan, s, p, q);
        MatchToken(s, q, n);
        KeepAlternatingPair(s[p..q], s[q..q + n], SplitFrom(KeepSpan, s, q + n, q + n));
      }
    }
  }

  /** The split alternates between the text around the segments and the segments, backticks included. */
  lemma KeepSplitAlternates(s: string)
    ensures KeepAlternating(KeepSplit(s))
  {
    KeepSplitFromAlternates(s, 0, 0);
  }

  /** Text without a backtick. */
  predicate NoBacktick(x: string) { forall k :: 0 <= k < |x| ==> x[k] != '`' }

  /** What a segment may keep: at least one character, no backtick, no line terminator. */
  predicate KeepText(y: string)
  {
    |y| >= 1 && forall k :: 0 <= k < |y| ==> y[k] != '`' && !IsLineTerminator(y[k])
  }

  function Ticked(y: string): string { "`" + y + "`" }

  /** `x0`, then `` `y0` ``, then `x1`, and so on up to the last gap: the gaps `xs` around the kept texts `ys`. */
  function Interleave(xs: seq<string>, ys: seq<string>): string
    requires |xs| == |ys| + 1
    decreases |ys|
  {
    if ys == [] then xs[0] else xs[0] + Ticked(ys[0]) + Interleave(xs[1..], ys[1..])
  }

  /** The list `[x0, `y0`, x1, …]` of gaps and ticked segments. */
  function InterleavePieces(xs: seq<string>, ys: seq<string>): (parts: seq<string>)
    requires |xs| == |ys| + 1
    ensures |parts| == 2 * |ys| + 1
    decreases |ys|
  {
    if ys == [] then [xs[0]] else [xs[0], Ticked(ys[0])] + InterleavePieces(xs[1..], ys[1..])
  }

  /** The scan for a backtick segment passes over text without backticks. */
  lemma {:induction false} SplitSkip(s: string, p: nat, q: nat, e: nat)
    requires p <= q <= e <= |s| && forall k :: q <= k < e ==> s[k] != '`'
    ensures SplitFrom(KeepSpan, s, p, q) == SplitFrom(KeepSpan, s, p, e)
    decreases e - q
  {
    if q < e {
      MatchLenKeep(s, q);
      SplitSkip(s, p, q + 1, e);
    }
  }

  lemma Cut3(s: string, p: nat, a: string, b: string, c: string)
    requires p <= |s| && s[p..] == a + b + c
    ensures p + |a| + |b| <= |s|
    ensures s[p..p + |a|] == a && s[p + |a|..p + |a| + |b|] == b && s[p + |a| + |b|..] == c
  {
    var i, e := p + |a|, p + |a| + |b|;
    assert s[p..i] == s[p..][..|a|];
    assert s[i..e] == s[p..][|a|..|a| + |b|];
    assert s[e..] == s[p..][|a| + |b|..];
  }

  lemma NoBacktickAt(s: string, p: nat, e: nat, x: string)
    requires p <= e <= |s| && s[p..e] == x && NoBacktick(x)
    ensures forall k :: p <= k < e ==> s[k] != '`'
  {
    forall k | p <= k < e ensures s[k] != '`' {
      assert s[k] == s[p..e][k - p];
    }
  }

  lemma {:induction false} SplitInterleaveFrom(s: string, p: nat, xs: seq<string>, ys: seq<string>)
    requires |xs| == |ys| + 1 && p <= |s| && s[p..] == Interleave(xs, ys)
    requires forall j :: 0 <= j < |xs| ==> NoBacktick(xs[j])
    requires forall j :: 0 <= j < |ys| ==> KeepText(ys[j])
    ensures SplitFrom(KeepSpan, s, p, p) == InterleavePieces(xs, ys)
    decreases |ys|
  {
    var x := xs[0];
    if ys == [] {
      NoBacktickAt(s, p, |s|, x);
      SplitSkip(s, p, p, |s|);
    } else {
      var y, xs', ys' := ys[0], xs[1..], ys[1..];
      var e := p + |x| + |y| + 2;
      assert Interleave(xs, ys) == x + Ticked(y) + Interleave(xs', ys');
      assert InterleavePieces(xs, ys) == [x, Ticked(y)] + InterleavePieces(xs', ys');
      Cut3(s, p, x, Ticked(y), Interleave(xs', ys'));
      SplitInterleaveFrom(s, e, xs', ys');
      SplitInterleaveStep(s, p, x, y);
    }
  }

  /** A gap without backticks then a ticked segment: the split emits both and goes on after the segment. */
  lemma SplitInterleaveStep(s: string, p: nat, x: string, y: string)
    requires NoBacktick(x) && KeepText(y) && p + |x| + |y| + 2 <= |s|
    requires s[p..p + |x|] == x && s[p + |x|..p + |x| + |y| + 2] == Ticked(y)
    ensures var e := p + |x| + |y| + 2;
      SplitFrom(KeepSpan, s, p, p) == [x, Ticked(y)] + SplitFrom(KeepSpan, s, e, e)
  {
    var i := p + |x|;
    NoBacktickAt(s, p, i, x);
    SplitSkip(s, p, p, i);
    TokenMatch(s, i, y);
    SplitFromMatch(KeepSpan, s, p, i);
  }

  /** Gaps without backticks around kept texts split back into exactly those gaps and ticked segments. */
  lemma SplitInterleave(xs: seq<string>, ys: seq<string>)
    requires |xs| == |ys| + 1
    requires forall j :: 0 <= j < |xs| ==> NoBacktick(xs[j])
    requires forall j :: 0 <= j < |ys| ==> KeepText(ys[j])
    ensures KeepSplit(Interleave(xs, ys)) == InterleavePieces(xs, ys)
  {
    SplitInterleaveFrom(Interleave(xs, ys), 0, xs, ys);
  }
}
