/**
 * The blanks that stand in for a hidden cloze: replace_chars_with_blanks, which keeps the
 * length of the text and its white space and punctuation, and format_blanks, which either
 * does that, or writes a fixed number of blanks, around the segments kept in backticks.
 */
module Blanks {
  import opened Text
  import opened JsRegex
  import opened KeepTokens
  import opened CardConfig

  /** What one character becomes in the same-length blanks: a separator stays, anything else is blanked unit by unit. */
  function BlankChar(rc: string, c: char): string
  {
    if IsSeparator(c) then [c] else Repeat(rc, Units(c))
  }

  /** The same-length blanks of `s`, character by character. */
  function BlankOut(rc: string, s: string): string
  {
    if s == [] then [] else BlankOut(rc, s[..|s| - 1]) + BlankChar(rc, s[|s| - 1])
  }

  /** The text whose characters are counted: HTML reduced to its text when it has a `<`, then marks removed. */
  function PlainText(cfg: Config, content: string): string
  {
    cfg.stripMarks(if '<' in content then cfg.htmlToText(content) else content)
  }

  predicate NoSeparator(p: string) { forall k :: 0 <= k < |p| ==> !IsSeparator(p[k]) }

  predicate AllSeparators(p: string) { forall k :: 0 <= k < |p| ==> IsSeparator(p[k]) }

  /** The pieces of a separator split alternate: text without separators, then separators only. */
  predicate Alternating(parts: seq<string>)
  {
    forall k :: 0 <= k < |parts| ==> if k % 2 == 0 then NoSeparator(parts[k]) else AllSeparators(parts[k])
  }

  // ---------------------------------------------------------------------------
  // replace_chars_with_blanks

  lemma {:induction false} AlternatingPair(a: string, b: string, rest: seq<string>)
    requires NoSeparator(a) && AllSeparators(b) && Alternating(rest)
    ensures Alternating([a, b] + rest)
  {
    var parts := [a, b] + rest;
    forall k | 2 <= k < |parts|
      ensures if k % 2 == 0 then NoSeparator(parts[k]) else AllSeparators(parts[k])
    {
      assert parts[k] == rest[k - 2];
      assert (k - 2) % 2 == k % 2;
    }
  }

  /** Splitting on `(\s+|keep)` from `q`, while the text since `p` has no separator, gives alternating pieces. */
  lemma {:induction false} SeparatorSplitFrom(s: string, p: nat, q: nat)
    requires p <= q <= |s| && forall k :: p <= k < q ==> !IsSeparator(s[k])
    ensures Alternating(SplitFrom(Separators, s, p, q))
    decreases |s| - q
  {
    if q == |s| {
      assert SplitFrom(Separators, s, p, q) == [s[p..]];
    } else {
      var n := MatchLen(Separators, s, q);
      MatchLenSeparators(s, q);
      if n == 0 {
        SeparatorSplitFrom(s, p, q + 1);
      } else {
        SeparatorSplitFrom(s, q + n, q + n);
        assert SplitFrom(Separators, s, p, q) == [s[p..q], s[q..q + n]] + SplitFrom(Separators, s, q + n, q + n);
        AlternatingPair(s[p..q], s[q..q + n], SplitFrom(Separators, s, q + n, q + n));
      }
    }
  }

  lemma {:induction false} BlankOutAppend(rc: string, a: string, b: string)
    ensures BlankOut(rc, a + b) == BlankOut(rc, a) + BlankOut(rc, b)
    decreases |b|
  {
    if b == [] {
      assert a + b == a;
    } else {
      var b' := b[..|b| - 1];
      assert (a + b)[..|a + b| - 1] == a + b';
      assert (a + b)[|a + b| - 1] == b[|b| - 1];
      BlankOutAppend(rc, a, b');
      var last := BlankChar(rc, b[|b| - 1]);
      assert BlankOut(rc, a + b) == BlankOut(rc, a + b') + last;
      assert BlankOut(rc, b) == BlankOut(rc, b') + last;
    }
  }

  /** A piece without separators is blanked as a whole: one replacement per UTF-16 unit. */
  lemma {:induction false} BlankOutGap(rc: string, p: string)
    requires NoSeparator(p)
    ensures BlankOut(rc, p) == Repeat(rc, Utf16Len(p))
  {
    if p != [] {
      var p' := p[..|p| - 1];
      BlankOutGap(rc, p');
      RepeatAdd(rc, Utf16Len(p'), Units(p[|p| - 1]));
    }
  }

  /** A piece of separators only is kept as it is. */
  lemma {:induction false} BlankOutSeparators(rc: string, p: string)
    requires AllSeparators(p)
    ensures BlankOut(rc, p) == p
  {
    if p != [] {
      var p' := p[..|p| - 1];
      BlankOutSeparators(rc, p');
      assert p == p' + [p[|p| - 1]];
    }
  }

  /** One step of the loop below: the blanks of the pieces so far grow by the blanks of the next piece. */
  lemma BlankStep(rc: string, split: seq<string>, i: nat, parts: seq<string>, piece: string)
    requires Alternating(split) && i < |split|
    requires Concat(parts) == BlankOut(rc, Concat(split[..i]))
    requires piece == if i % 2 == 0 then Repeat(rc, Utf16Len(split[i])) else split[i]
    ensures Concat(parts + [piece]) == BlankOut(rc, Concat(split[..i + 1]))
  {
    var p := split[i];
    if i % 2 == 0 {
      BlankOutGap(rc, p);
    } else {
      BlankOutSeparators(rc, p);
    }
    ConcatSnoc(parts, piece);
    ConcatTake(split, i);
    BlankOutAppend(rc, Concat(split[..i]), p);
  }

  /** `replace_chars_with_blanks(content)`: the same-length blanks of the plain text of `content`. */
  method ReplaceCharsWithBlanks(cfg: Config, content: string) returns (r: string)
    ensures r == BlankOut(cfg.replaceChar, PlainText(cfg, content))
  {
    var rc := cfg.replaceChar;
    var text := content;
    if '<' in text {
      text := cfg.htmlToText(text);
    }
    text := cfg.stripMarks(text);
    var split := JsSplit(Separators, text);
    SeparatorSplitFrom(text, 0, 0);
    var parts: seq<string> := [];
    var i := 0;
    while i < |split|
      invariant i <= |split|
      invariant Concat(parts) == BlankOut(rc, Concat(split[..i]))
    {
      var p := split[i];
      var piece: string;
      if i % 2 == 0 {
        piece := Repeat(rc, Utf16Len(p));
      } else {
        piece := p;
      }
      BlankStep(rc, split, i, parts, piece);
      parts := parts + [piece];
      i := i + 1;
    }
    assert split[..|split|] == split;
    SplitConcat(Separators, text);
    r := Concat(parts);
  }

  lemma {:induction false} Utf16Repeat(rc: string, n: nat)
    ensures Utf16Len(Repeat(rc, n)) == n * Utf16Len(rc)
  {
    if n > 0 {
      Utf16Repeat(rc, n - 1);
      Utf16LenAppend(rc, Repeat(rc, n - 1));
    }
  }

  /** With a one-unit replacement character the blanks are exactly as long, in UTF-16 units, as the text. */
  lemma {:induction false} BlankOutUtf16Len(rc: string, s: string)
    requires Utf16Len(rc) == 1
    ensures Utf16Len(BlankOut(rc, s)) == Utf16Len(s)
  {
    if s != [] {
      var s' := s[..|s| - 1];
      var c := s[|s| - 1];
      BlankOutUtf16Len(rc, s');
      Utf16LenAppend(BlankOut(rc, s'), BlankChar(rc, c));
      if IsSeparator(c) {
        assert [c][..0] == [];
      } else {
        Utf16Repeat(rc, Units(c));
      }
    }
  }

  /**
   * On text whose characters are all in the Basic Multilingual Plane, the blanks have one
   * character per character: separators in place, every other character replaced.
   */
  lemma {:induction false} BlankOutPositions(c: char, s: string)
    requires forall k :: 0 <= k < |s| ==> Units(s[k]) == 1
    ensures |BlankOut([c], s)| == |s|
    ensures forall k :: 0 <= k < |s| ==> BlankOut([c], s)[k] == if IsSeparator(s[k]) then s[k] else c
  {
    if s != [] {
      var s' := s[..|s| - 1];
      BlankOutPositions(c, s');
      assert Repeat([c], 1) == [c];
    }
  }

  // ---------------------------------------------------------------------------
  // format_blanks

  /** The blanks for one stretch of text between kept segments (nothing for an empty one). */
  function GapBlanks(cfg: Config, p: string): string
  {
    if p == [] then []
    else if cfg.replaceSameLength then BlankOut(cfg.replaceChar, PlainText(cfg, p))
    else Repeat(cfg.replaceChar, 2)
  }

  /** The pieces of a keep split, read in pairs: the blanks of a gap, then the text the next segment keeps. */
  function SegmentBlanks(cfg: Config, parts: seq<string>): string
  {
    if parts == [] then []
    else if |parts| == 1 then GapBlanks(cfg, parts[0])
    else GapBlanks(cfg, parts[0]) + Inner(parts[1]) + SegmentBlanks(cfg, parts[2..])
  }

  /** What format_blanks returns for `content`. */
  function FormattedBlanks(cfg: Config, content: string): string
  {
    var split := KeepSplit(content);
    if |split| == 1 then
      if cfg.replaceSameLength then BlankOut(cfg.replaceChar, PlainText(cfg, content))
      else Repeat(cfg.replaceChar, 3)
    else SegmentBlanks(cfg, split)
  }

  lemma {:induction false} SegmentBlanksSnoc(cfg: Config, parts: seq<string>, x: string)
    ensures SegmentBlanks(cfg, parts + [x])
         == SegmentBlanks(cfg, parts) + (if |parts| % 2 == 0 then GapBlanks(cfg, x) else Inner(x))
    decreases |parts|
  {
    if |parts| == 0 {
      assert parts + [x] == [x];
    } else if |parts| == 1 {
      assert parts + [x] == [parts[0], x];
      assert [parts[0], x][2..] == [];
    } else {
      var q := parts + [x];
      assert q[2..] == parts[2..] + [x];
      assert SegmentBlanks(cfg, q) == GapBlanks(cfg, parts[0]) + Inner(parts[1]) + SegmentBlanks(cfg, parts[2..] + [x]);
      SegmentBlanksSnoc(cfg, parts[2..], x);
      assert |parts[2..]| % 2 == |parts| % 2;
    }
  }

  /** `format_blanks(content)`. */
  method FormatBlanks(cfg: Config, content: string) returns (r: string)
    ensures r == FormattedBlanks(cfg, content)
  {
    var rc := cfg.replaceChar;
    var split := KeepSplit(content);
    if |split| == 1 {
      if cfg.replaceSameLength {
        r := ReplaceCharsWithBlanks(cfg, content);
      } else {
        r := Repeat(rc, 3);
      }
    } else {
      var parts: seq<string> := [];
      var i := 0;
      while i < |split|
        invariant i <= |split|
        invariant Concat(parts) == SegmentBlanks(cfg, split[..i])
      {
        var p := split[i];
        var piece: string := [];
        if i % 2 == 0 {
          if |p| > 0 {
            if cfg.replaceSameLength {
              piece := ReplaceCharsWithBlanks(cfg, p);
            } else {
              piece := Repeat(rc, 2);
            }
          }
        } else {
          piece := Inner(p);
        }
        assert split[..i + 1] == split[..i] + [p];
        SegmentBlanksSnoc(cfg, split[..i], p);
        if i % 2 == 0 && |p| == 0 {
          assert piece == GapBlanks(cfg, p);
        } else {
          ConcatSnoc(parts, piece);
          parts := parts + [piece];
        }
        i := i + 1;
      }
      assert split[..|split|] == split;
      r := Concat(parts);
    }
  }

  /** Without a backtick segment the blanks are the same-length blanks or exactly three replacement characters. */
  lemma FormattedBlanksNoKeep(cfg: Config, content: string)
    requires !HasKeep(content)
    ensures FormattedBlanks(cfg, content)
         == if cfg.replaceSameLength then BlankOut(cfg.replaceChar, PlainText(cfg, content))
            else Repeat(cfg.replaceChar, 3)
  {
    SplitMany(content);
  }

  /** The blanks for the gaps `xs` around the kept texts `ys`: each gap's blanks, then the text kept after it. */
  function InterleaveBlanks(cfg: Config, xs: seq<string>, ys: seq<string>): string
    requires |xs| == |ys| + 1
    decreases |ys|
  {
    if ys == [] then GapBlanks(cfg, xs[0])
    else GapBlanks(cfg, xs[0]) + ys[0] + InterleaveBlanks(cfg, xs[1..], ys[1..])
  }

  lemma {:induction false} SegmentBlanksInterleave(cfg: Config, xs: seq<string>, ys: seq<string>)
    requires |xs| == |ys| + 1
    ensures SegmentBlanks(cfg, InterleavePieces(xs, ys)) == InterleaveBlanks(cfg, xs, ys)
    decreases |ys|
  {
    if ys != [] {
      var t := Ticked(ys[0]);
      var rest := InterleavePieces(xs[1..], ys[1..]);
      assert ([xs[0], t] + rest)[2..] == rest;
      InnerTicks(t, ys[0]);
      SegmentBlanksInterleave(cfg, xs[1..], ys[1..]);
    }
  }

  /**
   * A text `x0`y0`x1 … `yk`xk` with at least one kept segment: the kept texts appear in
   * order, each between the blanks of the gaps around it, and an empty gap gives no blanks.
   */
  lemma FormattedBlanksSegments(cfg: Config, xs: seq<string>, ys: seq<string>)
    requires |xs| == |ys| + 1 && |ys| >= 1
    requires forall j :: 0 <= j < |xs| ==> NoBacktick(xs[j])
    requires forall j :: 0 <= j < |ys| ==> KeepText(ys[j])
    ensures FormattedBlanks(cfg, Interleave(xs, ys)) == InterleaveBlanks(cfg, xs, ys)
  {
    SplitInterleave(xs, ys);
    SegmentBlanksInterleave(cfg, xs, ys);
  }

  /** In fixed-length mode every non-empty gap becomes exactly two replacement characters. */
  lemma GapBlanksFixed(cfg: Config, p: string)
    requires !cfg.replaceSameLength
    ensures GapBlanks(cfg, p) == if p == [] then [] else cfg.replaceChar + cfg.replaceChar
  {
    if p != [] {
      var rc := cfg.replaceChar;
      assert Repeat(rc, 2) == rc + Repeat(rc, 1);
      assert Repeat(rc, 1) == rc + Repeat(rc, 0);
      assert rc + [] == rc;
    }
  }

  /**
   * A text with one kept segment: the segment's text between the blanks of the gaps around
   * it, and an empty gap gives no blanks.
   */
  lemma FormattedBlanksOneSegment(cfg: Config, x: string, y: string, z: string)
    requires NoBacktick(x) && NoBacktick(z) && KeepText(y)
    ensures FormattedBlanks(cfg, x + "`" + y + "`" + z)
         == (if x == [] then [] else if cfg.replaceSameLength then BlankOut(cfg.replaceChar, PlainText(cfg, x))
             else Repeat(cfg.replaceChar, 2))
            + y
            + (if z == [] then [] else if cfg.replaceSameLength then BlankOut(cfg.replaceChar, PlainText(cfg, z))
               else Repeat(cfg.replaceChar, 2))
  {
    var xs, ys := [x, z], [y];
    assert Interleave(xs, ys) == x + Ticked(y) + Interleave([z], []);
    assert x + "`" + y + "`" + z == Interleave(xs, ys);
    FormattedBlanksSegments(cfg, xs, ys);
    assert InterleaveBlanks(cfg, xs, ys) == GapBlanks(cfg, x) + y + InterleaveBlanks(cfg, [z], []);
  }

  lemma Utf16LenTriple(g: string, a: string, t: string, r1: string, r2: string)
    requires Utf16Len(g) == Utf16Len(a) && Utf16Len(r1) == Utf16Len(r2)
    ensures Utf16Len(g + t + r1) == Utf16Len(a + t + r2)
  {
    Utf16LenAppend(g + t, r1);
    Utf16LenAppend(g, t);
    Utf16LenAppend(a + t, r2);
    Utf16LenAppend(a, t);
  }

  /** In same-length mode, on plain text, a gap's blanks are as long as the gap. */
  /** The gaps of a keep split (its even-indexed pieces) are left alone by HTML extraction and mark removal. */
  predicate GapsPlain(cfg: Config, parts: seq<string>)
  {
    forall k :: 0 <= k < |parts| && k % 2 == 0 ==> PlainText(cfg, parts[k]) == parts[k]
  }

  /** In same-length mode, on a gap that is plain text, the gap's blanks are as long as the gap. */
  lemma GapBlanksLength(cfg: Config, p: string)
    requires cfg.replaceSameLength && Utf16Len(cfg.replaceChar) == 1
    requires PlainText(cfg, p) == p
    ensures Utf16Len(GapBlanks(cfg, p)) == Utf16Len(p)
  {
    if p != [] {
      BlankOutUtf16Len(cfg.replaceChar, p);
    }
  }

  lemma {:induction false} SegmentBlanksLength(cfg: Config, parts: seq<string>)
    requires cfg.replaceSameLength && Utf16Len(cfg.replaceChar) == 1
    requires GapsPlain(cfg, parts)
    ensures Utf16Len(SegmentBlanks(cfg, parts)) == Utf16Len(Reveal(parts))
    decreases |parts|
  {
    if |parts| == 1 {
      assert parts == [parts[0]];
      ConcatOne(parts[0]);
      GapBlanksLength(cfg, parts[0]);
    } else if |parts| >= 2 {
      assert forall k :: 0 <= k < |parts[2..]| && k % 2 == 0 ==> parts[2..][k] == parts[k + 2];
      SegmentBlanksLength(cfg, parts[2..]);
      GapBlanksLength(cfg, parts[0]);
      Utf16LenTriple(GapBlanks(cfg, parts[0]), parts[0], Inner(parts[1]),
                     SegmentBlanks(cfg, parts[2..]), Reveal(parts[2..]));
    }
  }

  /**
   * In same-length mode, when the gaps around the kept segments are text that HTML
   * extraction and mark removal leave alone, the blanks are as long as the answer
   * revealed on the back of the card.
   */
  lemma FormattedBlanksLength(cfg: Config, content: string)
    requires cfg.replaceSameLength && Utf16Len(cfg.replaceChar) == 1
    requires GapsPlain(cfg, KeepSplit(content))
    ensures Utf16Len(FormattedBlanks(cfg, content)) == Utf16Len(StripKeepChars(content))
  {
    RevealSplit(content);
    var split := KeepSplit(content);
    if |split| == 1 {
      SplitConcat(KeepSpan, content);
      ConcatOne(split[0]);
      assert PlainText(cfg, content) == content;
      BlankOutUtf16Len(cfg.replaceChar, content);
    } else {
      SegmentBlanksLength(cfg, split);
    }
  }
}
