/**
 * The card renderer's `render`: the card number taken from the card's name, the scan for
 * the markers `((cN::content))` with JavaScript's global replace, the split of a marker's
 * content into answer and hint, and the choice between showing the answer and hiding it.
 */
module Render {
  import opened Wrappers
  import opened Text
  import opened JsRegex
  import opened KeepTokens
  import opened Formats
  import opened CardConfig
  import opened ClozeMarkers

  // ---------------------------------------------------------------------------
  // The card number

  /** `card.match(/[^\d]+(\d+)$/)`: the digits that end the card's name, after at least one other character. */
  function CardNumber(card: string): Option<nat>
  {
    var n := TrailingDigitRun(card, |card|);
    if 1 <= n < |card| then Some(DigitsValue(card[|card| - n..])) else None
  }

  lemma {:induction false} TrailingDigitRunFinds(s: string, j: nat, e: nat)
    requires e <= j <= |s| && (e == 0 || !IsDigit(s[e - 1])) && forall k :: e <= k < j ==> IsDigit(s[k])
    ensures TrailingDigitRun(s, j) == j - e
    decreases j - e
  {
    if e < j {
      TrailingDigitRunFinds(s, j - 1, e);
    }
  }

  /** A name made of some text ending in a non-digit and then a numeral has that numeral's number. */
  lemma CardNumberOf(p: string, d: string)
    requires |p| >= 1 && !IsDigit(p[|p| - 1]) && IsNumeral(d)
    ensures CardNumber(p + d) == Some(DigitsValue(d))
  {
    var s := p + d;
    TrailingDigitRunFinds(s, |s|, |p|);
    assert s[|p|..] == d;
  }

  /** There is no card number exactly when the name is all digits or does not end in one. */
  lemma CardNumberNone(card: string)
    ensures CardNumber(card).None? <==> AllDigits(card) || (|card| > 0 && !IsDigit(card[|card| - 1]))
  {
    var n := TrailingDigitRun(card, |card|);
    if n == |card| {
      assert AllDigits(card);
    }
  }

  // ---------------------------------------------------------------------------
  // The marker pattern `\(\(c(\d+)::(.+?\)*)\)\)`

  /** No JavaScript line terminator in `s[a..b]`: what `.` requires of each character it matches. */
  predicate DotFree(s: string, a: nat, b: nat)
  {
    a <= b <= |s| && forall q :: a <= q < b ==> !IsLineTerminator(s[q])
  }

  /** The first `))` at or after `p` such that `.` can cross everything from `j` up to it. */
  function JsClose(s: string, j: nat, p: nat): (r: Option<nat>)
    requires j < p && DotFree(s, j, p - 1)
    decreases |s| - p
    ensures r.Some? ==> p <= r.value && IsClose(s, r.value) && DotFree(s, j, r.value)
                        && forall x :: p <= x < r.value ==> !IsClose(s, x)
  {
    if p + 2 > |s| then None
    else if IsLineTerminator(s[p - 1]) then None
    else if IsClose(s, p) then Some(p)
    else JsClose(s, j, p + 1)
  }

  /** The length of the run of `)` that starts at `i`. */
  function ParenRun(s: string, i: nat): (n: nat)
    requires i <= |s|
    decreases |s| - i
    ensures i + n <= |s|
    ensures forall k :: i <= k < i + n ==> s[k] == ')'
    ensures i + n < |s| ==> s[i + n] != ')'
    ensures IsClose(s, i) ==> n >= 2
  {
    if i < |s| && s[i] == ')' then 1 + ParenRun(s, i + 1) else 0
  }

  /** A match of the renderer's marker pattern: the cloze number, the captured content and the matched length. */
  datatype JsMatch = JsMatch(num: nat, content: string, len: nat)

  /**
   * The marker pattern tried at the start of `s`. The non-greedy `.+?` stops before the
   * first `))` it can reach, and the greedy `\)*` then takes all but the last two of the
   * closing parentheses there into the content.
   */
  function JsMarkerAt(s: string): (r: Option<JsMatch>)
    ensures r.Some? ==> 8 <= r.value.len <= |s|
  {
    if !(|s| >= 3 && s[0] == '(' && s[1] == '(' && s[2] == 'c') then None
    else
      var d := DigitRun(s, 3);
      if d == 0 || 5 + d > |s| || s[3 + d] != ':' || s[4 + d] != ':' then None
      else
        var c := JsClose(s, 5 + d, 6 + d);
        if c.None? then None
        else
          var k := ParenRun(s, c.value);
          Some(JsMatch(DigitsValue(s[3..3 + d]), s[5 + d..c.value + k - 2], c.value + k))
  }

  lemma {:induction false} JsCloseIsPy(s: string, j: nat, p: nat)
    requires j < p && DotFree(s, j, p - 1)
    ensures NoNewline(s, j, p - 1)
    ensures JsClose(s, j, p).Some? ==> PyClose(s, j, p) == JsClose(s, j, p)
    decreases |s| - p
  {
    if p + 2 <= |s| && !IsLineTerminator(s[p - 1]) && !IsClose(s, p) {
      JsCloseIsPy(s, j, p + 1);
    }
  }

  lemma {:induction false} PyCloseIsJs(s: string, j: nat, p: nat)
    requires j < p && DotFree(s, j, p - 1)
    requires PyClose(s, j, p).Some? && DotFree(s, j, PyClose(s, j, p).value)
    ensures JsClose(s, j, p) == PyClose(s, j, p)
    decreases |s| - p
  {
    if !IsClose(s, p) {
      PyCloseIsJs(s, j, p + 1);
    }
  }

  /** Every marker the renderer replaces is one the add-on counts, under the same number. */
  lemma PyMarkerOfJs(s: string)
    requires JsMarkerAt(s).Some?
    ensures PyMarkerAt(s).Some? && PyMarkerAt(s).value.num == JsMarkerAt(s).value.num
    ensures PyMarkerAt(s).value.Len() <= JsMarkerAt(s).value.len
  {
    var d := DigitRun(s, 3);
    JsCloseIsPy(s, 5 + d, 6 + d);
  }

  /**
   * A marker the add-on counts, whose body has no line terminator JavaScript's `.` stops
   * at, is replaced by the renderer under the same number; its content runs on over any
   * further `)` after the body.
   */
  lemma JsMarkerOfPy(s: string, n: nat, d: nat, close: nat)
    requires PyMarkerAt(s) == Some(Match(n, d, close)) && DotFree(s, 5 + d, close)
    ensures JsMarkerAt(s) == Some(JsMatch(n, s[5 + d..close + ParenRun(s, close) - 2], close + ParenRun(s, close)))
  {
    var k := ParenRun(s, close);
    JsMarkerClosed(s, n, d, close, k - 2, s[5 + d..close + k - 2], close + k);
  }

  /** The match the renderer's pattern makes once the opener, the number, the `::` and the `))` are located. */
  lemma JsMarkerAtParts(s: string, d: nat, close: nat, num: nat, content: string, len: nat)
    requires |s| >= 3 && s[0] == '(' && s[1] == '(' && s[2] == 'c'
    requires d == DigitRun(s, 3) && d >= 1 && 5 + d <= |s| && s[3 + d] == ':' && s[4 + d] == ':'
    requires JsClose(s, 5 + d, 6 + d) == Some(close) && num == DigitsValue(s[3..3 + d])
    requires len == close + ParenRun(s, close) && content == s[5 + d..len - 2]
    ensures JsMarkerAt(s) == Some(JsMatch(num, content, len))
  {
  }

  /** A body without line terminators, as JavaScript counts them. */
  predicate JsPlain(body: string)
  {
    PlainBody(body) && forall i :: 0 <= i < |body| ==> !IsLineTerminator(body[i])
  }

  lemma MarkerDotFree(n: nat, body: string, rest: string)
    requires JsPlain(body)
    ensures var j := 5 + |Decimal(n)|; DotFree(MarkerText(n, body) + rest, j, j + |body|)
  {
    MarkerChars(n, body, rest);
  }

  /** The run of `)` at the marker's `))`: those two and the `extra` ones before `rest`. */
  lemma MarkerParens(s: string, close: nat, rest: string, extra: nat)
    requires close + 2 + extra + |rest| == |s| && s[close] == ')' && s[close + 1] == ')'
    requires forall k :: close + 2 <= k < close + 2 + extra ==> s[k] == ')'
    requires s[close + 2 + extra..] == rest && (rest == [] || rest[0] != ')')
    ensures ParenRun(s, close) == 2 + extra
  {
    if rest != [] {
      assert s[close + 2 + extra] == rest[0];
    }
    assert ParenRun(s, close + 2 + extra) == 0;
    ParenRunFinds(s, close, close + 2 + extra);
  }

  lemma {:induction false} ParenRunFinds(s: string, i: nat, e: nat)
    requires i <= e <= |s| && ParenRun(s, e) == 0 && forall k :: i <= k < e ==> s[k] == ')'
    ensures ParenRun(s, i) == e - i
    decreases e - i
  {
    if i < e {
      ParenRunFinds(s, i + 1, e);
    }
  }

  /** A match the add-on finds, whose `))` is followed by `extra` more `)`, as the renderer finds it. */
  lemma JsMarkerClosed(s: string, n: nat, d: nat, close: nat, extra: nat, content: string, len: nat)
    requires PyMarkerAt(s) == Some(Match(n, d, close)) && DotFree(s, 5 + d, close)
    requires ParenRun(s, close) == 2 + extra && len == close + 2 + extra
    requires 5 + d <= close + extra <= |s| && s[5 + d..close + extra] == content
    ensures JsMarkerAt(s) == Some(JsMatch(n, content, len))
  {
    PyCloseIsJs(s, 5 + d, 6 + d);
    JsMarkerAtParts(s, d, close, n, content, len);
  }

  /** Where the parts of a marker followed by `rest` lie, for the renderer's pattern. */
  lemma MarkerLayout(n: nat, body: string, rest: string, s: string, d: nat, close: nat)
    requires JsPlain(body) && (rest == [] || rest[0] != ')')
    requires s == MarkerText(n, body) + rest && d == |Decimal(n)| && close == 5 + d + |body|
    ensures |MarkerText(n, body)| == close + 2 && ParenRun(s, close) == 2 && s[5 + d..close] == body
    ensures DotFree(s, 5 + d, close)
  {
    MarkerChars(n, body, rest);
    MarkerParens(s, close, rest, 0);
    MarkerDotFree(n, body, rest);
  }

  /** The same with one more `)` between the marker and `rest`. */
  lemma MarkerParenLayout(n: nat, body: string, rest: string, s: string, d: nat, close: nat)
    requires JsPlain(body) && (rest == [] || rest[0] != ')')
    requires s == MarkerText(n, body) + (")" + rest) && d == |Decimal(n)| && close == 5 + d + |body|
    ensures |MarkerText(n, body)| == close + 2 && ParenRun(s, close) == 3 && s[5 + d..close + 1] == body + ")"
    ensures DotFree(s, 5 + d, close)
  {
    MarkerChars(n, body, ")" + rest);
    assert s[close + 2] == ')';
    assert s[close + 3..] == rest;
    MarkerParens(s, close, rest, 1);
    MarkerDotFree(n, body, ")" + rest);
  }

  /** A marker with a plain body not followed by `)` is matched whole, its body as content. */
  lemma JsMarkerAtMarker(n: nat, body: string, rest: string)
    requires JsPlain(body) && (rest == [] || rest[0] != ')')
    ensures JsMarkerAt(MarkerText(n, body) + rest) == Some(JsMatch(n, body, |MarkerText(n, body)|))
  {
    var d := |Decimal(n)|;
    MarkerLayout(n, body, rest, MarkerText(n, body) + rest, d, 5 + d + |body|);
    PyMarkerAtMarker(n, body, rest);
    JsMarkerClosed(MarkerText(n, body) + rest, n, d, 5 + d + |body|, 0, body, |MarkerText(n, body)|);
  }

  /**
   * A `)` right after the body is taken into the content, so `((c1::f(x)))` shows `f(x)`
   * (the add-on, which stops at the first `))`, counts the marker all the same, as
   * ClozeMarkers.ClozeNumsMarker says for the text `")" + rest` after it).
   */
  lemma JsMarkerAtParen(n: nat, body: string, rest: string)
    requires JsPlain(body) && (rest == [] || rest[0] != ')')
    ensures JsMarkerAt(MarkerText(n, body) + (")" + rest))
         == Some(JsMatch(n, body + ")", |MarkerText(n, body)| + 1))
  {
    var d := |Decimal(n)|;
    MarkerParenLayout(n, body, rest, MarkerText(n, body) + (")" + rest), d, 5 + d + |body|);
    PyMarkerAtMarker(n, body, ")" + rest);
    JsMarkerClosed(MarkerText(n, body) + (")" + rest), n, d, 5 + d + |body|, 1, body + ")", |MarkerText(n, body)| + 1);
  }

  // ---------------------------------------------------------------------------
  // The hint: `content.split(/::/)`

  /** `::` starts at position `q` of `s`. */
  predicate IsPair(s: string, q: nat) { q + 2 <= |s| && s[q] == ':' && s[q + 1] == ':' }

  predicate NoPair(s: string) { forall q :: 0 <= q < |s| ==> !IsPair(s, q) }

  /** The split on `::` from position `q`, while the current piece started at `p`. */
  function PairSplitFrom(s: string, p: nat, q: nat): (parts: seq<string>)
    requires p <= q <= |s|
    decreases |s| - q
    ensures |parts| >= 1
  {
    if q + 2 > |s| then [s[p..]]
    else if IsPair(s, q) then [s[p..q]] + PairSplitFrom(s, q + 2, q + 2)
    else PairSplitFrom(s, p, q + 1)
  }

  /** The answer and the hint of a marker's content: a hint only when the split gives exactly two pieces. */
  function SplitHint(content: string): (string, Option<string>)
  {
    var parts := PairSplitFrom(content, 0, 0);
    if |parts| == 2 then (parts[0], Some(parts[1])) else (content, None)
  }

  lemma {:induction false} PairSkip(s: string, p: nat, q: nat, e: nat)
    requires p <= q <= e <= |s| && forall k :: q <= k < e ==> !IsPair(s, k)
    ensures PairSplitFrom(s, p, q) == PairSplitFrom(s, p, e)
    decreases e - q
  {
    if q < e && q + 2 <= |s| {
      PairSkip(s, p, q + 1, e);
    }
  }

  lemma {:induction false} PairTail(s: string, p: nat, q: nat)
    requires p <= q <= |s| && forall k :: q <= k < |s| ==> !IsPair(s, k)
    ensures PairSplitFrom(s, p, q) == [s[p..]]
    decreases |s| - q
  {
    if q + 2 <= |s| {
      PairTail(s, p, q + 1);
    }
  }

  /** Content without `::` has no hint. */
  lemma SplitHintNone(content: string)
    requires NoPair(content)
    ensures SplitHint(content) == (content, None)
  {
    PairTail(content, 0, 0);
  }

  /** `a::h`, with no colon in the answer and no `::` in the hint, is the answer `a` with the hint `h`. */
  lemma SplitHintOf(a: string, h: string)
    requires Free(a, ':') && NoPair(h)
    ensures SplitHint(a + "::" + h) == (a, Some(h))
  {
    var s := a + "::" + h;
    var e := |a| + 2;
    assert forall k :: 0 <= k < |a| ==> s[k] == a[k];
    PairSkip(s, 0, 0, |a|);
    assert IsPair(s, |a|);
    assert forall k :: e <= k < |s| ==> s[k] == h[k - e];
    forall k | e <= k < |s| ensures !IsPair(s, k) {
      if IsPair(s, k) {
        assert IsPair(h, k - e);
      }
    }
    PairTail(s, e, e);
    assert s[..|a|] == a && s[e..] == h;
  }

  /** Two `::` make no hint: the content is kept whole, separators included. */
  lemma SplitHintTwoPairs(a: string, b: string, c: string)
    requires Free(a, ':') && Free(b, ':')
    ensures SplitHint(a + "::" + b + "::" + c) == (a + "::" + b + "::" + c, None)
  {
    var s := a + "::" + b + "::" + c;
    var e := |a| + 2;
    assert forall k :: 0 <= k < |a| ==> s[k] == a[k];
    PairSkip(s, 0, 0, |a|);
    assert IsPair(s, |a|);
    assert forall k :: e <= k < e + |b| ==> s[k] == b[k - e];
    PairSkip(s, e, e, e + |b|);
    assert IsPair(s, e + |b|);
  }

  // ---------------------------------------------------------------------------
  // Showing or hiding a cloze

  /** How one marker is rendered. */
  datatype Shown =
    | RevealedCurrent          // the answer, in a `current-cloze` span
    | Revealed                 // the answer as it is
    | Concealed(classes: string)  // blanks and hint, in a span with these classes

  /** The `showBefore`/`showAfter` policy for a cloze `distance` away from the current one. */
  function Policy(value: string, distance: nat): Shown
  {
    if value == "all" then Revealed
    else if IsNumeral(value) && distance <= DigitsValue(value) then Revealed
    else Concealed("other-cloze")
  }

  /** Which way the marker numbered `num` is rendered on the card for cloze `cur`. */
  function Visibility(isBack: bool, num: nat, cur: nat, before: string, after: string): Shown
  {
    if isBack then (if num == cur then RevealedCurrent else Revealed)
    else if num == cur then Concealed("current-cloze")
    else if num < cur then Policy(before, cur - num)
    else Policy(after, num - cur)
  }

  /** The replacement of one matched marker. */
  function Replacement(cfg: Config, isBack: bool, cur: nat, m: JsMatch): string
  {
    var (content, hint) := SplitHint(m.content);
    match Visibility(isBack, m.num, cur, cfg.showBefore, cfg.showAfter)
    case RevealedCurrent => WrapSpan(StripKeepChars(content), "current-cloze")
    case Revealed => StripKeepChars(content)
    case Concealed(classes) => ReplaceContent(cfg, content, hint, classes)
  }

  /** The back of a card hides nothing, and marks out the current cloze alone. */
  lemma VisibilityBack(num: nat, cur: nat, before: string, after: string)
    ensures !Visibility(true, num, cur, before, after).Concealed?
    ensures Visibility(true, num, cur, before, after).RevealedCurrent? <==> num == cur
  {
  }

  /** The front of a card hides the current cloze, whatever the policies. */
  lemma VisibilityFrontCurrent(cur: nat, before: string, after: string)
    ensures Visibility(false, cur, cur, before, after) == Concealed("current-cloze")
  {
  }

  /** A cloze `d` before the current one is shown under `showBefore` as one `d` after is under `showAfter`. */
  lemma VisibilityMirror(cur: nat, d: nat, before: string, after: string)
    requires 1 <= d <= cur
    ensures Visibility(false, cur - d, cur, before, after) == Visibility(false, cur + d, cur, after, before)
  {
  }

  /** Another cloze is shown or hidden by a policy, and hidden with the `other-cloze` class. */
  lemma VisibilityOther(num: nat, cur: nat, before: string, after: string)
    requires num != cur
    ensures var v := Visibility(false, num, cur, before, after);
      (v.Revealed? || v == Concealed("other-cloze"))
      && (v.Revealed? <==> if num < cur then Policy(before, cur - num).Revealed? else Policy(after, num - cur).Revealed?)
  {
  }

  /** A policy that shows a cloze shows every nearer one. */
  lemma PolicyMonotone(value: string, d1: nat, d2: nat)
    requires d1 <= d2 && Policy(value, d2).Revealed?
    ensures Policy(value, d1).Revealed?
  {
  }

  /** `all` shows every other cloze. */
  lemma PolicyAll(d: nat)
    ensures Policy("all", d) == Revealed
  {
  }

  /** A number N shows the clozes at most N away (so 0 shows none). */
  lemma PolicyNumber(n: nat, d: nat)
    ensures Policy(Decimal(n), d) == if d <= n then Revealed else Concealed("other-cloze")
  {
    DecimalValue(n);
    assert Decimal(n) != "all" by {
      assert IsDigit(Decimal(n)[0]);
    }
  }

  /** Any other value, `none` among them, shows no other cloze. */
  lemma PolicyOther(value: string, d: nat)
    requires value != "all" && !IsNumeral(value)
    ensures Policy(value, d) == Concealed("other-cloze")
  {
  }

  /** On the back the hint is dropped: `a::h` shows as `a` would, whatever `h` is. */
  lemma BackIgnoresHint(cfg: Config, cur: nat, n: nat, a: string, h: string, len: nat)
    requires Free(a, ':') && NoPair(h) && NoPair(a)
    ensures Replacement(cfg, true, cur, JsMatch(n, a + "::" + h, len))
         == Replacement(cfg, true, cur, JsMatch(n, a, len))
  {
    SplitHintOf(a, h);
    SplitHintNone(a);
  }

  // ---------------------------------------------------------------------------
  // The global replace

  /** `innerHTML.replace(markerRegex, callback)`: each match replaced, the scan resuming after it. */
  function RenderMarkers(cfg: Config, isBack: bool, cur: nat, s: string): string
    decreases |s|
  {
    if s == [] then []
    else
      var m := JsMarkerAt(s);
      if m.Some? then Replacement(cfg, isBack, cur, m.value) + RenderMarkers(cfg, isBack, cur, s[m.value.len..])
      else [s[0]] + RenderMarkers(cfg, isBack, cur, s[1..])
  }

  /** Text without `((c` is left as it is. */
  lemma {:induction false} RenderNoOpener(cfg: Config, isBack: bool, cur: nat, s: string)
    requires NoOpener(s)
    ensures RenderMarkers(cfg, isBack, cur, s) == s
    decreases |s|
  {
    if s != [] {
      assert JsMarkerAt(s).None?;
      assert NoOpener(s[1..]);
      RenderNoOpener(cfg, isBack, cur, s[1..]);
      assert s == [s[0]] + s[1..];
    }
  }

  /** A leading marker is replaced, and the rest of the text is rendered after it. */
  lemma RenderMarker(cfg: Config, isBack: bool, cur: nat, n: nat, body: string, rest: string)
    requires JsPlain(body) && (rest == [] || rest[0] != ')')
    ensures RenderMarkers(cfg, isBack, cur, MarkerText(n, body) + rest)
         == Replacement(cfg, isBack, cur, JsMatch(n, body, |MarkerText(n, body)|)) + RenderMarkers(cfg, isBack, cur, rest)
  {
    JsMarkerAtMarker(n, body, rest);
    var s := MarkerText(n, body) + rest;
    assert s[|MarkerText(n, body)|..] == rest;
  }

  /** A character that cannot open a marker is kept, and the scan moves on. */
  lemma RenderSkip(cfg: Config, isBack: bool, cur: nat, c: char, s: string)
    requires c != '('
    ensures RenderMarkers(cfg, isBack, cur, [c] + s) == [c] + RenderMarkers(cfg, isBack, cur, s)
  {
    assert ([c] + s)[1..] == s;
  }

  /** The `#cloze` element the renderer rewrites. */
  class ClozeElement {
    var innerHTML: string
    var classList: set<string>
    const card: string

    constructor(html: string, card: string)
      ensures innerHTML == html && classList == {} && this.card == card
    {
      innerHTML := html;
      classList := {};
      this.card := card;
    }

    /** `render()`: replaces the markers when the card's name has a number, then shows the element. */
    method Render(cfg: Config, isBack: bool)
      modifies this
      ensures var cur := CardNumber(card);
        innerHTML == if cur.Some? then RenderMarkers(cfg, isBack, cur.value, old(innerHTML)) else old(innerHTML)
      ensures classList == old(classList) + {"show"}
    {
      var cardMatch := CardNumber(card);
      if cardMatch.Some? {
        innerHTML := RenderMarkers(cfg, isBack, cardMatch.value, innerHTML);
      }
      classList := classList + {"show"};
    }
  }
}
