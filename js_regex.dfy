/**
  * The pieces of JavaScript regular-expression and string behaviour the card renderer
  * relies on: the character classes it uses, the sticky match of its two split patterns,
  * and String.prototype.split with a capturing pattern.
  */
module JsRegex {
  import opened Wrappers

  /** The characters JavaScript's `.` does not match. */
  predicate IsLineTerminator(c: char)
  {
    c == '\n' || c == '\r' || c == '\U{2028}' || c == '\U{2029}'
  }

  /** JavaScript's `\s`: ASCII white space, no-break space and the Unicode space separators. */
  predicate IsJsSpace(c: char)
  {
    c == '\t' || c == '\n' || c == '\U{000B}' || c == '\U{000C}' || c == '\r' || c == ' ' ||
    c == '\U{00A0}' || c == '\U{1680}' || ('\U{2000}' <= c <= '\U{200A}') ||
    c == '\U{2028}' || c == '\U{2029}' || c == '\U{202F}' || c == '\U{205F}' ||
    c == '\U{3000}' || c == '\U{FEFF}'
  }

  /** The default keep class `[!,.:;?—–…]`: punctuation that stays visible among the blanks. */
  predicate IsKeepChar(c: char)
  {
    c == '!' || c == ',' || c == '.' || c == ':' || c == ';' || c == '?' ||
    c == '\U{2014}' || c == '\U{2013}' || c == '\U{2026}'
  }

  /** A character left in place by the same-length blanking: white space or a keep character. */
  predicate IsSeparator(c: char) { IsJsSpace(c) || IsKeepChar(c) }

  /** JavaScript string length counts UTF-16 code units: characters above U+FFFF count twice. */
  function Units(c: char): nat { if c as int > 0xFFFF then 2 else 1 }

  function Utf16Len(s: string): nat
  {
    if s == [] then 0 else Utf16Len(s[..|s| - 1]) + Units(s[|s| - 1])
  }

  function Concat(parts: seq<string>): string
  {
    if parts == [] then [] else parts[0] + Concat(parts[1..])
  }

  lemma {:induction false} ConcatSnoc(parts: seq<string>, p: string)
    ensures Concat(parts + [p]) == Concat(parts) + p
  {
    if parts != [] {
      assert (parts + [p])[1..] == parts[1..] + [p];
      ConcatSnoc(parts[1..], p);
    }
  }

  lemma ConcatTake(parts: seq<string>, i: nat)
    requires i < |parts|
    ensures Concat(parts[..i + 1]) == Concat(parts[..i]) + parts[i]
  {
    assert parts[..i + 1] == parts[..i] + [parts[i]];
    ConcatSnoc(parts[..i], parts[i]);
  }

  lemma ConcatOne(x: string)
    ensures Concat([x]) == x
  {
    assert [x][1..] == [];
  }

  lemma {:induction false} ConcatPair(x: string, y: string, rest: seq<string>)
    ensures Concat([x, y] + rest) == x + (y + Concat(rest))
  {
    assert ([x, y] + rest)[1..] == [y] + rest;
    assert ([y] + rest)[1..] == rest;
  }

  lemma {:induction false} Utf16LenAppend(a: string, b: string)
    ensures Utf16Len(a + b) == Utf16Len(a) + Utf16Len(b)
    decreases |b|
  {
    if b != [] {
      var b' := b[..|b| - 1];
      assert (a + b)[..|a + b| - 1] == a + b';
      assert (a + b)[|a + b| - 1] == b[|b| - 1];
      Utf16LenAppend(a, b');
      assert Utf16Len(a + b) == Utf16Len(a + b') + Units(b[|b| - 1]);
    } else {
      assert a + b == a;
    }
  }

  lemma {:induction false} Slices3(s: string, p: nat, q: nat, r: nat)
    requires p <= q <= r <= |s|
    ensures s[p..] == s[p..q] + (s[q..r] + s[r..])
  {
    assert s[q..] == s[q..r] + s[r..];
    assert s[p..] == s[p..q] + s[q..];
  }

  // ---------------------------------------------------------------------------
  // Sticky matches of the two split patterns

  /** The length of the run of `\s` characters that starts at `i`. */
  function SpaceRun(s: string, i: nat): (n: nat)
    requires i <= |s|
    ensures i + n <= |s|
    ensures forall k :: i <= k < i + n ==> IsJsSpace(s[k])
    ensures i + n < |s| ==> !IsJsSpace(s[i + n])
    decreases |s| - i
  {
    if i < |s| && IsJsSpace(s[i]) then 1 + SpaceRun(s, i + 1) else 0
  }

  /**
    * The closing backtick of `.+?` followed by a backtick, when `s[q - 1]` is the last
    * character `.` has consumed so far.
    */
  function KeepEnd(s: string, q: nat): (r: Option<nat>)
    requires 1 <= q <= |s|
    ensures r.Some? ==> q <= r.value < |s| && s[r.value] == '`'
    ensures r.Some? ==> forall k :: q - 1 <= k < r.value ==> !IsLineTerminator(s[k])
    ensures r.Some? ==> forall k :: q <= k < r.value ==> s[k] != '`'
    decreases |s| - q
  {
    if q >= |s| || IsLineTerminator(s[q - 1]) then None
    else if s[q] == '`' then Some(q)
    else KeepEnd(s, q + 1)
  }

  /** The two patterns the renderer splits on. */
  datatype Pattern =
    | Separators   // (\s+|[!,.:;?—–…])
    | KeepSpan     // (`.+?`)

  /** The length of the match of `pat` that starts at `i`, or 0 when none does. */
  function MatchLen(pat: Pattern, s: string, i: nat): (n: nat)
    requires i < |s|
    ensures i + n <= |s|
  {
    if pat.Separators? then
      if IsJsSpace(s[i]) then SpaceRun(s, i) else if IsKeepChar(s[i]) then 1 else 0
    else if s[i] == '`' && i + 1 < |s| then
      var e := KeepEnd(s, i + 2);
      if e.Some? then e.value + 1 - i else 0
    else 0
  }

  /** A backtick match: at least one character between the backticks, no line terminator inside. */
  lemma MatchLenKeep(s: string, i: nat)
    requires i < |s|
    ensures var n := MatchLen(KeepSpan, s, i);
      (s[i] != '`' ==> n == 0) &&
      (n > 0 ==>
         n >= 3 && i + n <= |s| && s[i] == '`' && s[i + n - 1] == '`' &&
         (forall k :: i + 1 <= k < i + n - 1 ==> !IsLineTerminator(s[k])) &&
         (forall k :: i + 2 <= k < i + n - 1 ==> s[k] != '`'))
  {
  }

  /** A separator match is a run of white space or one keep character, and starts at every separator. */
  lemma MatchLenSeparators(s: string, i: nat)
    requires i < |s|
    ensures var n := MatchLen(Separators, s, i);
      (n > 0 <==> IsSeparator(s[i])) && forall k :: i <= k < i + n ==> IsSeparator(s[k])
  {
  }

  lemma {:induction false} SpaceRunShift(s: string, i: nat, j: nat)
    requires i + j <= |s|
    ensures SpaceRun(s, i + j) == SpaceRun(s[i..], j)
    decreases |s| - (i + j)
  {
    if i + j < |s| {
      SpaceRunShift(s, i, j + 1);
    }
  }

  lemma {:induction false} KeepEndShift(s: string, i: nat, q: nat)
    requires 1 <= q && i + q <= |s|
    ensures var r := KeepEnd(s[i..], q);
      KeepEnd(s, i + q) == if r.Some? then Some(i + r.value) else None
    decreases |s| - (i + q)
  {
    if i + q < |s| {
      KeepEndShift(s, i, q + 1);
    }
  }

  /** A match depends only on the text from its start onwards. */
  lemma MatchLenShift(pat: Pattern, s: string, i: nat, j: nat)
    requires i + j < |s|
    ensures MatchLen(pat, s, i + j) == MatchLen(pat, s[i..], j)
  {
    if pat.Separators? {
      SpaceRunShift(s, i, j);
    } else if s[i + j] == '`' && i + j + 1 < |s| {
      KeepEndShift(s, i, j + 2);
    }
  }

  /**
    * String.prototype.split with a capturing pattern, from position `q`, while the current
    * piece started at `p`: the pieces between matches alternate with the matched texts.
    */
  function SplitFrom(pat: Pattern, s: string, p: nat, q: nat): (parts: seq<string>)
    requires p <= q <= |s|
    ensures |parts| >= 1
    decreases |s| - q
  {
    if q >= |s| then [s[p..]]
    else
      var n := MatchLen(pat, s, q);
      if n == 0 then SplitFrom(pat, s, p, q + 1)
      else [s[p..q], s[q..q + n]] + SplitFrom(pat, s, q + n, q + n)
  }

  /** A split that meets a match at `q` closes the current piece, emits the match, and starts a new piece after it. */
  lemma SplitFromMatch(pat: Pattern, s: string, p: nat, q: nat)
    requires p <= q < |s| && MatchLen(pat, s, q) > 0
    ensures var e := q + MatchLen(pat, s, q);
      SplitFrom(pat, s, p, q) == [s[p..q], s[q..e]] + SplitFrom(pat, s, e, e)
  {
  }

  function JsSplit(pat: Pattern, s: string): (parts: seq<string>)
  {
    SplitFrom(pat, s, 0, 0)
  }

  /** Joining the pieces of a split gives back the text. */
  lemma {:induction false} SplitFromConcat(pat: Pattern, s: string, p: nat, q: nat)
    requires p <= q <= |s|
    ensures Concat(SplitFrom(pat, s, p, q)) == s[p..]
    decreases |s| - q
  {
    if q < |s| {
      var n := MatchLen(pat, s, q);
      if n == 0 {
        SplitFromConcat(pat, s, p, q + 1);
      } else {
        SplitFromConcat(pat, s, q + n, q + n);
        SplitMatchConcat(pat, s, p, q);
      }
    }
  }

  lemma {:induction false} SplitMatchConcat(pat: Pattern, s: string, p: nat, q: nat)
    requires p <= q < |s| && MatchLen(pat, s, q) > 0
    requires var e := q + MatchLen(pat, s, q); Concat(SplitFrom(pat, s, e, e)) == s[e..]
    ensures Concat(SplitFrom(pat, s, p, q)) == s[p..]
  {
    var e := q + MatchLen(pat, s, q);
    SplitFromMatch(pat, s, p, q);
    ConcatSlices(s, p, q, e, SplitFrom(pat, s, e, e));
  }

  lemma {:induction false} ConcatSlices(s: string, p: nat, q: nat, e: nat, rest: seq<string>)
    requires p <= q <= e <= |s| && Concat(rest) == s[e..]
    ensures Concat([s[p..q], s[q..e]] + rest) == s[p..]
  {
    ConcatPair(s[p..q], s[q..e], rest);
    Slices3(s, p, q, e);
  }

  lemma SplitConcat(pat: Pattern, s: string)
    ensures Concat(JsSplit(pat, s)) == s
  {
    SplitFromConcat(pat, s, 0, 0);
  }
}
