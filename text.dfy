/**
 * Character classes and small string operations shared by the model of the
 * Python add-on and the model of the card-side script: ASCII digits and their
 * decimal value, Python's `str.strip`, `str.split(sep, maxsplit)` and `int()`,
 * prefix and suffix tests, and string repetition.
 */
module Text {
  import opened Wrappers

  predicate IsDigit(c: char) { '0' <= c <= '9' }

  predicate AllDigits(s: string) { forall i :: 0 <= i < |s| ==> IsDigit(s[i]) }

  /** A non-empty run of ASCII digits: what the regex `\d+` matches. */
  predicate IsNumeral(s: string) { |s| >= 1 && AllDigits(s) }

  function DigitValue(c: char): nat
    requires IsDigit(c)
  {
    c as int - '0' as int
  }

  /** The decimal value of a digit string; leading zeros are allowed, as in `int("007")`. */
  function DigitsValue(s: string): nat
    requires AllDigits(s)
  {
    if s == [] then 0 else DigitsValue(s[..|s| - 1]) * 10 + DigitValue(s[|s| - 1])
  }

  /** The shortest decimal numeral of `n`, what Python's `str(n)` gives. */
  function Decimal(n: nat): (r: string)
    ensures IsNumeral(r)
  {
    var last := ['0' + (n % 10) as char];
    if n < 10 then last else Decimal(n / 10) + last
  }

  lemma {:induction false} DecimalValue(n: nat)
    ensures DigitsValue(Decimal(n)) == n
  {
    var d := Decimal(n);
    if n >= 10 {
      DecimalValue(n / 10);
      assert d[..|d| - 1] == Decimal(n / 10);
    }
  }

  /** Length of the run of ASCII digits of `s` starting at position `i` (greedy `\d*`). */
  function DigitRun(s: string, i: nat): (n: nat)
    requires i <= |s|
    decreases |s| - i
    ensures i + n <= |s|
    ensures forall k :: i <= k < i + n ==> IsDigit(s[k])
    ensures i + n < |s| ==> !IsDigit(s[i + n])
  {
    if i < |s| && IsDigit(s[i]) then 1 + DigitRun(s, i + 1) else 0
  }

  /** Length of the run of ASCII digits that ends `s[..j]`. */
  function TrailingDigitRun(s: string, j: nat): (n: nat)
    requires j <= |s|
    ensures n <= j
    ensures forall k :: j - n <= k < j ==> IsDigit(s[k])
    ensures n < j ==> !IsDigit(s[j - n - 1])
  {
    if j > 0 && IsDigit(s[j - 1]) then 1 + TrailingDigitRun(s, j - 1) else 0
  }

  predicate StartsWith(s: string, prefix: string) { |prefix| <= |s| && s[..|prefix|] == prefix }

  predicate EndsWith(s: string, suffix: string) { |suffix| <= |s| && s[|s| - |suffix|..] == suffix }

  /** `s` repeated `n` times, JavaScript's `s.repeat(n)`. */
  function Repeat(s: string, n: nat): string
  {
    if n == 0 then "" else s + Repeat(s, n - 1)
  }

  lemma {:induction false} RepeatAdd(s: string, a: nat, b: nat)
    ensures Repeat(s, a + b) == Repeat(s, a) + Repeat(s, b)
  {
    if a > 0 {
      RepeatAdd(s, a - 1, b);
    }
  }

  /** The characters for which Python's `str.isspace()` holds. */
  predicate IsPySpace(c: char)
  {
    c == ' ' || c == '\t' || c == '\n' || c == '\r' || c == '\U{000B}' || c == '\U{000C}'
    || ('\U{001C}' <= c <= '\U{001F}') || c == '\U{0085}' || c == '\U{00A0}' || c == '\U{1680}'
    || ('\U{2000}' <= c <= '\U{200A}') || c == '\U{2028}' || c == '\U{2029}' || c == '\U{202F}'
    || c == '\U{205F}' || c == '\U{3000}'
  }

  /** Number of leading whitespace characters of `s` from position `i` on. */
  function LeadingSpaces(s: string, i: nat): (n: nat)
    requires i <= |s|
    decreases |s| - i
    ensures i + n <= |s|
    ensures forall k :: i <= k < i + n ==> IsPySpace(s[k])
    ensures i + n < |s| ==> !IsPySpace(s[i + n])
  {
    if i < |s| && IsPySpace(s[i]) then 1 + LeadingSpaces(s, i + 1) else 0
  }

  /** Number of trailing whitespace characters of `s[..j]`. */
  function TrailingSpaces(s: string, j: nat): (n: nat)
    requires j <= |s|
    ensures n <= j
    ensures forall k :: j - n <= k < j ==> IsPySpace(s[k])
    ensures n < j ==> !IsPySpace(s[j - n - 1])
  {
    if j > 0 && IsPySpace(s[j - 1]) then 1 + TrailingSpaces(s, j - 1) else 0
  }

  /**
   * Python's `s.strip()`: `s` without its leading and trailing whitespace.
   * Only whitespace lies outside the slice kept, and the slice neither
   * starts nor ends with whitespace.
   */
  function PyStrip(s: string): (r: string)
    ensures r != [] ==> !IsPySpace(r[0]) && !IsPySpace(r[|r| - 1])
  {
    var i := LeadingSpaces(s, 0);
    var n := if i == |s| then 0 else TrailingSpaces(s, |s|);
    assert i < |s| ==> !IsPySpace(s[i]) && n < |s| - i;
    s[i..|s| - n]
  }

  /** A string that neither starts nor ends with whitespace is its own strip. */
  lemma PyStripUnpadded(s: string)
    requires s != [] ==> !IsPySpace(s[0]) && !IsPySpace(s[|s| - 1])
    ensures PyStrip(s) == s
  {
  }

  /** Index of the first occurrence of `c` in `s`. */
  function IndexOf(s: string, c: char): (r: Option<nat>)
    ensures r.Some? ==> r.value < |s| && s[r.value] == c && forall j :: 0 <= j < r.value ==> s[j] != c
    ensures r.None? ==> forall j :: 0 <= j < |s| ==> s[j] != c
  {
    IndexFrom(s, c, 0)
  }

  function IndexFrom(s: string, c: char, i: nat): (r: Option<nat>)
    requires i <= |s|
    decreases |s| - i
    ensures r.Some? ==> i <= r.value < |s| && s[r.value] == c && forall j :: i <= j < r.value ==> s[j] != c
    ensures r.None? ==> forall j :: i <= j < |s| ==> s[j] != c
  {
    if i == |s| then None else if s[i] == c then Some(i) else IndexFrom(s, c, i + 1)
  }

  /** Python's `s.split(sep, maxsplit)` for a one-character separator. */
  function SplitN(s: string, sep: char, maxsplit: nat): (parts: seq<string>)
    ensures 1 <= |parts| <= maxsplit + 1
  {
    var k := if maxsplit == 0 then None else IndexOf(s, sep);
    if k.None? then [s] else [s[..k.value]] + SplitN(s[k.value + 1..], sep, maxsplit - 1)
  }

  /** `sep.join(parts)` */
  function Join(parts: seq<string>, sep: char): string
    requires |parts| >= 1
  {
    if |parts| == 1 then parts[0] else parts[0] + [sep] + Join(parts[1..], sep)
  }

  lemma JoinCons(a: string, rest: seq<string>, sep: char)
    requires |rest| >= 1
    ensures Join([a] + rest, sep) == a + [sep] + Join(rest, sep)
  {
    assert ([a] + rest)[1..] == rest;
  }

  lemma SliceAround(s: string, i: nat, c: char)
    requires i < |s| && s[i] == c
    ensures s[..i] + [c] + s[i + 1..] == s
  {
    assert [c] == s[i..i + 1];
  }

  /** The pieces of `SplitN` put back together with the separator give the original string. */
  lemma {:induction false} SplitNJoin(s: string, sep: char, maxsplit: nat)
    ensures Join(SplitN(s, sep, maxsplit), sep) == s
  {
    if maxsplit > 0 && IndexOf(s, sep).Some? {
      var i := IndexOf(s, sep).value;
      SplitNJoin(s[i + 1..], sep, maxsplit - 1);
      SplitNJoinCut(s, sep, maxsplit, i);
    }
  }

  lemma SplitNJoinCut(s: string, sep: char, maxsplit: nat, i: nat)
    requires maxsplit > 0 && IndexOf(s, sep) == Some(i)
    requires Join(SplitN(s[i + 1..], sep, maxsplit - 1), sep) == s[i + 1..]
    ensures Join(SplitN(s, sep, maxsplit), sep) == s
  {
    var rest := SplitN(s[i + 1..], sep, maxsplit - 1);
    assert SplitN(s, sep, maxsplit) == [s[..i]] + rest;
    JoinCons(s[..i], rest, sep);
    SliceAround(s, i, sep);
  }

  /** `c` does not occur in `s`. */
  predicate Free(s: string, c: char) { forall j :: 0 <= j < |s| ==> s[j] != c }

  /** A separator-free first piece is cut off at the first separator. */
  lemma SplitNCons(p: string, t: string, sep: char, maxsplit: nat)
    requires Free(p, sep) && maxsplit >= 1
    ensures SplitN(p + [sep] + t, sep, maxsplit) == [p] + SplitN(t, sep, maxsplit - 1)
  {
    var s := p + [sep] + t;
    assert forall j :: 0 <= j < |p| ==> s[j] == p[j] && s[j] != sep;
    assert s[|p|] == sep;
    var r := IndexOf(s, sep);
    assert r.Some? && r.value <= |p|;
    assert r.value == |p|;
    assert s[..|p|] == p;
    assert s[|p| + 1..] == t;
  }

  /** Python's `int(s)` on ASCII input: surrounding whitespace, an optional sign, digits separated by single underscores. */
  function PyInt(s: string): Option<int>
  {
    var t := PyStrip(s);
    if |t| >= 1 && (t[0] == '+' || t[0] == '-') then
      match PyUnsigned(t[1..])
      case None => None
      case Some(v) => var n: int := v; Some(if t[0] == '-' then -n else n)
    else
      match PyUnsigned(t)
      case None => None
      case Some(v) => Some(v)
  }

  /** A plain numeral is read as its decimal value. */
  lemma PyIntNumeral(s: string)
    requires IsNumeral(s)
    ensures PyInt(s) == Some(DigitsValue(s))
  {
    PyStripUnpadded(s);
    assert PyDigitGroups(s);
  }

  /** Digit groups joined by single underscores, as Python integer literals allow. */
  predicate PyDigitGroups(s: string)
  {
    && |s| >= 1 && IsDigit(s[0]) && IsDigit(s[|s| - 1]) && DigitsOrUnderscores(s)
    && forall i :: 0 <= i < |s| - 1 ==> s[i] == '_' ==> IsDigit(s[i + 1])
  }

  predicate DigitsOrUnderscores(s: string) { forall i :: 0 <= i < |s| ==> IsDigit(s[i]) || s[i] == '_' }

  function DropUnderscores(s: string): (r: string)
    ensures DigitsOrUnderscores(s) ==> AllDigits(r)
    ensures AllDigits(s) ==> r == s
  {
    if s == [] then [] else (if s[0] == '_' then [] else [s[0]]) + DropUnderscores(s[1..])
  }

  function PyUnsigned(s: string): (r: Option<nat>)
  {
    if PyDigitGroups(s) then Some(DigitsValue(DropUnderscores(s))) else None
  }
}
