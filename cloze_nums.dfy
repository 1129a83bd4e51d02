/**
 * The cloze-number extractor of the add-on (`get_cloze_nums`): the set of
 * numbers N of the markers `((cN::text))` in a field, found the way Python's
 * `re.findall(r"\(\(c(\d+)::.+?\)\)", content)` finds them: scanning left to
 * right, a match consumes its text and the scan resumes after it, and the
 * non-greedy `.+?` (at least one character, none of them a newline) stops at
 * the first `))` that follows.
 */
module ClozeMarkers {
  import opened Wrappers
  import opened Text

  /** `))` starts at position `q` of `s`. */
  predicate IsClose(s: string, q: nat) { q + 2 <= |s| && s[q] == ')' && s[q + 1] == ')' }

  /** No newline in `s[a..b]`: what Python's `.` requires of each character it matches. */
  predicate NoNewline(s: string, a: nat, b: nat)
  {
    a <= b <= |s| && forall q :: a <= q < b ==> s[q] != '\n'
  }

  /**
   * The shape of a match of the marker regex at the start of `s`: `((c`, the
   * `digits` ASCII digits, `::`, a body of at least one newline-free character
   * and the first `))` after it, at position `close`.
   */
  predicate PyMarkerShape(s: string, digits: nat, close: nat)
  {
    && 5 + digits < close && close + 2 <= |s|
    && s[0] == '(' && s[1] == '(' && s[2] == 'c'
    && digits >= 1 && (forall k :: 3 <= k < 3 + digits ==> IsDigit(s[k]))
    && s[3 + digits] == ':' && s[4 + digits] == ':'
    && NoNewline(s, 5 + digits, close) && IsClose(s, close)
    && forall x :: 5 + digits < x < close ==> !IsClose(s, x)
  }

  /** A match at the start of the scanned text: its cloze number and where its parts lie. */
  datatype Match = Match(num: nat, digits: nat, close: nat)
  {
    /** Length of the matched text. */
    function Len(): nat { close + 2 }
  }

  /**
   * The first `))` at or after `p` whose preceding body `s[j..]` is newline
   * free: the non-greedy `.+?` extended one character at a time.
   */
  function PyClose(s: string, j: nat, p: nat): (r: Option<nat>)
    requires j < p && NoNewline(s, j, p - 1)
    decreases |s| - p
    ensures r.Some? ==> p <= r.value && IsClose(s, r.value) && NoNewline(s, j, r.value)
                        && forall x :: p <= x < r.value ==> !IsClose(s, x)
    ensures r.None? ==> forall x :: p <= x && NoNewline(s, j, x) ==> !IsClose(s, x)
  {
    if p + 2 > |s| then None
    else if s[p - 1] == '\n' then None
    else if IsClose(s, p) then Some(p)
    else PyClose(s, j, p + 1)
  }

  /** The digit run of a marker shape is the whole run of digits after `((c`. */
  lemma ShapeDigits(s: string, d: nat, q: nat)
    requires PyMarkerShape(s, d, q)
    ensures d == DigitRun(s, 3)
  {
  }

  /** The marker regex tried at the start of `s`. It matches exactly when the marker shape is there. */
  function PyMarkerAt(s: string): (r: Option<Match>)
    ensures r.Some? ==> PyMarkerShape(s, r.value.digits, r.value.close)
                        && r.value.num == DigitsValue(s[3..3 + r.value.digits])
    ensures r.Some? ==> r.value.digits == DigitRun(s, 3)
                        && PyClose(s, 5 + r.value.digits, 6 + r.value.digits) == Some(r.value.close)
    ensures r.None? ==> forall d: nat, q: nat :: !PyMarkerShape(s, d, q)
  {
    if !(|s| >= 3 && s[0] == '(' && s[1] == '(' && s[2] == 'c') then None
    else
      var d := DigitRun(s, 3);
      if d == 0 || 5 + d > |s| || s[3 + d] != ':' || s[4 + d] != ':' then
        assert forall d': nat, q: nat :: !PyMarkerShape(s, d', q) by {
          forall d': nat, q: nat | PyMarkerShape(s, d', q) ensures false { ShapeDigits(s, d', q); }
        }
        None
      else
        var c := PyClose(s, 5 + d, 6 + d);
        if c.None? then
          assert forall d': nat, q: nat :: !PyMarkerShape(s, d', q) by {
            forall d': nat, q: nat | PyMarkerShape(s, d', q) ensures false { ShapeDigits(s, d', q); }
          }
          None
        else
          Some(Match(DigitsValue(s[3..3 + d]), d, c.value))
  }

  /** `get_cloze_nums(content)`: the numbers of all markers found by a left-to-right scan. */
  function ClozeNums(s: string): set<nat>
    decreases |s|
  {
    if s == [] then {}
    else
      var m := PyMarkerAt(s);
      if m.Some? then {m.value.num} + ClozeNums(s[m.value.Len()..]) else ClozeNums(s[1..])
  }

  /** The marker text `((cN::body))` for cloze number `n`. */
  function MarkerText(n: nat, body: string): string
  {
    "((c" + Decimal(n) + "::" + body + "))"
  }

  /**
   * A body that the marker regex takes whole: non-empty, newline free, with
   * no `))` inside and no `)` at its end (which would close the marker early).
   */
  predicate PlainBody(body: string)
  {
    && |body| >= 1 && body[|body| - 1] != ')'
    && (forall i :: 0 <= i < |body| ==> body[i] != '\n')
    && (forall i :: 0 <= i < |body| - 1 ==> !(body[i] == ')' && body[i + 1] == ')'))
  }

  /** No `((c` anywhere in `s`, so no marker can start. */
  predicate NoOpener(s: string)
  {
    forall i :: 0 <= i < |s| - 2 ==> !(s[i] == '(' && s[i + 1] == '(' && s[i + 2] == 'c')
  }

  /** Two matches with the same digits close at the same `))`, the first one. */
  lemma ShapeUnique(s: string, d: nat, q1: nat, q2: nat)
    requires PyMarkerShape(s, d, q1) && PyMarkerShape(s, d, q2)
    ensures q1 == q2
  {
  }

  /** Where the parts of `MarkerText(n, body) + rest` lie. */
  lemma MarkerChars(n: nat, body: string, rest: string)
    ensures var s, D := MarkerText(n, body) + rest, Decimal(n);
            && |s| == 7 + |D| + |body| + |rest|
            && s[0] == '(' && s[1] == '(' && s[2] == 'c'
            && (forall k :: 0 <= k < |D| ==> s[3 + k] == D[k])
            && s[3 + |D|] == ':' && s[4 + |D|] == ':'
            && (forall k :: 0 <= k < |body| ==> s[5 + |D| + k] == body[k])
            && s[5 + |D| + |body|] == ')' && s[6 + |D| + |body|] == ')'
            && s[3..3 + |D|] == D
            && s[7 + |D| + |body|..] == rest
  {
    var D := Decimal(n);
    var s := MarkerText(n, body) + rest;
    assert s == "((c" + D + "::" + body + "))" + rest;
    assert s[3..3 + |D|] == D;
  }

  lemma MarkerDigits(n: nat, body: string, rest: string)
    ensures forall k :: 3 <= k < 3 + |Decimal(n)| ==> IsDigit((MarkerText(n, body) + rest)[k])
  {
    MarkerChars(n, body, rest);
  }

  /** A plain body laid out at `s[j..]` and followed by `))` is newline free and closes only at its end. */
  lemma PlainBodyAt(s: string, j: nat, body: string)
    requires PlainBody(body) && j + |body| + 2 <= |s|
    requires forall k :: 0 <= k < |body| ==> s[j + k] == body[k]
    requires s[j + |body|] == ')'
    ensures NoNewline(s, j, j + |body|)
    ensures forall x :: j < x < j + |body| ==> !IsClose(s, x)
  {
    var q := j + |body|;
    forall x | j < x < q ensures !IsClose(s, x) {
      if x < q - 1 {
        assert s[x] == body[x - j] && s[x + 1] == body[x - j + 1];
      } else {
        assert s[x] == body[|body| - 1];
      }
    }
    forall x | j <= x < q ensures s[x] != '\n' { assert s[x] == body[x - j]; }
  }

  lemma MarkerBody(n: nat, body: string, rest: string)
    requires PlainBody(body)
    ensures var s, j := MarkerText(n, body) + rest, 5 + |Decimal(n)|;
            && NoNewline(s, j, j + |body|)
            && forall x :: j < x < j + |body| ==> !IsClose(s, x)
  {
    MarkerChars(n, body, rest);
    PlainBodyAt(MarkerText(n, body) + rest, 5 + |Decimal(n)|, body);
  }

  /** `MarkerText(n, body) + rest` has the marker shape when the body is plain. */
  lemma MarkerShape(n: nat, body: string, rest: string)
    requires PlainBody(body)
    ensures PyMarkerShape(MarkerText(n, body) + rest, |Decimal(n)|, 5 + |Decimal(n)| + |body|)
  {
    MarkerChars(n, body, rest);
    MarkerDigits(n, body, rest);
    MarkerBody(n, body, rest);
  }

  /** Where the marker shape is, the regex matches it, closing at the first `))`. */
  lemma ShapeMatch(s: string, d: nat, q: nat)
    requires PyMarkerShape(s, d, q)
    ensures PyMarkerAt(s) == Some(Match(DigitsValue(s[3..3 + d]), d, q))
  {
    var m := PyMarkerAt(s).value;
    ShapeDigits(s, m.digits, m.close);
    ShapeDigits(s, d, q);
    ShapeUnique(s, d, m.close, q);
  }

  /** A marker with a plain body is matched whole, with its own number. */
  lemma PyMarkerAtMarker(n: nat, body: string, rest: string)
    requires PlainBody(body)
    ensures PyMarkerAt(MarkerText(n, body) + rest)
            == Some(Match(n, |Decimal(n)|, 5 + |Decimal(n)| + |body|))
  {
    var D := Decimal(n);
    var s := MarkerText(n, body) + rest;
    MarkerShape(n, body, rest);
    ShapeMatch(s, |D|, 5 + |D| + |body|);
    MarkerChars(n, body, rest);
    DecimalValue(n);
  }

  /** A leading marker with a plain body contributes its number, and the scan goes on after it. */
  lemma ClozeNumsMarker(n: nat, body: string, rest: string)
    requires PlainBody(body)
    ensures ClozeNums(MarkerText(n, body) + rest) == {n} + ClozeNums(rest)
  {
    PyMarkerAtMarker(n, body, rest);
    MarkerChars(n, body, rest);
  }

  /** A character that cannot open a marker is skipped. */
  lemma ClozeNumsSkip(c: char, s: string)
    requires c != '('
    ensures ClozeNums([c] + s) == ClozeNums(s)
  {
    assert ([c] + s)[1..] == s;
  }

  /** Text without `((c` yields the empty set. */
  lemma {:induction false} ClozeNumsNoOpener(s: string)
    requires NoOpener(s)
    ensures ClozeNums(s) == {}
  {
    if s != [] {
      assert PyMarkerAt(s).None?;
      assert NoOpener(s[1..]);
      ClozeNumsNoOpener(s[1..]);
    }
  }

  /** A marker with an empty body, such as `((c1::))`, contributes nothing: `.+?` needs a character. */
  lemma ClozeNumsEmptyBody(n: nat)
    ensures ClozeNums(MarkerText(n, "")) == {}
  {
    var s := MarkerText(n, "");
    EmptyBodyNoMatch(n);
    EmptyBodyTail(n);
    ClozeNumsNoOpener(s[1..]);
  }

  lemma EmptyBodyNoMatch(n: nat)
    ensures PyMarkerAt(MarkerText(n, "")).None?
  {
    var s := MarkerText(n, "");
    MarkerChars(n, "", "");
    assert s + "" == s;
    forall d: nat, q: nat | PyMarkerShape(s, d, q) ensures false {
      ShapeDigits(s, d, q);
    }
  }

  lemma EmptyBodyTail(n: nat)
    ensures |MarkerText(n, "")| >= 1 && NoOpener(MarkerText(n, "")[1..])
  {
    var s := MarkerText(n, "");
    var D := Decimal(n);
    MarkerChars(n, "", "");
    assert s + "" == s;
    var t := s[1..];
    forall i | 1 <= i < |t| ensures t[i] != '(' {
      assert t[i] == s[i + 1];
      if 2 <= i < 2 + |D| { assert s[i + 1] == D[i - 2]; }
    }
  }

  /** How far the scan moves from the start of `s`: past a match, or one character on. */
  function ScanStep(s: string): (k: nat)
    requires s != []
    ensures 1 <= k <= |s|
  {
    var m := PyMarkerAt(s);
    if m.Some? then m.value.Len() else 1
  }

  /** Whether `findall`, scanning `s` from offset `j`, tries the regex at offset `i`. */
  predicate VisitsFrom(s: string, j: nat, i: nat)
    requires j <= |s|
    decreases |s| - j
  {
    i == j || (j < |s| && j + ScanStep(s[j..]) <= i && VisitsFrom(s, j + ScanStep(s[j..]), i))
  }

  /** Whether `findall`, scanning `s` from its start, tries the regex at offset `i`. */
  predicate Visits(s: string, i: nat) { VisitsFrom(s, 0, i) }

  /** One step of the scan from `j`, as seen from the whole text. */
  lemma VisitsStep(s: string, j: nat, i: nat)
    requires j <= |s| && i != j && VisitsFrom(s, j, i)
    ensures j < |s| && j + ScanStep(s[j..]) <= i && VisitsFrom(s, j + ScanStep(s[j..]), i)
  {
  }

  lemma ClozeNumsHeadAt(s: string, j: nat)
    requires j < |s| && PyMarkerAt(s[j..]).Some?
    ensures PyMarkerAt(s[j..]).value.num in ClozeNums(s[j..])
  {
  }

  /** The numbers found after the first step are among those found from `j`. */
  lemma ClozeNumsTailAt(s: string, j: nat)
    requires j < |s|
    ensures ClozeNums(s[j + ScanStep(s[j..])..]) <= ClozeNums(s[j..])
  {
    var t := s[j..];
    assert t[ScanStep(t)..] == s[j + ScanStep(t)..];
  }

  /** A number not matched at `j` is found after the first step. */
  lemma ClozeNumsTailMemberAt(s: string, j: nat, n: nat)
    requires j <= |s| && n in ClozeNums(s[j..])
    requires !(PyMarkerAt(s[j..]).Some? && PyMarkerAt(s[j..]).value.num == n)
    ensures j < |s| && n in ClozeNums(s[j + ScanStep(s[j..])..])
  {
    var t := s[j..];
    assert t[ScanStep(t)..] == s[j + ScanStep(t)..];
  }

  lemma {:induction false} ClozeNumsSoundFrom(s: string, j: nat, n: nat)
    requires j <= |s| && n in ClozeNums(s[j..])
    ensures exists i :: j <= i < |s| && VisitsFrom(s, j, i) && PyMarkerAt(s[i..]).Some? && PyMarkerAt(s[i..]).value.num == n
    decreases |s| - j
  {
    if PyMarkerAt(s[j..]).Some? && PyMarkerAt(s[j..]).value.num == n {
      assert j < |s| && VisitsFrom(s, j, j);
    } else {
      ClozeNumsTailMemberAt(s, j, n);
      var e := j + ScanStep(s[j..]);
      ClozeNumsSoundFrom(s, e, n);
      var i :| e <= i < |s| && VisitsFrom(s, e, i) && PyMarkerAt(s[i..]).Some? && PyMarkerAt(s[i..]).value.num == n;
      assert VisitsFrom(s, j, i);
    }
  }

  /** The numbers found from a visited position are among those found from where the scan started. */
  lemma {:induction false} VisitsSubset(s: string, j: nat, i: nat)
    requires j <= i < |s| && VisitsFrom(s, j, i)
    ensures ClozeNums(s[i..]) <= ClozeNums(s[j..])
    decreases |s| - j
  {
    if i != j {
      VisitsStep(s, j, i);
      var e := j + ScanStep(s[j..]);
      VisitsSubset(s, e, i);
      ClozeNumsTailAt(s, j);
    }
  }

  lemma InSubset(n: nat, a: set<nat>, b: set<nat>)
    requires n in a && a <= b
    ensures n in b
  {
  }

  /** Every number found is the number of the match at a position the scan visits. */
  lemma ClozeNumsSound(s: string, n: nat)
    requires n in ClozeNums(s)
    ensures exists i :: 0 <= i < |s| && Visits(s, i) && PyMarkerAt(s[i..]).Some? && PyMarkerAt(s[i..]).value.num == n
  {
    assert s[0..] == s;
    ClozeNumsSoundFrom(s, 0, n);
  }

  /** Every match at a position the scan visits contributes its number. */
  lemma ClozeNumsComplete(s: string, i: nat)
    requires i < |s| && Visits(s, i) && PyMarkerAt(s[i..]).Some?
    ensures PyMarkerAt(s[i..]).value.num in ClozeNums(s)
  {
    VisitsSubset(s, 0, i);
    ClozeNumsHeadAt(s, i);
    assert s[0..] == s;
    InSubset(PyMarkerAt(s[i..]).value.num, ClozeNums(s[i..]), ClozeNums(s));
  }

  lemma ExampleTwoMarkersTail(m2: string, tail: string)
    requires m2 == MarkerText(2, "am") && tail == " hungry."
    ensures ClozeNums(" " + m2 + tail) == {2}
  {
    assert NoOpener(tail);
    ClozeNumsNoOpener(tail);
    ClozeNumsMarker(2, "am", tail);
    ClozeNumsSkip(' ', m2 + tail);
    assert " " + m2 + tail == [' '] + (m2 + tail);
  }

  lemma ExampleMarkerText(n: nat, d: string, body: string)
    requires (n == 1 && d == "1") || (n == 2 && d == "2")
    ensures MarkerText(n, body) == "((c" + d + "::" + body + "))"
  {
    assert Decimal(n) == d;
  }

  lemma ExampleTwoMarkersSplit(s: string, m1: string, m2: string)
    requires s == "((c1::I)) ((c2::am)) hungry."
    requires m1 == "((c" + "1" + "::" + "I" + "))"
    requires m2 == "((c" + "2" + "::" + "am" + "))"
    ensures s == m1 + (" " + m2 + " hungry.")
  {
  }

  /** `get_cloze_nums("((c1::I)) ((c2::am)) hungry.")` is `{1, 2}`. */
  lemma ExampleTwoMarkers(s: string)
    requires s == "((c1::I)) ((c2::am)) hungry."
    ensures ClozeNums(s) == {1, 2}
  {
    var m1, m2 := MarkerText(1, "I"), MarkerText(2, "am");
    ExampleMarkerText(1, "1", "I");
    ExampleMarkerText(2, "2", "am");
    ExampleTwoMarkersSplit(s, m1, m2);
    ExampleTwoMarkersTail(m2, " hungry.");
    ClozeNumsMarker(1, "I", " " + m2 + " hungry.");
  }

  lemma ExampleRepeatSplit(s: string, m1: string, m2: string)
    requires s == "((c1::a))((c1::b))"
    requires m1 == "((c" + "1" + "::" + "a" + "))"
    requires m2 == "((c" + "1" + "::" + "b" + "))"
    ensures s == m1 + (m2 + "")
  {
  }

  /** Repeated numbers collapse: `((c1::a))((c1::b))` gives `{1}`. */
  lemma ExampleRepeat(s: string)
    requires s == "((c1::a))((c1::b))"
    ensures ClozeNums(s) == {1}
  {
    var m1, m2 := MarkerText(1, "a"), MarkerText(1, "b");
    ExampleMarkerText(1, "1", "a");
    ExampleMarkerText(1, "1", "b");
    ExampleRepeatSplit(s, m1, m2);
    ClozeNumsNoOpener("");
    ClozeNumsMarker(1, "b", "");
    ClozeNumsMarker(1, "a", m2 + "");
  }
}
