/**
 * The text a hidden cloze turns into on the front of a card: string_format's `{key}`
 * substitution, wrap_span, and replace_content, which picks one of the three formats
 * according to the hint and the kept segments.
 */
module Formats {
  import opened Wrappers
  import opened Text
  import opened KeepTokens
  import opened Blanks
  import opened CardConfig

  predicate IsLower(c: char) { 'a' <= c <= 'z' }

  /** A key the token pattern `\{([a-z]+)\}` can name. */
  predicate IsKey(k: string) { |k| >= 1 && forall j :: 0 <= j < |k| ==> IsLower(k[j]) }

  function LowerRun(s: string, i: nat): (n: nat)
    requires i <= |s|
    ensures i + n <= |s|
    ensures forall k :: i <= k < i + n ==> IsLower(s[k])
    ensures i + n < |s| ==> !IsLower(s[i + n])
    decreases |s| - i
  {
    if i < |s| && IsLower(s[i]) then 1 + LowerRun(s, i + 1) else 0
  }

  /** The length of the `{key}` token that starts at `i`, or 0 when none does. */
  function TokenLen(s: string, i: nat): (n: nat)
    requires i < |s|
    ensures i + n <= |s|
  {
    if s[i] != '{' then 0
    else
      var k := LowerRun(s, i + 1);
      if k >= 1 && i + 1 + k < |s| && s[i + 1 + k] == '}' then k + 2 else 0
  }

  /** `d[key]` as the replacement callback returns it: a missing key becomes the text "undefined". */
  function Lookup(d: map<string, string>, key: string): string
  {
    if key in d then d[key] else "undefined"
  }

  /** The global replace of string_format, from position `i` of the format on. */
  function FormatFrom(fmt: string, d: map<string, string>, i: nat): string
    requires i <= |fmt|
    decreases |fmt| - i
  {
    if i == |fmt| then []
    else
      var n := TokenLen(fmt, i);
      if n == 0 then [fmt[i]] + FormatFrom(fmt, d, i + 1)
      else Lookup(d, fmt[i + 1..i + n - 1]) + FormatFrom(fmt, d, i + n)
  }

  /** `string_format(format, d)`. */
  function StringFormat(fmt: string, d: map<string, string>): string
  {
    FormatFrom(fmt, d, 0)
  }

  /** `wrap_span(content, classes)`. */
  function WrapSpan(content: string, classes: string): string
  {
    "<span class=\"" + classes + "\">" + content + "</span>"
  }

  /** A hint counts when it is there and not empty, as JavaScript's truth test has it. */
  predicate HasHint(hint: Option<string>) { hint.Some? && hint.value != "" }

  /** `replace_content(content, hint, classes)`. */
  function ReplaceContent(cfg: Config, content: string, hint: Option<string>, classes: string): string
  {
    var showBlanks := cfg.alwaysShowBlanks || HasKeep(content);
    var text :=
      if showBlanks && HasHint(hint) then
        StringFormat(cfg.blanksAndHintFormat, map["blanks" := FormattedBlanks(cfg, content), "hint" := hint.value])
      else if HasHint(hint) then
        StringFormat(cfg.hintFormat, map["hint" := hint.value])
      else
        StringFormat(cfg.blanksFormat, map["blanks" := FormattedBlanks(cfg, content)]);
    WrapSpan(text, classes)
  }

  // ---------------------------------------------------------------------------
  // string_format

  lemma {:induction false} LowerRunFinds(s: string, i: nat, e: nat)
    requires i <= e < |s| && !IsLower(s[e]) && forall k :: i <= k < e ==> IsLower(s[k])
    ensures LowerRun(s, i) == e - i
    decreases e - i
  {
    if i < e {
      LowerRunFinds(s, i + 1, e);
    }
  }

  /** A token starts at `i` exactly when `{key}` is written there for some key. */
  lemma TokenLenIff(s: string, i: nat)
    requires i < |s|
    ensures TokenLen(s, i) > 0 <==>
            exists k :: IsKey(k) && i + |k| + 2 <= |s| && s[i..i + |k| + 2] == "{" + k + "}"
  {
    if TokenLen(s, i) > 0 {
      var n := LowerRun(s, i + 1);
      var k := s[i + 1..i + 1 + n];
      assert s[i..i + |k| + 2] == "{" + k + "}";
    }
    if exists k :: IsKey(k) && i + |k| + 2 <= |s| && s[i..i + |k| + 2] == "{" + k + "}" {
      var k :| IsKey(k) && i + |k| + 2 <= |s| && s[i..i + |k| + 2] == "{" + k + "}";
      TokenAt(s, i, k);
    }
  }

  lemma TokenAt(s: string, i: nat, k: string)
    requires IsKey(k) && i + |k| + 2 <= |s| && s[i..i + |k| + 2] == "{" + k + "}"
    ensures TokenLen(s, i) == |k| + 2 && s[i + 1..i + |k| + 1] == k
  {
    assert s[i] == '{';
    assert forall j :: i + 1 <= j < i + 1 + |k| ==> s[j] == k[j - i - 1];
    assert s[i + 1 + |k|] == '}';
    LowerRunFinds(s, i + 1, i + 1 + |k|);
    assert s[i + 1..i + |k| + 1] == k;
  }

  /** A `{key}` token is replaced by the key's value, and the scan goes on after the token, not inside the value. */
  lemma FormatToken(fmt: string, d: map<string, string>, i: nat, k: string)
    requires IsKey(k) && i + |k| + 2 <= |fmt| && fmt[i..i + |k| + 2] == "{" + k + "}"
    ensures FormatFrom(fmt, d, i) == Lookup(d, k) + FormatFrom(fmt, d, i + |k| + 2)
  {
    TokenAt(fmt, i, k);
  }

  /** Text where no token starts, including braces around anything but lower-case letters, is left as it is. */
  lemma {:induction false} FormatUntouched(fmt: string, d: map<string, string>, i: nat)
    requires i <= |fmt| && forall j :: i <= j < |fmt| ==> TokenLen(fmt, j) == 0
    ensures FormatFrom(fmt, d, i) == fmt[i..]
    decreases |fmt| - i
  {
    if i < |fmt| {
      FormatUntouched(fmt, d, i + 1);
      assert fmt[i..] == [fmt[i]] + fmt[i + 1..];
    }
  }

  lemma FormatChar(fmt: string, d: map<string, string>, i: nat)
    requires i < |fmt| && fmt[i] != '{'
    ensures FormatFrom(fmt, d, i) == [fmt[i]] + FormatFrom(fmt, d, i + 1)
  {
  }

  /** A format that ends with one token and a closing bracket. */
  lemma FormatTokenBracket(f: string, d: map<string, string>, j: nat, k: string)
    requires IsKey(k) && j + |k| + 3 == |f| && f[j..] == ("{" + k + "}") + "]"
    ensures FormatFrom(f, d, j) == Lookup(d, k) + "]"
  {
    assert f[j..j + |k| + 2] == "{" + k + "}";
    FormatToken(f, d, j, k);
    FormatChar(f, d, j + |k| + 2);
  }

  /** A format made of one token in brackets. */
  lemma FormatBracketed(f: string, d: map<string, string>, k: string)
    requires IsKey(k) && f == "[" + (("{" + k + "}") + "]")
    ensures StringFormat(f, d) == "[" + Lookup(d, k) + "]"
  {
    assert f[1..] == ("{" + k + "}") + "]";
    FormatChar(f, d, 0);
    FormatTokenBracket(f, d, 1, k);
  }

  /** A format made of two tokens in brackets, separated by one character. */
  lemma FormatBracketedPair(f: string, d: map<string, string>, k1: string, c: char, k2: string)
    requires IsKey(k1) && IsKey(k2) && c != '{'
    requires |k1| + 3 < |f| && f[0] == '[' && f[1..|k1| + 3] == "{" + k1 + "}" && f[|k1| + 3] == c
    requires f[|k1| + 4..] == ("{" + k2 + "}") + "]"
    ensures StringFormat(f, d) == "[" + (Lookup(d, k1) + ([c] + (Lookup(d, k2) + "]")))
  {
    var j := |k1| + 3;
    var t2 := Lookup(d, k2) + "]";
    var t1 := [c] + t2;
    FormatTokenBracket(f, d, j + 1, k2);
    FormatCons(f, d, j, t2);
    assert j == 1 + |k1| + 2 && [f[j]] == [c];
    FormatTokenThen(f, d, 1, k1, t1);
    FormatCons(f, d, 0, Lookup(d, k1) + t1);
  }

  lemma FormatCons(f: string, d: map<string, string>, j: nat, tail: string)
    requires j < |f| && f[j] != '{' && FormatFrom(f, d, j + 1) == tail
    ensures FormatFrom(f, d, j) == [f[j]] + tail
  {
  }

  lemma FormatTokenThen(f: string, d: map<string, string>, i: nat, k: string, tail: string)
    requires IsKey(k) && i + |k| + 2 <= |f| && f[i..i + |k| + 2] == "{" + k + "}"
    requires FormatFrom(f, d, i + |k| + 2) == tail
    ensures FormatFrom(f, d, i) == Lookup(d, k) + tail
  {
    FormatToken(f, d, i, k);
  }

  lemma DefaultKeys()
    ensures IsKey("blanks") && IsKey("hint")
  {
  }

  /** The default blanks format `[{blanks}]` and the default hint format `[{hint}]`: the value in brackets. */
  lemma DefaultSingleFormat(f: string, d: map<string, string>, key: string)
    requires (key == "blanks" && f == "[{blanks}]") || (key == "hint" && f == "[{hint}]")
    ensures StringFormat(f, d) == "[" + Lookup(d, key) + "]"
  {
    DefaultKeys();
    assert f == "[" + (("{" + key + "}") + "]");
    FormatBracketed(f, d, key);
  }

  /** The default format for blanks and a hint. */
  lemma DefaultBlanksAndHintFormat(d: map<string, string>)
    ensures StringFormat("[{blanks}|{hint}]", d) == "[" + Lookup(d, "blanks") + "|" + Lookup(d, "hint") + "]"
  {
    DefaultKeys();
    var f := "[{blanks}|{hint}]";
    assert f[1..9] == "{" + "blanks" + "}";
    assert f[10..] == ("{" + "hint" + "}") + "]";
    FormatBracketedPair(f, d, "blanks", '|', "hint");
    Regroup("[", Lookup(d, "blanks"), "|", Lookup(d, "hint"), "]");
  }

  lemma Regroup(a: string, b: string, c: string, d: string, e: string)
    ensures a + (b + (c + (d + e))) == a + b + c + d + e
  {
  }

  // ---------------------------------------------------------------------------
  // wrap_span and replace_content

  /** The span can be taken apart again: the classes end at the first quote, the content is what is left. */
  lemma WrapSpanInjective(c1: string, k1: string, c2: string, k2: string)
    requires forall j :: 0 <= j < |k1| ==> k1[j] != '"'
    requires forall j :: 0 <= j < |k2| ==> k2[j] != '"'
    requires WrapSpan(c1, k1) == WrapSpan(c2, k2)
    ensures c1 == c2 && k1 == k2
  {
    var w := WrapSpan(c1, k1);
    assert w == "<span class=\"" + k1 + "\">" + c1 + "</span>";
    assert w == "<span class=\"" + k2 + "\">" + c2 + "</span>";
    assert w[13 + |k1|] == '"' && w[13 + |k2|] == '"';
    assert k1 == w[13..13 + |k1|] == k2;
    assert c1 == w[15 + |k1|..|w| - 7] == c2;
  }

  /**
   * With the default formats: blanks in brackets, the hint in brackets, or both separated
   * by a bar when the blanks are shown beside a hint.
   */
  lemma ReplaceContentDefaults(cfg: Config, content: string, hint: Option<string>, classes: string)
    requires cfg.blanksFormat == "[{blanks}]" && cfg.hintFormat == "[{hint}]"
    requires cfg.blanksAndHintFormat == "[{blanks}|{hint}]"
    ensures (cfg.alwaysShowBlanks || HasKeep(content)) && HasHint(hint) ==>
      ReplaceContent(cfg, content, hint, classes)
      == WrapSpan("[" + FormattedBlanks(cfg, content) + "|" + hint.value + "]", classes)
    ensures !(cfg.alwaysShowBlanks || HasKeep(content)) && HasHint(hint) ==>
      ReplaceContent(cfg, content, hint, classes) == WrapSpan("[" + hint.value + "]", classes)
    ensures !HasHint(hint) ==>
      ReplaceContent(cfg, content, hint, classes) == WrapSpan("[" + FormattedBlanks(cfg, content) + "]", classes)
  {
    var blanks := FormattedBlanks(cfg, content);
    if HasHint(hint) {
      DefaultBlanksAndHintFormat(map["blanks" := blanks, "hint" := hint.value]);
      DefaultSingleFormat("[{hint}]", map["hint" := hint.value], "hint");
    } else {
      DefaultSingleFormat("[{blanks}]", map["blanks" := blanks], "blanks");
    }
  }

  /** An empty hint is no hint. */
  lemma ReplaceContentEmptyHint(cfg: Config, content: string, classes: string)
    ensures ReplaceContent(cfg, content, Some(""), classes) == ReplaceContent(cfg, content, None, classes)
  {
  }

  /**
   * A hint hides the blanks unless they are always shown: two answers without kept
   * segments give the same text, whatever their length.
   */
  lemma ReplaceContentHintHides(cfg: Config, c1: string, c2: string, hint: Option<string>, classes: string)
    requires HasHint(hint) && !cfg.alwaysShowBlanks && !HasKeep(c1) && !HasKeep(c2)
    ensures ReplaceContent(cfg, c1, hint, classes) == ReplaceContent(cfg, c2, hint, classes)
  {
  }

  /**
   * With the default settings an answer without kept segments is hidden behind three
   * dots, or behind its hint alone when it has one.
   */
  lemma DefaultsConceal(htmlToText: string -> string, stripMarks: string -> string, content: string,
                        hint: Option<string>, classes: string)
    requires !HasKeep(content)
    ensures ReplaceContent(Defaults(htmlToText, stripMarks), content, hint, classes)
         == WrapSpan(if HasHint(hint) then "[" + hint.value + "]" else "[...]", classes)
  {
    var cfg := Defaults(htmlToText, stripMarks);
    if HasHint(hint) {
      ConcealByHint(cfg, content, hint, classes);
    } else {
      ConcealByDots(cfg, content, hint, classes);
    }
  }

  lemma ConcealByHint(cfg: Config, content: string, hint: Option<string>, classes: string)
    requires cfg.blanksFormat == "[{blanks}]" && cfg.hintFormat == "[{hint}]"
    requires cfg.blanksAndHintFormat == "[{blanks}|{hint}]"
    requires !cfg.alwaysShowBlanks && !HasKeep(content) && HasHint(hint)
    ensures ReplaceContent(cfg, content, hint, classes) == WrapSpan("[" + hint.value + "]", classes)
  {
    ReplaceContentDefaults(cfg, content, hint, classes);
  }

  lemma ConcealByDots(cfg: Config, content: string, hint: Option<string>, classes: string)
    requires cfg.blanksFormat == "[{blanks}]" && cfg.hintFormat == "[{hint}]"
    requires cfg.blanksAndHintFormat == "[{blanks}|{hint}]"
    requires !cfg.replaceSameLength && cfg.replaceChar == "." && !HasKeep(content) && !HasHint(hint)
    ensures ReplaceContent(cfg, content, hint, classes) == WrapSpan("[...]", classes)
  {
    ReplaceContentDefaults(cfg, content, hint, classes);
    FormattedBlanksNoKeep(cfg, content);
    ThreeDots();
  }

  lemma ThreeDots()
    ensures Repeat(".", 3) == "..."
  {
  }
}
