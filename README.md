# Cloze Anything

Cloze Anything is an Anki add-on that makes cloze cards from any note type.

- A field whose name ends in `Cloze` (say `ExpressionCloze`) holds text with markers `((cN::answer))` or `((cN::answer::hint))`.
- Companion fields `ExpressionCloze1`, `ExpressionCloze2`, … each generate one card while they hold `1`.

The add-on has two parts.

- **Editor hooks** (Python): they number a new marker, keep the companion fields in step with the markers, and fill an empty `…Cloze` field from its source field.
- **Card script** (JavaScript): it finds the card's own cloze number in the card's name and rewrites every marker.
  - The back of the card reveals every answer.
  - The front hides the current answer behind blanks or its hint.
  - Other clozes on the front are shown or hidden by the `showBefore`/`showAfter` policies.

The Dafny modules follow that split.

| module | file | what it holds |
|---|---|---|
| `Wrappers` | wrappers.dfy | `Option` |
| `Text` | text.dfy | shared pieces: ASCII digits, Python `str.strip`, `str.split(sep, maxsplit)`, `int()`, `str(n)`, and string repetition |
| `ClozeMarkers` | cloze_nums.dfy | `get_cloze_nums`: the Python marker regex scanned the way `re.findall` scans |
| `Companions` | reconcile.dfy | the companion-field pass of `update_cloze_fields`, as a fold, and what it guarantees |
| `EditorHooks` | editor.dfy | an `Editor` class whose note values are an array. It has `UpdateClozeFields`, `OnCloze` and `OnBridgeCmd`, and the bridge-message parser and guards |
| `JsRegex` | js_regex.dfy | the JavaScript pieces the card script uses: `\s`, `.`, UTF-16 length, and `split` with a capturing pattern |
| `KeepTokens` | keep.dfy | backtick keep segments: `strip_keep_chars`, the keep split, and the `content.match` test |
| `Blanks` | blanks.dfy | `replace_chars_with_blanks` and `format_blanks` as loops, each proved equal to a reference definition |
| `Formats` | formats.dfy | `string_format`, `wrap_span`, `replace_content` |
| `CardConfig` | config.dfy | the card settings and their defaults |
| `Render` | render.dfy | `render`: the card number, the JavaScript marker regex, the hint split, the visibility rules, the global replace, and the `#cloze` element as a class |

## Model

| member | source | states |
|---|---|---|
| ClozeMarkers.ClozeNums | cloze_anything/__init__.py:24-40 | definition: `get_cloze_nums`, the set of numbers of the matches found by a left-to-right scan that resumes after each match |
| ClozeMarkers.PyMarkerAt | cloze_anything/__init__.py:34 | the marker regex at the start of the text matches exactly when the marker shape is there (`((c`, digits, `::`, a newline-free body of at least one character, the first `))`); the number is the decimal value of the digits |
| ClozeMarkers.PyMarkerAtMarker | cloze_anything/__init__.py:34 | a marker `((cN::body))` with a plain body is matched whole, with its own number N |
| ClozeMarkers.ClozeNumsMarker | cloze_anything/__init__.py:34-40 | a leading marker adds its number to the set, and the scan resumes after the marker |
| ClozeMarkers.ClozeNumsSkip | cloze_anything/__init__.py:34-40 | a character that cannot open a marker contributes nothing |
| ClozeMarkers.ClozeNumsNoOpener | cloze_anything/__init__.py:35-38 | text without `((c` gives the empty set |
| ClozeMarkers.ClozeNumsEmptyBody | cloze_anything/__init__.py:34 | `((cN::))` is not a marker: `.+?` needs at least one character |
| ClozeMarkers.ClozeNumsSound | cloze_anything/__init__.py:34-36 | every number in the set is the number of the regex match at a position the `findall` scan visits |
| ClozeMarkers.ClozeNumsComplete | cloze_anything/__init__.py:34-36 | the match at every position the scan visits adds its number to the set |
| ClozeMarkers.ExampleTwoMarkers | cloze_anything/__init__.py:28-32 | `((c1::I)) ((c2::am)) hungry.` gives `{1, 2}`, as the docstring says |
| ClozeMarkers.ExampleRepeat | cloze_anything/__init__.py:36 | a number used twice appears once in the set |
| Companions.CompanionIndex | cloze_anything/__init__.py:69-74 | definition: the index of `^base(\d+)$` matched against a field name, or None |
| Companions.Writable | cloze_anything/__init__.py:81 | definition: a value that `strip()` turns into `1` or the empty string |
| Companions.Step | cloze_anything/__init__.py:72-83 | definition: one iteration of the loop over the field list |
| Companions.Reconcile | cloze_anything/__init__.py:68-85 | definition: the loop over `model["flds"]` as a fold of `Step`, giving the new values, the commands and the found set |
| Companions.CompanionIndexIff | cloze_anything/__init__.py:69-74 | the field regex matches a name exactly when it is the source field's name plus a numeral, optionally followed by one final newline (Python's `$`); the index is the numeral's value |
| Companions.SourceNotCompanion | cloze_anything/__init__.py:69 | the source field is never its own companion |
| Companions.CompanionOfDecimal | cloze_anything/__init__.py:69-74 | the field named base + `str(n)` is the companion for index n |
| Companions.ReconcileFound | cloze_anything/__init__.py:70-75 | the found set is exactly the set of companion indices in the field list, whatever was written |
| Companions.ReconcileProtected | cloze_anything/__init__.py:78-83 | a value that is neither `1` nor blank after `strip()` is never overwritten and gets no UI command |
| Companions.ReconcileOther | cloze_anything/__init__.py:71-83 | a position that no companion field refers to, such as the source field's, is left as it was |
| Companions.ReconcileWrites | cloze_anything/__init__.py:76-83 | a writable companion ends up holding munge(`1`) when its index is requested and munge(`<br>`) otherwise, and the command for it carries the bare value |
| Companions.ReconcileUpdatesSound | cloze_anything/__init__.py:81-83 | every UI command comes from a writable companion and carries that companion's value |
| Companions.ReconcileOneUpdateEach | cloze_anything/__init__.py:71-83 | with distinct `ord`s, no position gets two commands |
| Companions.ReconcileSynced | cloze_anything/__init__.py:76-83 | after the pass, every companion that holds a writable value holds the right value for the requested set |
| Companions.ReconcileIdempotent | cloze_anything/__init__.py:43-85 | a second pass with the same set changes nothing |
| Companions.ReconcileResponsive | cloze_anything/__init__.py:76-82 | when munge keeps both marker values writable, a pass after a pass with another set gives what one pass with the new set gives |
| Companions.ReconcileStuckWithIdentity | cloze_anything/__init__.py:76-82 | with munge the identity, a companion switched off (`<br>`) is no longer writable, so a later pass cannot switch it back on |
| EditorHooks.Max | cloze_anything/__init__.py:103 | `max()` of a non-empty set: a member at least as large as all the others |
| EditorHooks.NextClozeNum | cloze_anything/__init__.py:101-108 | the new index: 1 with no markers, else the maximum, plus one unless reusing; without reuse it is larger than every index in use |
| EditorHooks.NextIndexUnique | cloze_anything/__init__.py:101-108 | the numbering rule determines one index |
| EditorHooks.NextIndexFresh | cloze_anything/__init__.py:102-108 | without reuse the new index is not in use yet; with reuse (and markers present) it is |
| EditorHooks.FindOrd | cloze_anything/__init__.py:138 | the `ord` of the first field with the given name, or None when no field has it |
| EditorHooks.PyIndex | cloze_anything/__init__.py:170 | Python list indexing: negative indices count from the end, and out of range is an error |
| EditorHooks.ParseBridge | cloze_anything/__init__.py:159-166 | definition: the `blur:`/`key:` test, `split(":", 3)`, `int(field_idx)` and the guarded `int(nid)` |
| EditorHooks.Target | cloze_anything/__init__.py:159-171 | definition: the guards of onBridgeCmd, giving the field to reconcile and the reported content |
| EditorHooks.ParseBridgeContent | cloze_anything/__init__.py:160-166 | a `blur:`/`key:` message splits into field index, note id and content, and colons inside the content survive; a non-integer note id parses as None |
| EditorHooks.TargetGuards | cloze_anything/__init__.py:160-171 | something is reconciled only when a note is open, the message parses, its note id is a non-zero integer equal to the note's, the index names a field and that field's name ends in `Cloze` |
| EditorHooks.TargetAccepts | cloze_anything/__init__.py:159-171 | conversely, a message for the open note with a truthy matching note id, a valid index and a field name ending in `Cloze` names that field with the reported content |
| EditorHooks.TargetRejectsNoteId | cloze_anything/__init__.py:163-168 | a missing, zero or foreign note id stops the update |
| EditorHooks.TargetRejectsName | cloze_anything/__init__.py:170-171 | a field whose name does not end in `Cloze` is never reconciled |
| EditorHooks.Editor.UpdateClozeFields | cloze_anything/__init__.py:43-85 | the loop over the field list overwrites the note's values in place; the new values, the commands and the found set are those of the fold `Companions.Reconcile` |
| EditorHooks.AsCommands | cloze_anything/__init__.py:110-119 | definition: the wrap command is followed by one field-update command per update reported by update_cloze_fields |
| EditorHooks.Editor.OnCloze | cloze_anything/__init__.py:88-146 | a native cloze model defers to the host. A non-empty field whose name does not end in `Cloze` is refused. Otherwise it gets the next index and the wrap command, its companions are reconciled against the markers plus that index, and the missing set is the requested indices without a companion. An empty `…Cloze` field is filled from the field named without the suffix, or refused when none exists |
| EditorHooks.Editor.OnBridgeCmd | cloze_anything/__init__.py:149-181 | the companions are reconciled from the reported content exactly when the guards pass; the original handler always gets the message |
| Text.SplitNJoin | cloze_anything/__init__.py:161 | joining the pieces of `split(":", 3)` with `:` gives back the message |
| Text.PyIntNumeral | cloze_anything/__init__.py:162-164 | `int()` of a numeral is its decimal value |
| JsRegex.SplitConcat | examples/cloze_anything.js:93 | joining the pieces of a split with a capturing pattern gives back the text |
| KeepTokens.StripFrom | examples/cloze_anything.js:153-157 | definition: the global replace from one position on: a matched segment gives its inner text, any other character stays, and the scan resumes after the match |
| KeepTokens.StripKeepChars | examples/cloze_anything.js:153-157 | definition: the global replace of `` `.+?` `` by the text between the backticks |
| KeepTokens.StripToken | examples/cloze_anything.js:153-157 | a segment `` `x` `` becomes x, and the replace resumes after its closing backtick |
| KeepTokens.StripNoBacktick | examples/cloze_anything.js:153-157 | text without a backtick is left as it is |
| KeepTokens.RevealSplit | examples/cloze_anything.js:113-157 | the keep split, with each kept piece trimmed of its backticks, gives `strip_keep_chars` of the text |
| KeepTokens.HasKeep | examples/cloze_anything.js:163 | definition: `content.match(charKeepRegex)` is not null, that is a backtick segment starts somewhere |
| KeepTokens.SplitMany | examples/cloze_anything.js:114-115 | the keep split has more than one piece exactly when `content.match(charKeepRegex)` succeeds |
| KeepTokens.KeepSplitAlternates | examples/cloze_anything.js:114 | the keep split has an odd number of pieces, and every odd-indexed piece is a matched segment: backtick, at least one character without a line terminator, backtick |
| KeepTokens.SplitInterleave | examples/cloze_anything.js:114 | gaps without backticks around kept texts split back into exactly those gaps and the kept texts in backticks |
| KeepTokens.Interleave | examples/cloze_anything.js:114 | definition: the text `` x0`y0`x1…`yk`xk `` built from gaps and kept texts |
| Blanks.BlankOut | examples/cloze_anything.js:82-106 | definition: the same-length blanks, character by character: a separator stays, any other character becomes one replacement character per UTF-16 unit |
| Blanks.BlankOutGap | examples/cloze_anything.js:96-98 | a piece without separators becomes one replacement character per UTF-16 unit |
| Blanks.BlankOutSeparators | examples/cloze_anything.js:100-103 | a run of separators is kept as it is |
| Blanks.ReplaceCharsWithBlanks | examples/cloze_anything.js:84-106 | the loop over the separator split gives the character-by-character blanks of the plain text: HTML reduced to text when there is a `<`, combining marks removed, separators kept, every other character blanked per UTF-16 unit |
| Blanks.BlankOutUtf16Len | examples/cloze_anything.js:82-83 | with a one-unit replacement character the blanks are exactly as long, in UTF-16 units, as the text |
| Blanks.BlankOutPositions | examples/cloze_anything.js:95-104 | on text within the Basic Multilingual Plane, white space and kept punctuation stay in place and every other character becomes the replacement character |
| Blanks.GapBlanks | examples/cloze_anything.js:126-133 | definition: the blanks of one gap: nothing when it is empty, the same-length blanks in that mode, two replacement characters otherwise |
| Blanks.SegmentBlanks | examples/cloze_anything.js:124-141 | definition: the `forEach` over the keep split, read in pairs: a gap's blanks, then the kept segment without its backticks |
| Blanks.FormattedBlanks | examples/cloze_anything.js:108-143 | definition: the three cases of `format_blanks`, reading the keep split's pieces in pairs |
| Blanks.FormatBlanks | examples/cloze_anything.js:113-143 | the loop gives the reference blanks. With one piece these are the same-length blanks or three replacement characters. Otherwise gaps become same-length blanks or two replacement characters, empty gaps nothing, and kept segments lose their backticks |
| Blanks.FormattedBlanksNoKeep | examples/cloze_anything.js:114-122 | without a backtick segment the result is the same-length blanks or exactly three replacement characters |
| Blanks.FormattedBlanksSegments | examples/cloze_anything.js:124-141 | a text `` x0`y0`x1…`yk`xk `` with gaps free of backticks gives the gap blanks of x0, y0, the gap blanks of x1, and so on: the kept texts in order, an empty gap giving nothing |
| Blanks.InterleaveBlanks | examples/cloze_anything.js:124-141 | definition: the expected blanks for `` x0`y0`x1…`yk`xk ``: each gap's blanks followed by the text kept after it |
| Blanks.GapBlanksFixed | examples/cloze_anything.js:126-133 | in fixed-length mode a non-empty gap becomes exactly two replacement characters and an empty gap nothing |
| Blanks.FormattedBlanksOneSegment | examples/cloze_anything.js:124-141 | `` x`y`z `` gives the gap blanks of x, then y, then those of z. A gap's blanks are nothing when it is empty, the same-length blanks in that mode, and two replacement characters otherwise |
| Blanks.FormattedBlanksLength | examples/cloze_anything.js:108-143 | in same-length mode, with a one-unit replacement character, when the gaps of the keep split are text that HTML extraction and mark removal leave alone, the blanks are as long as the revealed answer |
| Formats.StringFormat | examples/cloze_anything.js:147-151 | definition: the global replace of `{key}` tokens by the dictionary's values |
| Formats.TokenLenIff | examples/cloze_anything.js:148 | a token starts at a position exactly when `{key}` (lower-case letters) is written there |
| Formats.FormatToken | examples/cloze_anything.js:147-151 | a `{key}` token is replaced by the key's value (`undefined` when missing), and the scan resumes after the token, not inside the value |
| Formats.FormatUntouched | examples/cloze_anything.js:147-151 | text where no token starts, including braces around anything other than lower-case letters, is kept |
| Formats.DefaultSingleFormat | examples/cloze_anything.js:23-24 | the default blanks format and the default hint format each put their value in brackets |
| Formats.DefaultBlanksAndHintFormat | examples/cloze_anything.js:25 | the default combined format gives `[blanks|hint]` |
| Formats.WrapSpan | examples/cloze_anything.js:78-80 | definition: the content in a span with the given classes |
| Formats.WrapSpanInjective | examples/cloze_anything.js:78-80 | the span can be taken apart again when the classes contain no quote |
| Formats.ReplaceContent | examples/cloze_anything.js:161-181 | definition: blanks and hint, the hint alone, or the blanks alone, formatted and wrapped in the span |
| Formats.ReplaceContentDefaults | examples/cloze_anything.js:161-181 | with the default formats there are three cases. Blanks and hint together when there is a hint and the blanks are shown (always, or because of a keep segment). The hint alone when there is a hint otherwise. The blanks alone when there is no hint |
| Formats.ReplaceContentEmptyHint | examples/cloze_anything.js:164-170 | an empty hint counts as no hint |
| Formats.ReplaceContentHintHides | examples/cloze_anything.js:163-174 | with a hint, and without always-show or keep segments, the result does not depend on the answer |
| Formats.DefaultsConceal | examples/cloze_anything.js:161-181 | with the default settings, an answer without keep segments becomes `[...]`, or `[hint]` when it has a hint |
| Render.CardNumber | examples/cloze_anything.js:184-187 | definition: the number `[^\d]+(\d+)$` finds at the end of the card name, by `parseInt` |
| Render.CardNumberOf | examples/cloze_anything.js:184-187 | a card name of text ending in a non-digit followed by a numeral has that numeral's number |
| Render.CardNumberNone | examples/cloze_anything.js:184-186 | the card name has no number exactly when it is all digits or does not end in a digit |
| Render.JsMarkerAt | examples/cloze_anything.js:190 | definition: the card script's marker regex tried at the start of the text, with its number and content |
| Render.JsMarkerAtMarker | examples/cloze_anything.js:190 | the card script's marker regex matches a plain marker whole, with the body as content |
| Render.JsMarkerAtParen | examples/cloze_anything.js:190 | a `)` right after the body is taken into the content (`((c1::f(x)))` shows `f(x)`) |
| Render.PyMarkerOfJs | examples/cloze_anything.js:190 | every marker the card script replaces is one the add-on counts, under the same number |
| Render.JsMarkerOfPy | examples/cloze_anything.js:190 | a marker the add-on counts, whose body has no JavaScript line terminator, is replaced by the card script under the same number, its content running over any further `)` |
| Render.SplitHint | examples/cloze_anything.js:191-197 | definition: `content.split(/::/)`, with answer and hint when there are exactly two pieces |
| Render.SplitHintNone | examples/cloze_anything.js:191-197 | content without `::` has no hint |
| Render.SplitHintOf | examples/cloze_anything.js:191-197 | `a::h` with no colon in a and no `::` in h is the answer a with the hint h |
| Render.SplitHintTwoPairs | examples/cloze_anything.js:194 | two `::` give no hint, and the content is kept whole |
| Render.Visibility | examples/cloze_anything.js:199-249 | definition: which cloze is shown, hidden or marked, on the back and on the front |
| Render.Replacement | examples/cloze_anything.js:190-253 | definition: the replace callback for one marker |
| Render.VisibilityBack | examples/cloze_anything.js:199-208 | the back hides nothing and marks out only the current cloze |
| Render.VisibilityFrontCurrent | examples/cloze_anything.js:210-211 | the front hides the current cloze, whatever the policies |
| Render.VisibilityOther | examples/cloze_anything.js:213-246 | another cloze is shown or hidden by its policy, and hidden with the `other-cloze` class |
| Render.VisibilityMirror | examples/cloze_anything.js:213-246 | a cloze d before the current one is treated under `showBefore` as one d after is under `showAfter` |
| Render.Policy | examples/cloze_anything.js:213-246 | definition: whether a `showBefore`/`showAfter` value shows another cloze at a given distance |
| Render.PolicyMonotone | examples/cloze_anything.js:217-238 | a policy that shows a cloze shows every nearer one |
| Render.PolicyAll | examples/cloze_anything.js:213-232 | `all` shows every other cloze |
| Render.PolicyNumber | examples/cloze_anything.js:217-241 | a number N shows the clozes at most N away |
| Render.PolicyOther | examples/cloze_anything.js:226-245 | any other value, `none` included, shows no other cloze |
| Render.BackIgnoresHint | examples/cloze_anything.js:191-207 | on the back the hint is dropped: `a::h` shows as `a` would |
| Render.RenderMarkers | examples/cloze_anything.js:190-253 | definition: the global replace of the markers with the callback |
| Render.RenderNoOpener | examples/cloze_anything.js:190 | text without `((c` is left as it is |
| Render.RenderMarker | examples/cloze_anything.js:190-253 | a leading marker is replaced by its replacement, and the rest is rendered after it |
| Render.RenderSkip | examples/cloze_anything.js:190 | a character that cannot open a marker is kept |
| Render.ClozeElement.Render | examples/cloze_anything.js:183-257 | the element's HTML is rewritten marker by marker when the card name has a number and is left alone otherwise; the `show` class is added either way |

## Left out

- Host calls are not executed. `web.eval`, `tooltip` and the wrapped original handlers become values the methods return. These are a command datatype, a notice datatype, a `DeferToHost` outcome and the forwarded message. The JSON quoting of commands and the wording and sorting of the tooltips are not modelled.
- The regex test for a native cloze model (cloze_anything/__init__.py:91) is a boolean field of the editor. The Alt modifier (line 105) is the `reuse` parameter. `mungeHTML` is a function field.
- EditorHooks.Editor.OnCloze: the exceptions onCloze does not catch (cloze_anything/__init__.py:89-96) are excluded by its precondition. When the model is not a native cloze model, `currentField` is a valid index. So a missing focused field and an index out of range are not modelled.
- Exceptions raised by the host inside onBridgeCmd (from mungeHTML or web.eval) are not modelled.
  - The parse failures the hook swallows are modelled as "no update": too few parts, a non-integer field index, an index out of range.
  - The field index is the only index the model checks. The editor's invariant keeps every `ord` within the note's values.
- Python's `\d` and `int()` accept every Unicode decimal digit. The model accepts ASCII digits only, in both parts.
- `int()` is modelled for ASCII input only: surrounding whitespace, a sign, digits with single underscores.
- `setup()` (cloze_anything/__init__.py:184-188), which installs the hooks, is host plumbing and is not modelled.
- The DOM is not modelled.
  - The `#cloze` element is a class with its HTML, class list and card name.
  - Whether a `#back` element exists is the `isBack` parameter.
  - The final `render()` call at load is not modelled.
- Reading the settings from `data-cloze-*` attributes (examples/cloze_anything.js:29-65) is left out, including the fallback to a default and the comparison with `"true"`. `Config` holds the values that result.
- A custom `data-cloze-keep-regex` is left out. The keep class is fixed to its default `[!,.:;?—–…]`.
- The browser's HTML parser (line 87) and NFD normalisation with removal of U+0300..U+036F (line 92) are given functions of `Config`.
- In `string_format`, JavaScript resolves keys such as `constructor` through the object prototype. The model returns `undefined` for every missing key.
- `parseInt` is exact in the model. JavaScript numbers lose precision above 2^53.
- Strings are sequences of Unicode scalar values, so lone surrogates cannot occur. Lengths are counted in UTF-16 units where the source counts them.
  - `p.slice(1, p.length - 1)` is taken on characters. This equals the UTF-16 slice here because both ends are backticks, one unit each.
- Blanks.BlankOutUtf16Len: the same-length promise is stated for a replacement character of one UTF-16 unit only. A longer replacement character gives longer blanks in the source too.
- Blanks.FormattedBlanksLength: stated only when the gaps of the keep split (the text that gets blanked) are left unchanged by HTML extraction and mark removal. Both are given functions, so nothing more can be said about their effect on length.
