/**
  * The editor hooks: the note's values as an array that update_cloze_fields overwrites
  * in place, the numbering and copy logic of onCloze, and the message parsing and guards
  * of onBridgeCmd.  Host calls (web.eval, tooltip, the wrapped original handlers) become
  * values the methods return.
  */
module EditorHooks {
  import opened Wrappers
  import opened Text
  import opened ClozeMarkers
  import opened Companions

  /** A command evaluated on the editor page. */
  datatype Command =
    | SetField(update: Update)     // $("#f" + ord).html(html)
    | WrapSelection(num: nat)      // wrap('((c<num>::', '))')
    | InsertHtml(html: string)     // setFormat('inserthtml', html)

  /** The tooltips onCloze shows when it refuses. */
  datatype Notice =
    | NotClozeField(field: string)                // cannot cloze unless the name ends in Cloze
    | NoCopySource(field: string, other: string)  // the field to copy from does not exist
    | EmptyNotCloze(field: string)                // empty field whose name does not end in Cloze

  /** What one onCloze call did. */
  datatype ClozeOutcome =
    | DeferToHost                                               // native cloze model: the host's own handler ran
    | Clozed(next: nat, commands: seq<Command>, missing: set<nat>)  // a "Not enough cloze fields" tooltip lists `missing` when it is not empty
    | Copied(from: nat, command: Command)                       // empty field filled from its source field
    | Refused(notice: Notice)

  /** A parsed `blur:`/`key:` message: field index, note id (None when it is not an integer) and content. */
  datatype BridgeMsg = BridgeMsg(fieldIdx: int, nid: Option<int>, content: string)

  /** The field a bridge message asks to reconcile, with the content it reported. */
  datatype BridgeTarget = BridgeTarget(name: string, content: string)

  const Suffix: string := "Cloze"

  function AsCommands(us: seq<Update>): seq<Command>
  {
    seq(|us|, k requires 0 <= k < |us| => SetField(us[k]))
  }

  // ---------------------------------------------------------------------------
  // Numbering

  /** Python's max() over a non-empty set of indices. */
  method Max(nums: set<nat>) returns (m: nat)
    requires nums != {}
    ensures m in nums && forall x :: x in nums ==> x <= m
  {
    m :| m in nums;
    var rest := nums - {m};
    while rest != {}
      invariant rest <= nums && m in nums
      invariant forall x :: x in nums && x !in rest ==> x <= m
      decreases |rest|
    {
      var x :| x in rest;
      if x > m {
        m := x;
      }
      rest := rest - {x};
    }
  }

  /** The numbering rule: 1 for no markers, else the maximum, plus one unless reusing. */
  predicate IsNextIndex(nums: set<nat>, reuse: bool, next: nat)
  {
    if nums == {} then next == 1
    else
      var top: int := if reuse then next else next - 1;
      top in nums && forall x :: x in nums ==> x <= top
  }

  method NextClozeNum(nums: set<nat>, reuse: bool) returns (next: nat)
    ensures IsNextIndex(nums, reuse, next)
    ensures nums != {} && !reuse ==> forall x :: x in nums ==> x < next
  {
    if nums != {} {
      next := Max(nums);
      if !reuse {
        next := next + 1;
      }
    } else {
      next := 1;
    }
  }

  /** The rule picks one index for any set and modifier state. */
  lemma NextIndexUnique(nums: set<nat>, reuse: bool, a: nat, b: nat)
    requires IsNextIndex(nums, reuse, a) && IsNextIndex(nums, reuse, b)
    ensures a == b
  {
    if nums != {} {
      var ta: int := if reuse then a else a - 1;
      var tb: int := if reuse then b else b - 1;
      assert ta <= tb && tb <= ta;
    }
  }

  /** Without reuse the new index is not in use yet; with reuse (and markers present) it is. */
  lemma NextIndexFresh(nums: set<nat>, reuse: bool, next: nat)
    requires IsNextIndex(nums, reuse, next)
    ensures !reuse ==> next !in nums
    ensures reuse && nums != {} ==> next in nums
  {
  }

  // ---------------------------------------------------------------------------
  // The copy source of an empty field

  /** The `ord` of the first field named `name`, as `next(... for f in flds if ...)` returns it. */
  function FindOrd(flds: seq<FieldDef>, name: string, from: nat): (r: Option<nat>)
    requires from <= |flds|
    ensures r.Some? ==> exists i :: from <= i < |flds| && flds[i].name == name && flds[i].ord == r.value &&
                                    forall j :: from <= j < i ==> flds[j].name != name
    ensures r.None? ==> forall i :: from <= i < |flds| ==> flds[i].name != name
    decreases |flds| - from
  {
    if from == |flds| then None
    else if flds[from].name == name then Some(flds[from].ord)
    else FindOrd(flds, name, from + 1)
  }

  // ---------------------------------------------------------------------------
  // Bridge messages

  /** Python's list indexing: a negative index counts from the end; out of range is an IndexError. */
  function PyIndex(i: int, len: nat): (r: Option<nat>)
    ensures r.Some? ==> r.value < len && (r.value == i || r.value == len + i)
    ensures r.None? <==> (i >= len || i < -(len as int))
  {
    if 0 <= i < len then Some(i)
    else if -(len as int) <= i < 0 then Some((len + i) as nat)
    else None
  }

  /**
    * `_, field_idx, nid, content = cmd.split(":", 3)` with `int(field_idx)` and a
    * guarded `int(nid)`.  None when the message is not `blur:`/`key:`, has fewer than
    * four parts or a field index that is not an integer (the exceptions the hook swallows).
    */
  function ParseBridge(cmd: string): Option<BridgeMsg>
  {
    if !(StartsWith(cmd, "blur:") || StartsWith(cmd, "key:")) then None
    else
      var parts := SplitN(cmd, ':', 3);
      if |parts| != 4 then None
      else
        var idx := PyInt(parts[1]);
        if idx.None? then None else Some(BridgeMsg(idx.value, PyInt(parts[2]), parts[3]))
  }

  /**
    * The guards of onBridgeCmd: a note is open, the message parses, its note id is a
    * non-zero integer equal to the open note's, the field index is valid and the field's
    * name ends in "Cloze".
    */
  function Target(cmd: string, hasNote: bool, noteId: int, flds: seq<FieldDef>): Option<BridgeTarget>
  {
    var m := if hasNote then ParseBridge(cmd) else None;
    if m.None? then None
    else
      var msg := m.value;
      if msg.nid.None? || msg.nid.value == 0 || msg.nid.value != noteId then None
      else
        var k := PyIndex(msg.fieldIdx, |flds|);
        if k.None? || !EndsWith(flds[k.value].name, Suffix) then None
        else Some(BridgeTarget(flds[k.value].name, msg.content))
  }

  /** Colons inside the content survive the split: only the first three colons separate parts. */
  lemma ParseBridgeContent(kind: string, idx: string, nid: string, content: string)
    requires kind == "blur" || kind == "key"
    requires Free(idx, ':') && Free(nid, ':') && PyInt(idx).Some?
    ensures ParseBridge(kind + ":" + idx + ":" + nid + ":" + content) == Some(BridgeMsg(PyInt(idx).value, PyInt(nid), content))
  {
    var cmd := kind + ":" + idx + ":" + nid + ":" + content;
    var t := idx + ":" + nid + ":" + content;
    assert cmd == kind + (":" + t);
    BridgeKind(kind, t);
    SplitFour(kind, idx, nid, content);
    ParseBridgeOf(cmd, kind, idx, nid, content);
  }

  lemma ParseBridgeOf(cmd: string, a: string, b: string, c: string, d: string)
    requires StartsWith(cmd, "blur:") || StartsWith(cmd, "key:")
    requires SplitN(cmd, ':', 3) == [a, b, c, d] && PyInt(b).Some?
    ensures ParseBridge(cmd) == Some(BridgeMsg(PyInt(b).value, PyInt(c), d))
  {
  }

  lemma BridgeKind(kind: string, t: string)
    requires kind == "blur" || kind == "key"
    ensures Free(kind, ':') && (StartsWith(kind + (":" + t), "blur:") || StartsWith(kind + (":" + t), "key:"))
  {
    assert (kind + (":" + t))[..|kind| + 1] == kind + ":";
  }

  lemma SplitFour(a: string, b: string, c: string, d: string)
    requires Free(a, ':') && Free(b, ':') && Free(c, ':')
    ensures SplitN(a + ":" + b + ":" + c + ":" + d, ':', 3) == [a, b, c, d]
  {
    assert a + ":" + b + ":" + c + ":" + d == a + [':'] + (b + [':'] + (c + [':'] + d));
    SplitNCons(a, b + [':'] + (c + [':'] + d), ':', 3);
    SplitNCons(b, c + [':'] + d, ':', 2);
    SplitNCons(c, d, ':', 1);
    assert SplitN(d, ':', 0) == [d];
  }

  /** A reconciliation only happens for messages that pass every guard. */
  lemma TargetGuards(cmd: string, hasNote: bool, noteId: int, flds: seq<FieldDef>)
    ensures var t := Target(cmd, hasNote, noteId, flds);
      t.Some? ==> (hasNote && ParseBridge(cmd).Some? &&
        var msg := ParseBridge(cmd).value;
        msg.nid == Some(noteId) && noteId != 0 && msg.content == t.value.content &&
        EndsWith(t.value.name, Suffix) &&
        exists k :: 0 <= k < |flds| && flds[k].name == t.value.name && (k == msg.fieldIdx || k == |flds| + msg.fieldIdx))
  {
    var t := Target(cmd, hasNote, noteId, flds);
    if t.Some? {
      var k := PyIndex(ParseBridge(cmd).value.fieldIdx, |flds|).value;
      assert flds[k].name == t.value.name;
    }
  }

  /** A message that passes every guard names the field at its index, with the content it reported. */
  lemma TargetAccepts(cmd: string, noteId: int, flds: seq<FieldDef>, k: nat)
    requires ParseBridge(cmd).Some?
    requires var msg := ParseBridge(cmd).value;
      msg.nid == Some(noteId) && noteId != 0 && PyIndex(msg.fieldIdx, |flds|) == Some(k)
    requires EndsWith(flds[k].name, Suffix)
    ensures Target(cmd, true, noteId, flds) == Some(BridgeTarget(flds[k].name, ParseBridge(cmd).value.content))
  {
  }

  /** A note id that is not an integer, is zero, or is another note's stops the update. */
  lemma TargetRejectsNoteId(cmd: string, hasNote: bool, noteId: int, flds: seq<FieldDef>)
    requires ParseBridge(cmd).Some?
    requires var nid := ParseBridge(cmd).value.nid; nid.None? || nid.value == 0 || nid.value != noteId
    ensures Target(cmd, hasNote, noteId, flds).None?
  {
  }

  /** A field whose name does not end in "Cloze" is never reconciled from a message. */
  lemma TargetRejectsName(cmd: string, hasNote: bool, noteId: int, flds: seq<FieldDef>, k: nat)
    requires ParseBridge(cmd).Some? && PyIndex(ParseBridge(cmd).value.fieldIdx, |flds|) == Some(k)
    requires !EndsWith(flds[k].name, Suffix)
    ensures Target(cmd, hasNote, noteId, flds).None?
  {
  }

  // ---------------------------------------------------------------------------
  // The editor

  class Editor {
    /** The open note's field values (self.note.fields), overwritten in place. */
    var fields: array<string>
    /** The note type's field list (model["flds"]). */
    const flds: seq<FieldDef>
    /** Whether the note type's first template uses `{{cloze:...}}` itself. */
    const nativeCloze: bool
    var hasNote: bool
    const noteId: int
    /** The field that has the focus. */
    var currentField: nat
    /** The host's mungeHTML. */
    const munge: string -> string

    ghost predicate Valid()
      reads this
    {
      fields.Length == |flds| && OrdsIn(flds, fields.Length)
    }

    constructor (values: seq<string>, flds: seq<FieldDef>, nativeCloze: bool, noteId: int, currentField: nat, munge: string -> string)
      requires |values| == |flds| && OrdsIn(flds, |values|)
      ensures Valid() && fresh(fields) && fields[..] == values
      ensures this.flds == flds && this.nativeCloze == nativeCloze && this.noteId == noteId
      ensures this.currentField == currentField && this.munge == munge && hasNote
    {
      fields := new string[|values|](i requires 0 <= i < |values| => values[i]);
      this.flds := flds;
      this.nativeCloze := nativeCloze;
      hasNote := true;
      this.noteId := noteId;
      this.currentField := currentField;
      this.munge := munge;
    }

    /**
      * update_cloze_fields: one pass over the field list that records every companion
      * index and rewrites the writable companions; its result is the fold Reconcile.
      */
    method UpdateClozeFields(nums: set<nat>, base: string) returns (updates: seq<Update>, found: set<nat>)
      requires Valid()
      modifies fields
      ensures var r := Reconcile(old(fields[..]), flds, nums, base, munge);
        fields[..] == r.fields && updates == r.updates && found == r.found
    {
      ghost var start := fields[..];
      updates, found := [], {};
      var i := 0;
      while i < |flds|
        invariant 0 <= i <= |flds|
        invariant Reconcile(start, flds[..i], nums, base, munge) == Pass(fields[..], updates, found)
      {
        var f := flds[i];
        var k := CompanionIndex(base, f.name);
        if k.Some? {
          found := found + {k.value};
          var v := Marker(k.value in nums);
          if Writable(fields[f.ord]) {
            fields[f.ord] := munge(v);
            updates := updates + [Update(f.ord, v)];
          }
        }
        assert flds[..i + 1][..i] == flds[..i];
        i := i + 1;
      }
      assert flds[..i] == flds;
    }

    /**
      * onCloze.  A non-empty "...Cloze" field gets the next index wrapped around the
      * selection and its companions reconciled against the markers plus that index; an
      * empty "...Cloze" field is filled from the field named without the suffix.
      */
    method OnCloze(reuse: bool) returns (outcome: ClozeOutcome)
      requires Valid() && (nativeCloze || currentField < |flds|)
      modifies fields
      ensures nativeCloze ==> outcome == DeferToHost && fields[..] == old(fields[..])
      ensures !nativeCloze && old(fields[currentField]) != "" ==>
        var name := flds[currentField].name;
        var nums := ClozeNums(old(fields[currentField]));
        if !EndsWith(name, Suffix) then outcome == Refused(NotClozeField(name)) && fields[..] == old(fields[..])
        else
          outcome.Clozed? && IsNextIndex(nums, reuse, outcome.next) &&
          var r := Reconcile(old(fields[..]), flds, nums + {outcome.next}, name, munge);
          fields[..] == r.fields &&
          outcome.commands == [WrapSelection(outcome.next)] + AsCommands(r.updates) &&
          outcome.missing == (nums + {outcome.next}) - CompanionNums(name, flds)
      ensures !nativeCloze && old(fields[currentField]) == "" ==>
        var name := flds[currentField].name;
        fields[..] == old(fields[..]) &&
        if !EndsWith(name, Suffix) then outcome == Refused(EmptyNotCloze(name))
        else
          var other := name[..|name| - |Suffix|];
          var o := FindOrd(flds, other, 0);
          if o.None? then outcome == Refused(NoCopySource(name, other))
          else outcome == Copied(o.value, InsertHtml(old(fields[o.value])))
    {
      if nativeCloze {
        return DeferToHost;
      }
      var name := flds[currentField].name;
      var content := fields[currentField];
      if content != "" {
        if !EndsWith(name, Suffix) {
          return Refused(NotClozeField(name));
        }
        var nums := ClozeNums(content);
        var next := NextClozeNum(nums, reuse);
        var requested := nums + {next};
        ghost var before := fields[..];
        var updates, found := UpdateClozeFields(requested, name);
        ReconcileFound(before, flds, requested, name, munge);
        outcome := Clozed(next, [WrapSelection(next)] + AsCommands(updates), requested - found);
      } else {
        if !EndsWith(name, Suffix) {
          return Refused(EmptyNotCloze(name));
        }
        var other := name[..|name| - |Suffix|];
        var o := FindOrd(flds, other, 0);
        if o.Some? {
          outcome := Copied(o.value, InsertHtml(fields[o.value]));
        } else {
          outcome := Refused(NoCopySource(name, other));
        }
      }
    }

    /**
      * onBridgeCmd: a guarded re-reconciliation from the content the page reports.
      * The original handler always receives the message unchanged.
      */
    method OnBridgeCmd(cmd: string) returns (evaluated: Option<seq<Update>>, forwarded: string)
      requires Valid()
      modifies fields
      ensures forwarded == cmd
      ensures var t := Target(cmd, hasNote, noteId, flds);
        if t.None? then evaluated.None? && fields[..] == old(fields[..])
        else
          var r := Reconcile(old(fields[..]), flds, ClozeNums(t.value.content), t.value.name, munge);
          fields[..] == r.fields && evaluated == Some(r.updates)
    {
      var t := Target(cmd, hasNote, noteId, flds);
      evaluated := None;
      if t.Some? {
        var updates, _ := UpdateClozeFields(ClozeNums(t.value.content), t.value.name);
        evaluated := Some(updates);
      }
      forwarded := cmd;
    }
  }
}
