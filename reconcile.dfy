/**
  * The companion-field reconciliation pass of update_cloze_fields, stated as a
  * fold over the note type's field list.  The editor's loop (module EditorHooks) is
  * proved equal to this fold; the lemmas here say what the fold does.
  */
module Companions {
  import opened Wrappers
  import opened Text

  /** One entry of the note type's field list: its name and its index into the note's values. */
  datatype FieldDef = FieldDef(name: string, ord: nat)

  /** The UI command `$("#f" + ord).html(html)` that mirrors a field write on the editor page. */
  datatype Update = Update(ord: nat, html: string)

  /** The value of an active companion field ("generate this card") and of an inactive one. */
  const Active: string := "1"
  const Inactive: string := "<br>"

  function Marker(active: bool): string { if active then Active else Inactive }

  /**
    * The companion index of the field called `name` for the source field `base`:
    * the regex `^` + escaped base + `(\d+)$`.  Python's `$` also matches just before
    * a final newline, so the digits may be followed by one '\n'.
    */
  function CompanionIndex(base: string, name: string): Option<nat>
  {
    if !StartsWith(name, base) then None
    else
      var rest := name[|base|..];
      var t := if |rest| >= 1 && rest[|rest| - 1] == '\n' then rest[..|rest| - 1] else rest;
      if IsNumeral(t) then Some(DigitsValue(t)) else None
  }

  /** A field that names a companion: `base` followed by digits (and at most a final newline). */
  predicate CompanionName(base: string, name: string, d: string)
  {
    IsNumeral(d) && (name == base + d || name == base + d + "\n")
  }

  /** A value the pass may overwrite: after Python's strip() it is "1" or empty. */
  predicate Writable(v: string) { PyStrip(v) == "1" || PyStrip(v) == "" }

  predicate OrdsIn(flds: seq<FieldDef>, n: nat) { forall i :: 0 <= i < |flds| ==> flds[i].ord < n }

  /** No two entries of the field list share an index into the note's values. */
  predicate DistinctOrds(flds: seq<FieldDef>)
  {
    forall a, b :: 0 <= a < b < |flds| ==> flds[a].ord != flds[b].ord
  }

  /** The state of one pass: the note's values, the commands issued and the indices found. */
  datatype Pass = Pass(fields: seq<string>, updates: seq<Update>, found: set<nat>)

  /** One iteration of the loop over the field list. */
  function Step(p: Pass, f: FieldDef, nums: set<nat>, base: string, munge: string -> string): (q: Pass)
    requires f.ord < |p.fields|
    ensures |q.fields| == |p.fields|
  {
    var k := CompanionIndex(base, f.name);
    if k.None? then p
    else
      var v := Marker(k.value in nums);
      if Writable(p.fields[f.ord]) then
        Pass(p.fields[f.ord := munge(v)], p.updates + [Update(f.ord, v)], p.found + {k.value})
      else
        Pass(p.fields, p.updates, p.found + {k.value})
  }

  /** The whole pass: the loop body applied to every entry of `flds`, first to last. */
  function Reconcile(fields: seq<string>, flds: seq<FieldDef>, nums: set<nat>, base: string, munge: string -> string): (r: Pass)
    requires OrdsIn(flds, |fields|)
    ensures |r.fields| == |fields|
    decreases |flds|
  {
    if flds == [] then Pass(fields, [], {})
    else Step(Reconcile(fields, flds[..|flds| - 1], nums, base, munge), flds[|flds| - 1], nums, base, munge)
  }

  /** The indices of all companion fields in the field list. */
  function CompanionNums(base: string, flds: seq<FieldDef>): set<nat>
  {
    set f | f in flds && CompanionIndex(base, f.name).Some? :: CompanionIndex(base, f.name).value
  }

  /** A field at position `i` of the list is a companion with index `n`. */
  predicate CompanionAt(base: string, flds: seq<FieldDef>, i: nat, n: nat)
  {
    i < |flds| && CompanionIndex(base, flds[i].name) == Some(n)
  }

  /** No companion field of the list writes to position `j` of the note's values. */
  predicate NoCompanionFor(base: string, flds: seq<FieldDef>, j: nat)
  {
    forall i :: 0 <= i < |flds| && flds[i].ord == j ==> CompanionIndex(base, flds[i].name).None?
  }

  // ---------------------------------------------------------------------------
  // Companion names

  /** The companion regex matches exactly the names `base + digits`, optionally followed by '\n'. */
  lemma CompanionIndexIff(base: string, name: string, n: nat)
    ensures CompanionIndex(base, name) == Some(n) <==> exists d :: CompanionName(base, name, d) && DigitsValue(d) == n
  {
    if CompanionIndex(base, name) == Some(n) {
      var rest := name[|base|..];
      var t := if |rest| >= 1 && rest[|rest| - 1] == '\n' then rest[..|rest| - 1] else rest;
      assert name == base + rest;
      if |rest| >= 1 && rest[|rest| - 1] == '\n' {
        assert rest == t + "\n";
      }
      assert CompanionName(base, name, t) && DigitsValue(t) == n;
    }
    if exists d :: CompanionName(base, name, d) && DigitsValue(d) == n {
      var d :| CompanionName(base, name, d) && DigitsValue(d) == n;
      CompanionOfDigits(base, name, d);
    }
  }

  lemma CompanionOfDigits(base: string, name: string, d: string)
    requires CompanionName(base, name, d)
    ensures CompanionIndex(base, name) == Some(DigitsValue(d))
  {
    assert name[..|base|] == base;
    var rest := name[|base|..];
    if name == base + d {
      assert rest == d;
      assert IsDigit(d[|d| - 1]);
    } else {
      assert rest == d + "\n";
      assert rest[..|rest| - 1] == d;
    }
  }

  /** The source field itself is not one of its own companions: it has no digits after it. */
  lemma SourceNotCompanion(base: string)
    ensures CompanionIndex(base, base).None?
  {
    assert base[|base|..] == [];
  }

  /** The companion for index `n` is `base` followed by n's decimal digits. */
  lemma CompanionOfDecimal(base: string, n: nat)
    ensures CompanionIndex(base, base + Decimal(n)) == Some(n)
  {
    DecimalValue(n);
    CompanionOfDigits(base, base + Decimal(n), Decimal(n));
  }

  // ---------------------------------------------------------------------------
  // What the pass does

  lemma CompanionNumsSnoc(base: string, flds: seq<FieldDef>)
    requires flds != []
    ensures var f := flds[|flds| - 1];
      CompanionNums(base, flds) ==
        CompanionNums(base, flds[..|flds| - 1]) +
        (if CompanionIndex(base, f.name).Some? then {CompanionIndex(base, f.name).value} else {})
  {
    assert flds == flds[..|flds| - 1] + [flds[|flds| - 1]];
  }

  /** The found set is exactly the set of companion indices, whether or not anything was written. */
  lemma {:induction false} ReconcileFound(fields: seq<string>, flds: seq<FieldDef>, nums: set<nat>, base: string, munge: string -> string)
    requires OrdsIn(flds, |fields|)
    ensures Reconcile(fields, flds, nums, base, munge).found == CompanionNums(base, flds)
  {
    if flds != [] {
      ReconcileFound(fields, flds[..|flds| - 1], nums, base, munge);
      CompanionNumsSnoc(base, flds);
    }
  }

  /** A value that is neither "1" nor blank (after stripping) is never overwritten and gets no command. */
  lemma {:induction false} ReconcileProtected(fields: seq<string>, flds: seq<FieldDef>, nums: set<nat>, base: string, munge: string -> string, j: nat)
    requires OrdsIn(flds, |fields|) && j < |fields| && !Writable(fields[j])
    ensures var r := Reconcile(fields, flds, nums, base, munge);
      r.fields[j] == fields[j] && forall k :: 0 <= k < |r.updates| ==> r.updates[k].ord != j
  {
    if flds != [] {
      ReconcileProtected(fields, flds[..|flds| - 1], nums, base, munge, j);
    }
  }

  /** A position that no companion field refers to (the source field's, say) is untouched and gets no command. */
  lemma {:induction false} ReconcileOther(fields: seq<string>, flds: seq<FieldDef>, nums: set<nat>, base: string, munge: string -> string, j: nat)
    requires OrdsIn(flds, |fields|) && j < |fields| && NoCompanionFor(base, flds, j)
    ensures var r := Reconcile(fields, flds, nums, base, munge);
      r.fields[j] == fields[j] && forall k :: 0 <= k < |r.updates| ==> r.updates[k].ord != j
  {
    if flds != [] {
      ReconcileOther(fields, flds[..|flds| - 1], nums, base, munge, j);
    }
  }

  /**
    * A writable companion field ends up holding munge("1") when its index is requested and
    * munge("<br>") when it is not, and the pass issues the command for it with the bare value.
    */
  lemma {:induction false} ReconcileWrites(fields: seq<string>, flds: seq<FieldDef>, nums: set<nat>, base: string, munge: string -> string, i: nat, n: nat)
    requires OrdsIn(flds, |fields|) && DistinctOrds(flds) && CompanionAt(base, flds, i, n)
    requires Writable(fields[flds[i].ord])
    ensures var r := Reconcile(fields, flds, nums, base, munge);
      r.fields[flds[i].ord] == munge(Marker(n in nums)) && Update(flds[i].ord, Marker(n in nums)) in r.updates
  {
    var last := |flds| - 1;
    var pre := flds[..last];
    if i == last {
      forall k | 0 <= k < |pre| ensures pre[k].ord != flds[i].ord {
        assert flds[k].ord != flds[last].ord;
      }
      ReconcileOther(fields, pre, nums, base, munge, flds[i].ord);
    } else {
      assert CompanionAt(base, pre, i, n);
      ReconcileWrites(fields, pre, nums, base, munge, i, n);
    }
  }

  /**
    * Every command of the pass comes from a writable companion field and carries that
    * field's value for the requested set.
    */
  lemma {:induction false} ReconcileUpdatesSound(fields: seq<string>, flds: seq<FieldDef>, nums: set<nat>, base: string, munge: string -> string, k: nat)
    requires OrdsIn(flds, |fields|) && DistinctOrds(flds)
    requires k < |Reconcile(fields, flds, nums, base, munge).updates|
    ensures var u := Reconcile(fields, flds, nums, base, munge).updates[k];
      exists i: nat, n: nat :: CompanionAt(base, flds, i, n) && flds[i].ord == u.ord && u.html == Marker(n in nums) && Writable(fields[u.ord])
  {
    var last := |flds| - 1;
    var pre := flds[..last];
    var p := Reconcile(fields, pre, nums, base, munge);
    var r := Reconcile(fields, flds, nums, base, munge);
    var u := r.updates[k];
    assert r == Step(p, flds[last], nums, base, munge);
    assert |r.updates| <= |p.updates| + 1;
    if k < |p.updates| {
      assert u == p.updates[k];
      ReconcileUpdatesSound(fields, pre, nums, base, munge, k);
      var i: nat, n: nat :| CompanionAt(base, pre, i, n) && pre[i].ord == u.ord && u.html == Marker(n in nums) && Writable(fields[u.ord]);
      assert CompanionAt(base, flds, i, n);
    } else {
      LastUpdateSound(fields, flds, nums, base, munge);
      assert k == |r.updates| - 1;
      assert CompanionAt(base, flds, last, CompanionIndex(base, flds[last].name).value);
    }
  }

  /** The command a pass adds in its last step is that of the last field of the list. */
  lemma LastUpdateSound(fields: seq<string>, flds: seq<FieldDef>, nums: set<nat>, base: string, munge: string -> string)
    requires OrdsIn(flds, |fields|) && DistinctOrds(flds) && flds != []
    requires |Reconcile(fields, flds[..|flds| - 1], nums, base, munge).updates| < |Reconcile(fields, flds, nums, base, munge).updates|
    ensures var f := flds[|flds| - 1];
      var r := Reconcile(fields, flds, nums, base, munge);
      CompanionIndex(base, f.name).Some? && Writable(fields[f.ord]) &&
      r.updates[|r.updates| - 1] == Update(f.ord, Marker(CompanionIndex(base, f.name).value in nums))
  {
    var last := |flds| - 1;
    var pre := flds[..last];
    forall m | 0 <= m < |pre| ensures pre[m].ord != flds[last].ord {
      assert flds[m].ord != flds[last].ord;
    }
    ReconcileOther(fields, pre, nums, base, munge, flds[last].ord);
  }

  /** With distinct indices, the pass issues at most one command per position of the note. */
  lemma {:induction false} ReconcileOneUpdateEach(fields: seq<string>, flds: seq<FieldDef>, nums: set<nat>, base: string, munge: string -> string)
    requires OrdsIn(flds, |fields|) && DistinctOrds(flds)
    ensures var r := Reconcile(fields, flds, nums, base, munge);
      forall a, b :: 0 <= a < b < |r.updates| ==> r.updates[a].ord != r.updates[b].ord
  {
    if flds != [] {
      var last := |flds| - 1;
      var pre := flds[..last];
      var p := Reconcile(fields, pre, nums, base, munge);
      ReconcileOneUpdateEach(fields, pre, nums, base, munge);
      var r := Reconcile(fields, flds, nums, base, munge);
      if |r.updates| > |p.updates| {
        forall a | 0 <= a < |p.updates| ensures p.updates[a].ord != flds[last].ord {
          ReconcileUpdatesSound(fields, pre, nums, base, munge, a);
          var i: nat, n: nat :| CompanionAt(base, pre, i, n) && pre[i].ord == p.updates[a].ord;
          assert flds[i].ord != flds[last].ord;
        }
      }
    }
  }

  /**
    * The invariant a pass establishes: every companion field that now holds a writable value
    * holds munge("1") exactly when its index is requested, and munge("<br>") otherwise.
    */
  lemma ReconcileSynced(fields: seq<string>, flds: seq<FieldDef>, nums: set<nat>, base: string, munge: string -> string, i: nat, n: nat)
    requires OrdsIn(flds, |fields|) && DistinctOrds(flds) && CompanionAt(base, flds, i, n)
    requires Writable(Reconcile(fields, flds, nums, base, munge).fields[flds[i].ord])
    ensures Reconcile(fields, flds, nums, base, munge).fields[flds[i].ord] == munge(Marker(n in nums))
  {
    if Writable(fields[flds[i].ord]) {
      ReconcileWrites(fields, flds, nums, base, munge, i, n);
    } else {
      ReconcileProtected(fields, flds, nums, base, munge, flds[i].ord);
    }
  }

  /** Running the pass twice with the same requested set leaves the values as one pass left them. */
  lemma ReconcileIdempotent(fields: seq<string>, flds: seq<FieldDef>, nums: set<nat>, base: string, munge: string -> string)
    requires OrdsIn(flds, |fields|) && DistinctOrds(flds)
    ensures var once := Reconcile(fields, flds, nums, base, munge).fields;
      Reconcile(once, flds, nums, base, munge).fields == once
  {
    var once := Reconcile(fields, flds, nums, base, munge).fields;
    var twice := Reconcile(once, flds, nums, base, munge).fields;
    forall j | 0 <= j < |fields| ensures twice[j] == once[j] {
      ReconcileIdempotentAt(fields, flds, nums, base, munge, j);
    }
  }

  lemma ReconcileIdempotentAt(fields: seq<string>, flds: seq<FieldDef>, nums: set<nat>, base: string, munge: string -> string, j: nat)
    requires OrdsIn(flds, |fields|) && DistinctOrds(flds) && j < |fields|
    ensures var once := Reconcile(fields, flds, nums, base, munge).fields;
      Reconcile(once, flds, nums, base, munge).fields[j] == once[j]
  {
    var once := Reconcile(fields, flds, nums, base, munge).fields;
    if NoCompanionFor(base, flds, j) {
      ReconcileOther(fields, flds, nums, base, munge, j);
      ReconcileOther(once, flds, nums, base, munge, j);
    } else if !Writable(once[j]) {
      ReconcileProtected(once, flds, nums, base, munge, j);
    } else {
      var i :| 0 <= i < |flds| && flds[i].ord == j && CompanionIndex(base, flds[i].name).Some?;
      var n := CompanionIndex(base, flds[i].name).value;
      ReconcileWrites(once, flds, nums, base, munge, i, n);
      ReconcileSynced(fields, flds, nums, base, munge, i, n);
    }
  }

  /**
    * When munge keeps both marker values writable, a later pass with another requested set
    * gives the values a single pass with that set would have given: an index switched off
    * can be switched on again.
    */
  lemma ReconcileResponsive(fields: seq<string>, flds: seq<FieldDef>, nums1: set<nat>, nums2: set<nat>, base: string, munge: string -> string)
    requires OrdsIn(flds, |fields|) && DistinctOrds(flds)
    requires Writable(munge(Active)) && Writable(munge(Inactive))
    ensures var first := Reconcile(fields, flds, nums1, base, munge).fields;
      Reconcile(first, flds, nums2, base, munge).fields == Reconcile(fields, flds, nums2, base, munge).fields
  {
    var first := Reconcile(fields, flds, nums1, base, munge).fields;
    var second := Reconcile(first, flds, nums2, base, munge).fields;
    var direct := Reconcile(fields, flds, nums2, base, munge).fields;
    forall j | 0 <= j < |fields| ensures second[j] == direct[j] {
      ReconcileResponsiveAt(fields, flds, nums1, nums2, base, munge, j);
    }
  }

  lemma ReconcileResponsiveAt(fields: seq<string>, flds: seq<FieldDef>, nums1: set<nat>, nums2: set<nat>, base: string, munge: string -> string, j: nat)
    requires OrdsIn(flds, |fields|) && DistinctOrds(flds) && j < |fields|
    requires Writable(munge(Active)) && Writable(munge(Inactive))
    ensures var first := Reconcile(fields, flds, nums1, base, munge).fields;
      Reconcile(first, flds, nums2, base, munge).fields[j] == Reconcile(fields, flds, nums2, base, munge).fields[j]
  {
    var first := Reconcile(fields, flds, nums1, base, munge).fields;
    if NoCompanionFor(base, flds, j) {
      ReconcileOther(fields, flds, nums1, base, munge, j);
      ReconcileOther(first, flds, nums2, base, munge, j);
      ReconcileOther(fields, flds, nums2, base, munge, j);
    } else if !Writable(fields[j]) {
      ReconcileProtected(fields, flds, nums1, base, munge, j);
      ReconcileProtected(first, flds, nums2, base, munge, j);
      ReconcileProtected(fields, flds, nums2, base, munge, j);
    } else {
      var i :| 0 <= i < |flds| && flds[i].ord == j && CompanionIndex(base, flds[i].name).Some?;
      var n := CompanionIndex(base, flds[i].name).value;
      ReconcileWrites(fields, flds, nums1, base, munge, i, n);
      assert first[j] == munge(Marker(n in nums1));
      ReconcileWrites(first, flds, nums2, base, munge, i, n);
      ReconcileWrites(fields, flds, nums2, base, munge, i, n);
    }
  }

  /**
    * Without that assumption on munge the pass can get stuck: with munge the identity, a
    * companion switched off holds "<br>", which is not writable, so a later pass that
    * requests its index leaves it "<br>".
    */
  lemma ReconcileStuckWithIdentity(fields: seq<string>, flds: seq<FieldDef>, nums1: set<nat>, nums2: set<nat>, base: string, i: nat, n: nat)
    requires OrdsIn(flds, |fields|) && DistinctOrds(flds) && CompanionAt(base, flds, i, n)
    requires Writable(fields[flds[i].ord]) && n !in nums1 && n in nums2
    ensures var id := (v: string) => v;
      var first := Reconcile(fields, flds, nums1, base, id).fields;
      Reconcile(first, flds, nums2, base, id).fields[flds[i].ord] == Inactive != Marker(n in nums2)
  {
    var id := (v: string) => v;
    var first := Reconcile(fields, flds, nums1, base, id).fields;
    ReconcileWrites(fields, flds, nums1, base, id, i, n);
    assert first[flds[i].ord] == Inactive;
    assert PyStrip(Inactive) == Inactive by {
      PyStripUnpadded(Inactive);
    }
    ReconcileProtected(first, flds, nums2, base, id, flds[i].ord);
  }
}
