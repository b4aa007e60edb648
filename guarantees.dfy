/** What a whole `create` session guarantees: the state is the initial
    object itself exactly when the callback made no change, and with
    patches enabled every change records exactly one forward entry and,
    except `splice`, one inverse entry. */
module Guarantees {
  import opened Values
  import opened Patches
  import opened Drafts
  import opened Properties
  import opened Sessions

  /** A logged entry lengthens the log by one when patches are enabled;
      prefixing paths never changes its length. */
  lemma LoggedLength(logging: bool, log: seq<Patch>, p: Option<Patch>, pk: Option<Key>)
    ensures |Logged(logging, log, p, pk)| == |log| + (if logging && p.Some? then 1 else 0)
  {
    var log1 := if p.Some? then Log(logging, log, p.value) else log;
    assert |Lengthened(log1, logging, pk)| == |log1|;
  }

  /** A read leaves the root's `updated` flag and both logs as they were,
      whether or not it throws. */
  lemma ReadKeepsRoot(heap: map<ObjId, Container>, logging: bool, s: Store, d: nat, k: Key)
    requires StoreWf(heap, logging, s)
    ensures var r := Exec(heap, logging, s, Fetch(d, k));
            && r.1.drafts[0].updated == s.drafts[0].updated
            && r.1.patches == s.patches && r.1.inversePatches == s.inversePatches
  {
    if d < |s.drafts| {
      var r := GetStep(heap, logging, s, d, k);
      assert DraftsWf(heap, s.drafts);
      assert r.1.drafts[..|s.drafts|][0] == r.1.drafts[0];
    }
  }

  /** After a change from `s` to `t`: the root is marked updated and,
      with patches enabled, one forward entry and (when `inverse`) one
      inverse entry were added. */
  predicate Marked(logging: bool, s: Store, t: Store, inverse: bool) {
    && |t.drafts| > 0 && t.drafts[0].updated
    && |t.patches| == |s.patches| + (if logging then 1 else 0)
    && |t.inversePatches| == |s.inversePatches| + (if logging && inverse then 1 else 0)
  }

  /** `create` returns the initial object itself exactly when the
      callback made no change; after a change it returns the root's copy. */
  lemma SessionState(heap: map<ObjId, Container>, root: ObjId, enablePatches: bool, cmds: seq<Command>)
    requires HeapClosed(heap) && root in heap
    ensures var r := Complete(heap, root, enablePatches, cmds);
            r.Done? ==>
              && (r.state == Obj(root) <==> Mutations(cmds) == 0)
              && (Mutations(cmds) > 0 ==> r.state == Copy(0) && |r.copies| > 0 && r.copies[0].Some?)
  {
    CreatedWf(heap, enablePatches, root);
    var s := Created(root);
    ScriptCounts(heap, enablePatches, s, cmds);
  }

  /** With patches enabled, `create` returns one forward entry per change
      and one inverse entry per change other than `splice`; without, both
      logs are `undefined`. */
  lemma SessionPatches(heap: map<ObjId, Container>, root: ObjId, enablePatches: bool, cmds: seq<Command>)
    requires HeapClosed(heap) && root in heap
    ensures var r := Complete(heap, root, enablePatches, cmds);
            r.Done? ==>
              && (enablePatches ==>
                    && r.patches.Some? && |r.patches.value| == Mutations(cmds)
                    && r.inversePatches.Some? && |r.inversePatches.value| == Mutations(cmds) - Splices(cmds))
              && (!enablePatches ==> r.patches.None? && r.inversePatches.None?)
  {
    CreatedWf(heap, enablePatches, root);
    var s := Created(root);
    ScriptCounts(heap, enablePatches, s, cmds);
  }

  /** Through a callback that returns normally, the root ends up updated
      exactly when it was already or some operation was a change, and with
      patches enabled each change adds one forward entry and, unless it is
      `splice`, one inverse entry. */
  lemma {:induction false} ScriptCounts(heap: map<ObjId, Container>, logging: bool, s: Store, cmds: seq<Command>)
    requires StoreWf(heap, logging, s) && |s.drafts| > 0
    ensures var r := Script(heap, logging, s, cmds);
            r.0.Going? ==>
              && (r.1.drafts[0].updated <==> s.drafts[0].updated || Mutations(cmds) > 0)
              && |r.1.patches| == |s.patches| + (if logging then Mutations(cmds) else 0)
              && |r.1.inversePatches| == |s.inversePatches| + (if logging then Mutations(cmds) - Splices(cmds) else 0)
    decreases |cmds|
  {
    if cmds != [] {
      var c := cmds[0];
      var e := Exec(heap, logging, s, c);
      if e.0.Going? {
        ScriptCounts(heap, logging, e.1, cmds[1..]);
        if Mutates(c) {
          ChangeMarksRoot(heap, logging, s, c);
        } else {
          ReadKeepsRoot(heap, logging, s, c.d, c.k);
        }
      }
    }
  }

  /** A mutation that returns normally marks the root and logs one
      forward entry and, unless it is `splice`, one inverse entry. */
  lemma ChangeMarksRoot(heap: map<ObjId, Container>, logging: bool, s: Store, c: Command)
    requires StoreWf(heap, logging, s) && Mutates(c)
    ensures var r := Exec(heap, logging, s, c);
            r.0.Going? ==> Marked(logging, s, r.1, !(c.Invoke? && c.name == "splice"))
  {
    var r := Exec(heap, logging, s, c);
    if r.0.Going? {
      assert DraftWf(heap, s.drafts, c.d);
      match c
      case Put(d, k, v) =>
        SetEffect(heap, logging, s, d, k, v);
        var dr := s.drafts[d];
        var w := Copied(heap, dr).value;
        LoggedLength(logging, s.patches, Some(Patch(Set, [k], [One(v)])), PathKey(dr));
        LoggedLength(logging, s.inversePatches, Some(SetTrapEntries(heap, dr.original, k, v, Lookup(w, k)).1), PathKey(dr));
      case Drop(d, k) =>
        DeleteEffect(heap, logging, s, d, k);
        var dr := s.drafts[d];
        var w := Copied(heap, dr).value;
        LoggedLength(logging, s.patches, Some(Patch(Delete, [k], [])), PathKey(dr));
        LoggedLength(logging, s.inversePatches, Some(Patch(Set, [k], [One(Lookup(w, k))])), PathKey(dr));
      case Invoke(d, name, args) =>
        var g := GetStep(heap, logging, s, d, Name(name));
        NoMapClosure(heap, logging, s, d, Name(name));
        CallMarksRoot(heap, logging, g.1, d, name, args);
        ReadKeepsRoot(heap, logging, s, d, Name(name));
    }
  }

  /** A closure that returns normally marks the root and logs one forward
      entry, and one inverse entry unless it is `splice`. */
  lemma CallMarksRoot(heap: map<ObjId, Container>, logging: bool, s: Store, d: nat, name: string, args: seq<Value>)
    requires StoreWf(heap, logging, s) && d < |s.drafts| && s.drafts[d].copy.Some?
    ensures var r := Calls(heap, logging, s, d, name, args);
            r.0.Going? ==> Marked(logging, s, r.1, name != "splice")
  {
    var r := Calls(heap, logging, s, d, name, args);
    if r.0.Going? {
      var c := s.drafts[d].copy.value;
      if c.Arr? {
        ArrayMarksRoot(heap, logging, s, d, name, args);
      } else {
        SetMarksRoot(heap, logging, s, d, name, args);
      }
    }
  }

  lemma ArrayMarksRoot(heap: map<ObjId, Container>, logging: bool, s: Store, d: nat, name: string, args: seq<Value>)
    requires StoreWf(heap, logging, s) && d < |s.drafts| && s.drafts[d].copy.Some? && s.drafts[d].copy.value.Arr?
    requires forall i | 0 <= i < |args| :: ValueIn(heap, |s.drafts|, args[i])
    ensures var r := CallsArray(heap, logging, s, d, name, args);
            r.0.Going? ==> Marked(logging, s, r.1, name != "splice")
  {
    if name == "pop" {
      PopMarks(heap, logging, s, d);
    } else if name == "push" {
      PushMarks(heap, logging, s, d, args);
    } else if name == "reverse" {
      ReverseMarks(heap, logging, s, d);
    } else if name == "shift" {
      ShiftMarks(heap, logging, s, d);
    } else if name == "unshift" {
      UnshiftMarks(heap, logging, s, d, args);
    } else if name == "splice" && SpliceCall(args).Some? {
      var call := SpliceCall(args).value;
      SpliceMarks(heap, logging, s, d, call.0, call.1, call.2);
    }
  }

  lemma PopMarks(heap: map<ObjId, Container>, logging: bool, s: Store, d: nat)
    requires StoreWf(heap, logging, s) && d < |s.drafts| && s.drafts[d].copy.Some? && s.drafts[d].copy.value.Arr?
    ensures var r := PopStep(heap, logging, s, d);
            r.0.Ok? ==> Marked(logging, s, r.1, true)
  {
    var e := Elems(s, d);
    ElemsIn(heap, logging, s, d);
    var entries := PopEntries(Popped(e));
    Closed(heap, logging, s, d, Arr(Popped(e)), "pop", false, entries.0, Some(entries.1));
  }

  lemma PushMarks(heap: map<ObjId, Container>, logging: bool, s: Store, d: nat, args: seq<Value>)
    requires StoreWf(heap, logging, s) && d < |s.drafts| && s.drafts[d].copy.Some? && s.drafts[d].copy.value.Arr?
    requires forall i | 0 <= i < |args| :: ValueIn(heap, |s.drafts|, args[i])
    ensures var r := PushStep(heap, logging, s, d, args);
            r.0.Ok? ==> Marked(logging, s, r.1, true)
  {
    var e := Elems(s, d);
    ElemsIn(heap, logging, s, d);
    var entries := PushEntries(args, |e + args|);
    Closed(heap, logging, s, d, Arr(e + args), "push", true, entries.0, Some(entries.1));
  }

  lemma ReverseMarks(heap: map<ObjId, Container>, logging: bool, s: Store, d: nat)
    requires StoreWf(heap, logging, s) && d < |s.drafts| && s.drafts[d].copy.Some? && s.drafts[d].copy.value.Arr?
    ensures var r := ReverseStep(heap, logging, s, d);
            r.0.Ok? ==> Marked(logging, s, r.1, true)
  {
    var e := Elems(s, d);
    ElemsIn(heap, logging, s, d);
    ReversedIn(heap, |s.drafts|, e);
    var entries := ReverseEntries();
    Closed(heap, logging, s, d, Arr(Reversed(e)), "reverse", true, entries.0, Some(entries.1));
  }

  lemma ShiftMarks(heap: map<ObjId, Container>, logging: bool, s: Store, d: nat)
    requires StoreWf(heap, logging, s) && d < |s.drafts| && s.drafts[d].copy.Some? && s.drafts[d].copy.value.Arr?
    ensures var r := ShiftStep(heap, logging, s, d);
            r.0.Ok? ==> Marked(logging, s, r.1, true)
  {
    var e := Elems(s, d);
    ElemsIn(heap, logging, s, d);
    var entries := ShiftEntries(FirstOr(e));
    Closed(heap, logging, s, d, Arr(Shifted(e)), "shift", true, entries.0, Some(entries.1));
  }

  lemma UnshiftMarks(heap: map<ObjId, Container>, logging: bool, s: Store, d: nat, args: seq<Value>)
    requires StoreWf(heap, logging, s) && d < |s.drafts| && s.drafts[d].copy.Some? && s.drafts[d].copy.value.Arr?
    requires forall i | 0 <= i < |args| :: ValueIn(heap, |s.drafts|, args[i])
    ensures var r := UnshiftStep(heap, logging, s, d, args);
            r.0.Ok? ==> Marked(logging, s, r.1, true)
  {
    var e := Elems(s, d);
    ElemsIn(heap, logging, s, d);
    var entries := UnshiftEntries(args);
    Closed(heap, logging, s, d, Arr(args + e), "unshift", true, entries.0, Some(entries.1));
  }

  lemma SpliceMarks(heap: map<ObjId, Container>, logging: bool, s: Store, d: nat,
                    start: Option<int>, count: Option<int>, items: seq<Value>)
    requires StoreWf(heap, logging, s) && d < |s.drafts| && s.drafts[d].copy.Some? && s.drafts[d].copy.value.Arr?
    requires start.None? ==> count.None?
    requires count.None? ==> items == []
    requires forall i | 0 <= i < |items| :: ValueIn(heap, |s.drafts|, items[i])
    ensures var r := SpliceStep(heap, logging, s, d, start, count, items);
            r.0.Ok? ==> Marked(logging, s, r.1, false)
  {
    var e := Elems(s, d);
    ElemsIn(heap, logging, s, d);
    SplicedIn(heap, |s.drafts|, e, start, count, items);
    Closed(heap, logging, s, d, Arr(Spliced(e, start, count, items).0), "splice", true,
           SpliceEntry(SpliceArgs(start, count, items)), None);
  }

  lemma SetMarksRoot(heap: map<ObjId, Container>, logging: bool, s: Store, d: nat, name: string, args: seq<Value>)
    requires StoreWf(heap, logging, s) && d < |s.drafts| && s.drafts[d].copy.Some? && s.drafts[d].copy.value.SetC?
    requires forall i | 0 <= i < |args| :: ValueIn(heap, |s.drafts|, args[i])
    ensures var r := CallsSet(heap, logging, s, d, name, args);
            r.0.Going? ==> Marked(logging, s, r.1, true)
  {
    if name == "add" {
      AddMarks(heap, logging, s, d, FirstArg(args));
    } else if name == "clear" {
      ClearMarks(heap, logging, s, d);
    } else if name == "delete" {
      RemoveMarks(heap, logging, s, d, FirstArg(args));
    }
  }

  lemma AddMarks(heap: map<ObjId, Container>, logging: bool, s: Store, d: nat, v: Value)
    requires StoreWf(heap, logging, s) && d < |s.drafts| && s.drafts[d].copy.Some? && s.drafts[d].copy.value.SetC?
    requires ValueIn(heap, |s.drafts|, v)
    ensures var r := AddStep(heap, logging, s, d, v);
            r.0.Ok? ==> Marked(logging, s, r.1, true)
  {
    ElemsIn(heap, logging, s, d);
    var entries := SetAddEntries(v);
    Closed(heap, logging, s, d, SetC(Drafts.Members(s, d) + {v}), "add", true, entries.0, Some(entries.1));
  }

  lemma ClearMarks(heap: map<ObjId, Container>, logging: bool, s: Store, d: nat)
    requires StoreWf(heap, logging, s) && d < |s.drafts| && s.drafts[d].copy.Some? && s.drafts[d].copy.value.SetC?
    ensures var r := ClearStep(heap, logging, s, d);
            r.0.Ok? ==> Marked(logging, s, r.1, true)
  {
    var entries := SetClearEntries({});
    Closed(heap, logging, s, d, SetC({}), "clear", true, entries.0, Some(entries.1));
  }

  lemma RemoveMarks(heap: map<ObjId, Container>, logging: bool, s: Store, d: nat, v: Value)
    requires StoreWf(heap, logging, s) && d < |s.drafts| && s.drafts[d].copy.Some? && s.drafts[d].copy.value.SetC?
    ensures var r := RemoveStep(heap, logging, s, d, v);
            r.0.Ok? ==> Marked(logging, s, r.1, true)
  {
    ElemsIn(heap, logging, s, d);
    var entries := SetDeleteEntries(v);
    Closed(heap, logging, s, d, SetC(Drafts.Members(s, d) - {v}), "delete", true, entries.0, Some(entries.1));
  }

  /** `ClosureEffect` in terms of the logs' lengths. */
  lemma Closed(heap: map<ObjId, Container>, logging: bool, s: Store, d: nat, c: Container,
               name: string, marks: bool, fwd: Patch, inv: Option<Patch>)
    requires StoreWf(heap, logging, s) && d < |s.drafts| && s.drafts[d].copy.Some?
    requires !c.MapC? && ContainerIn(heap, |s.drafts|, c)
    ensures var r := Closure(heap, logging, s, d, c, name, marks, fwd, inv);
            r.0.Ok? ==> Marked(logging, s, r.1, inv.Some?)
  {
    ClosureEffect(heap, logging, s, d, c, name, marks, fwd, inv);
    LoggedLength(logging, s.patches, Some(fwd), PathKey(s.drafts[d]));
    LoggedLength(logging, s.inversePatches, inv, PathKey(s.drafts[d]));
  }
}
