/** The draft engine of one `create` invocation as the source runs it: the
    `proxiesMap`, `finalities`, `patches` and `inversePatches` it shares
    between its traps, and the draft records, as fields that each trap
    updates in place. Every method is proved to leave exactly the state the
    corresponding step of `Drafts` describes. */
module Engine {
  import opened Values
  import opened Patches
  import opened Drafts

  class Engine {
    const heap: map<ObjId, Container>
    const logging: bool
    var drafts: seq<Draft>
    var proxies: map<ObjId, DraftId>
    var finalities: seq<Action>
    var patches: seq<Patch>
    var inversePatches: seq<Patch>

    function Snapshot(): Store
      reads this
    {
      Store(drafts, proxies, finalities, patches, inversePatches)
    }

    predicate Valid()
      reads this
    {
      StoreWf(heap, logging, Snapshot())
    }

    /** The start of `create` (src/index.ts:542-557): the root draft of
        `root`, registered and with its revocation queued; both logs empty,
        and kept only when patches are enabled. */
    constructor (heap: map<ObjId, Container>, root: ObjId, enablePatches: bool)
      requires HeapClosed(heap) && root in heap
      ensures this.heap == heap && logging == enablePatches
      ensures Snapshot() == Created(root) && Valid()
    {
      this.heap := heap;
      logging := enablePatches;
      drafts := [Draft(Obj(root), None, false, None, None, None, false)];
      proxies := map[root := 0];
      finalities := [Revoke(0)];
      patches := [];
      inversePatches := [];
      new;
      CreatedWf(heap, enablePatches, root);
    }

    /** `ensureShallowCopy(d)` (src/index.ts:63-80): arrays by `concat`,
        Sets by `new Set`, anything else key by key over `Object.keys`. */
    method EnsureShallowCopy(d: nat)
      requires Valid() && d < |drafts|
      requires drafts[d].copy.None? ==> !CopyThrows(drafts[d].original)
      modifies this
      ensures Snapshot() == EnsureCopy(heap, logging, old(Snapshot()), d) && Valid()
    {
      assert DraftWf(heap, drafts, d);
      if drafts[d].copy.Some? {
        return;
      }
      var original := drafts[d].original;
      var c: Container;
      if original.Obj? && heap[original.id].Arr? {
        c := Arr(heap[original.id].elems);
      } else if original.Obj? && heap[original.id].SetC? {
        c := SetC(heap[original.id].members);
      } else {
        var source := if original.Obj? then (if heap[original.id].Record? then heap[original.id].fields else map[])
                      else PrimFields(original.p);
        var fields := CopyKeys(source);
        c := Record(fields);
      }
      drafts := drafts[d := drafts[d].(copy := Some(c))];
    }

    /** `makeChange(d)` (src/index.ts:486-517): bind `d` into its parent,
        then the parent into the grandparent, without the logs. */
    method MakeChange(d: nat, withLogs: bool) returns (o: Outcome<()>)
      requires Valid() && d < |drafts| && drafts[d].copy.Some?
      modifies this
      ensures (o, Snapshot()) == ChangeStep(heap, logging, old(Snapshot()), d, withLogs)
      decreases d
    {
      assert DraftWf(heap, drafts, d);
      if drafts[d].parent.None? {
        drafts := drafts[d := drafts[d].(updated := true)];
        return Ok(());
      }
      var p := drafts[d].parent.value;
      o := BindToParent(d, withLogs);
      if o.Throw? {
        return;
      }
      assert DraftWf(heap, drafts, p);
      var g := drafts[p].parent;
      if g.None? {
        return Ok(());
      }
      assert g.value < p < d;
      o := MakeChange(g.value, false);
    }

    /** One level of `makeChange` (src/index.ts:492-510): mark the parent
        updated, put the key in front of the latest log entries' paths, and
        store the copy of `d` in the parent's copy. */
    method BindToParent(d: nat, withLogs: bool) returns (o: Outcome<()>)
      requires Valid() && d < |drafts| && drafts[d].copy.Some? && drafts[d].parent.Some?
      modifies this
      ensures (o, Snapshot()) == Bind(heap, logging, old(Snapshot()), d, withLogs)
    {
      assert DraftWf(heap, drafts, d);
      ghost var s := Snapshot();
      var p := drafts[d].parent.value;
      var k := drafts[d].key.value;
      assert DraftWf(heap, drafts, p);
      // the parent already has a copy, so its `copy ??= …` does nothing
      drafts := drafts[p := drafts[p].(updated := true)];
      ghost var s1 := Mark(heap, logging, s, p);
      assert Snapshot() == s1;
      if !KeyTruthy(k) {
        return Ok(());
      }
      ghost var s2 := Prefix(heap, logging, s1, withLogs && logging, k);
      if withLogs && logging {
        if patches == [] {
          return Throw(TypeError);
        }
        patches := PrefixLast(patches, k);
        if inversePatches == [] {
          return Throw(TypeError);
        }
        inversePatches := PrefixLast(inversePatches, k);
      }
      assert Snapshot() == s2.1;
      var c := drafts[p].copy.value;
      if WriteThrows(c, k, Copy(d)) {
        return Throw(RangeError);
      }
      drafts := drafts[p := drafts[p].(copy := Some(Write(c, k, Copy(d))))];
      o := Ok(());
    }

    /** The get trap (src/index.ts:107-332), after the revocation check of
        the proxy: make the copy, then read it. */
    method Get(d: nat, k: Key) returns (o: Outcome<GetResult>)
      requires Valid() && d < |drafts|
      modifies this
      ensures (o, Snapshot()) == GetStep(heap, logging, old(Snapshot()), d, k)
    {
      if drafts[d].revoked {
        return Throw(TypeError);
      }
      if drafts[d].copy.None? && CopyThrows(drafts[d].original) {
        return Throw(TypeError);
      }
      EnsureShallowCopy(d);
      o := ReadCopy(d, k);
    }

    /** The get trap once the copy exists (src/index.ts:112-331): a key the
        copy lacks yields an intercepted mutator or the inherited member;
        an own object value is replaced by a child draft on first read. */
    method ReadCopy(d: nat, k: Key) returns (o: Outcome<GetResult>)
      requires Valid() && d < |drafts| && drafts[d].copy.Some?
      modifies this
      ensures (o, Snapshot()) == Read(heap, logging, old(Snapshot()), d, k)
    {
      var c := drafts[d].copy.value;
      if !HasOwn(c, k) {
        return Ok(MethodOf(c, k));
      }
      var v := Lookup(c, k);
      assert DraftWf(heap, drafts, d);
      LookupIn(heap, |drafts|, c, k);
      if v == Prim(Null) {
        return Throw(TypeError);
      }
      if v.Prim? {
        return Ok(Found(v));
      }
      if v.Proxy? {
        return if drafts[v.draft].revoked then Throw(TypeError) else Ok(Found(v));
      }
      var original := drafts[d].original;
      if CopyThrows(original) {
        return Throw(TypeError);
      }
      var child := OriginalAt(heap, original, k);
      if child.Obj? && child.id in proxies {
        return Ok(Found(Proxy(proxies[child.id])));
      }
      o := CreateChild(d, k, child);
    }

    /** `createDraft` called from the get trap, and the resolve action
        queued after it (src/index.ts:305-322, 458-483). */
    method CreateChild(d: nat, k: Key, child: Value) returns (o: Outcome<GetResult>)
      requires Valid() && d < |drafts| && Pristine(heap, child)
      requires drafts[d].copy.Some? && HasOwn(drafts[d].copy.value, k)
      requires !Lookup(drafts[d].copy.value, k).Prim?
      modifies this
      ensures (o, Snapshot()) == Spawn(heap, logging, old(Snapshot()), d, k, child)
    {
      ghost var s := Snapshot();
      var n := |drafts|;
      drafts := drafts + [Draft(child, None, false, None, Some(d), Some(k), false)];
      finalities := [Revoke(n)] + finalities;
      assert Snapshot() == Register(heap, logging, s, d, k, child);
      if child.Prim? && Truthy(child.p) {
        return Throw(TypeError);
      }
      if child.Obj? {
        proxies := proxies[child.id := n];
      }
      var c := drafts[d].copy.value;
      drafts := drafts[d := drafts[d].(copy := Some(Write(c, k, Proxy(n))))];
      finalities := [Resolve(d, k)] + finalities;
      o := Ok(Found(Proxy(n)));
    }

    /** The set trap (src/index.ts:360-393) writing `v` to `k` through the
        handle of draft `d`. */
    method Set(d: nat, k: Key, v: Value) returns (o: Outcome<bool>)
      requires Valid() && d < |drafts| && ValueIn(heap, |drafts|, v)
      modifies this
      ensures (o, Snapshot()) == SetStep(heap, logging, old(Snapshot()), d, k, v)
    {
      assert DraftWf(heap, drafts, d);
      if drafts[d].revoked {
        return Throw(TypeError);
      }
      if !drafts[d].updated {
        if drafts[d].copy.None? && CopyThrows(drafts[d].original) {
          return Throw(TypeError);
        }
        EnsureShallowCopy(d);
      }
      assert Snapshot() == EnsureCopy(heap, logging, old(Snapshot()), d);
      o := AssignValue(d, k, v);
    }

    /** The set trap once the copy exists (src/index.ts:365-392): a handle
        being assigned gets an unwrap action queued. */
    method AssignValue(d: nat, k: Key, v: Value) returns (o: Outcome<bool>)
      requires Valid() && d < |drafts| && ValueIn(heap, |drafts|, v) && drafts[d].copy.Some?
      modifies this
      ensures (o, Snapshot()) == Assign(heap, logging, old(Snapshot()), d, k, v)
    {
      assert DraftWf(heap, drafts, d);
      ghost var s := Snapshot();
      var isDraft := IsDraft(drafts, v);
      if isDraft.Throw? {
        return Throw(isDraft.error);
      }
      if isDraft.value {
        finalities := [Unwrap(d, k)] + finalities;
        assert Snapshot() == Queue(heap, logging, s, Unwrap(d, k));
      }
      o := WriteKey(d, k, v);
    }

    /** `copy[k] = v` and the rest of the set trap (src/index.ts:372-392). */
    method WriteKey(d: nat, k: Key, v: Value) returns (o: Outcome<bool>)
      requires Valid() && d < |drafts| && ValueIn(heap, |drafts|, v) && drafts[d].copy.Some?
      modifies this
      ensures (o, Snapshot()) == Overwrite(heap, logging, old(Snapshot()), d, k, v)
    {
      assert DraftWf(heap, drafts, d);
      var c := drafts[d].copy.value;
      if WriteThrows(c, k, v) {
        return Throw(RangeError);
      }
      WriteIn(heap, |drafts|, c, k, v);
      var previous := Lookup(c, k);
      var entries := SetTrapEntries(heap, drafts[d].original, k, v, previous);
      var done := Conclude(d, Write(c, k, v), Some(KeysOr(drafts[d].assignedKeys) + {k}), entries.0, Some(entries.1));
      o := if done.Ok? then Ok(true) else Throw(done.error);
    }

    /** The deleteProperty trap (src/index.ts:461-476) deleting `k` through
        the handle of draft `d`. */
    method DeleteProperty(d: nat, k: Key) returns (o: Outcome<bool>)
      requires Valid() && d < |drafts|
      modifies this
      ensures (o, Snapshot()) == DeleteStep(heap, logging, old(Snapshot()), d, k)
    {
      assert DraftWf(heap, drafts, d);
      if drafts[d].revoked {
        return Throw(TypeError);
      }
      if !drafts[d].updated {
        if drafts[d].copy.None? && CopyThrows(drafts[d].original) {
          return Throw(TypeError);
        }
        EnsureShallowCopy(d);
        ghost var s := Snapshot();
        drafts := drafts[d := drafts[d].(assignedKeys := Some({}))];
        assert Snapshot() == SetKeys(heap, logging, s, d, Some({}));
      }
      o := RemoveKey(d, k);
    }

    /** `delete copy[k]` and the rest of the deleteProperty trap
        (src/index.ts:467-475). */
    method RemoveKey(d: nat, k: Key) returns (o: Outcome<bool>)
      requires Valid() && d < |drafts| && drafts[d].copy.Some?
      modifies this
      ensures (o, Snapshot()) == Erase(heap, logging, old(Snapshot()), d, k)
    {
      var c := drafts[d].copy.value;
      if RemoveThrows(c, k) {
        return Throw(TypeError);
      }
      assert DraftWf(heap, drafts, d);
      RemoveIn(heap, |drafts|, c, k);
      var keys := drafts[d].assignedKeys;
      var entries := DeleteTrapEntries(k, Lookup(c, k));
      var done := Conclude(d, Remove(c, k), if keys.Some? then Some(keys.value - {k}) else None, entries.0, Some(entries.1));
      o := if done.Ok? then Ok(true) else Throw(done.error);
    }

    /** What every mutation ends with (src/index.ts:372-391, 467-474 and the
        closures): the new copy and `assigned`, `updated = true`, the
        entries pushed when patches are enabled, then `makeChange(d)` with
        the logs. */
    method Conclude(d: nat, c: Container, keys: Option<set<Key>>, fwd: Patch, inv: Option<Patch>) returns (o: Outcome<()>)
      requires Valid() && d < |drafts| && drafts[d].copy.Some?
      requires !c.MapC? && ContainerIn(heap, |drafts|, c)
      modifies this
      ensures (o, Snapshot()) == Commit(heap, logging, old(Snapshot()), d, c, keys, fwd, inv)
    {
      assert DraftWf(heap, drafts, d);
      var r := drafts[d].(copy := Some(c), assignedKeys := keys, updated := true);
      PutWf(heap, logging, Snapshot(), d, r);
      drafts := drafts[d := r];
      if logging {
        patches := patches + [fwd];
        if inv.Some? {
          inversePatches := inversePatches + [inv.value];
        }
      }
      o := MakeChange(d, true);
    }

    // ---- the intercepting closures ----

    /** The part every closure shares after its native mutation left the
        copy as `c` (src/index.ts:117-297); `marks` is false only for `pop`,
        which never sets `assigned[name]`. */
    method Intercept(d: nat, c: Container, name: string, marks: bool, fwd: Patch, inv: Option<Patch>) returns (o: Outcome<()>)
      requires Valid() && d < |drafts| && drafts[d].copy.Some?
      requires !c.MapC? && ContainerIn(heap, |drafts|, c)
      modifies this
      ensures (o, Snapshot()) == Closure(heap, logging, old(Snapshot()), d, c, name, marks, fwd, inv)
    {
      assert DraftWf(heap, drafts, d);
      var keys := if drafts[d].updated then drafts[d].assignedKeys else Some({});
      if marks && keys.None? {
        // `assigned[name] = true` on the `null` left by `makeChange`
        drafts := drafts[d := drafts[d].(copy := Some(c))];
        return Throw(TypeError);
      }
      o := Conclude(d, c, if marks then Some(keys.value + {Name(name)}) else keys, fwd, inv);
    }

    /** `pop()` on an array draft (src/index.ts:117-130). */
    method Pop(d: nat) returns (o: Outcome<Value>)
      requires Valid() && d < |drafts| && drafts[d].copy.Some? && drafts[d].copy.value.Arr?
      modifies this
      ensures (o, Snapshot()) == PopStep(heap, logging, old(Snapshot()), d)
    {
      var e := drafts[d].copy.value.elems;
      ElemsIn(heap, logging, Snapshot(), d);
      var entries := PopEntries(Popped(e));
      var done := Intercept(d, Arr(Popped(e)), "pop", false, entries.0, Some(entries.1));
      o := if done.Ok? then Ok(LastOr(e)) else Throw(done.error);
    }

    /** `push(...args)` on an array draft (src/index.ts:131-147). */
    method Push(d: nat, args: seq<Value>) returns (o: Outcome<Value>)
      requires Valid() && d < |drafts| && drafts[d].copy.Some? && drafts[d].copy.value.Arr?
      requires forall i | 0 <= i < |args| :: ValueIn(heap, |drafts|, args[i])
      modifies this
      ensures (o, Snapshot()) == PushStep(heap, logging, old(Snapshot()), d, args)
    {
      var e := drafts[d].copy.value.elems;
      ElemsIn(heap, logging, Snapshot(), d);
      var entries := PushEntries(args, |e + args|);
      var done := Intercept(d, Arr(e + args), "push", true, entries.0, Some(entries.1));
      o := if done.Ok? then Ok(Prim(Num(|e + args|))) else Throw(done.error);
    }

    /** `reverse()` on an array draft (src/index.ts:148-159). */
    method Reverse(d: nat) returns (o: Outcome<Value>)
      requires Valid() && d < |drafts| && drafts[d].copy.Some? && drafts[d].copy.value.Arr?
      modifies this
      ensures (o, Snapshot()) == ReverseStep(heap, logging, old(Snapshot()), d)
    {
      var e := drafts[d].copy.value.elems;
      ElemsIn(heap, logging, Snapshot(), d);
      ReversedIn(heap, |drafts|, e);
      var entries := ReverseEntries();
      var done := Intercept(d, Arr(Reversed(e)), "reverse", true, entries.0, Some(entries.1));
      o := if done.Ok? then Ok(Copy(d)) else Throw(done.error);
    }

    /** `shift()` on an array draft (src/index.ts:160-173). */
    method Shift(d: nat) returns (o: Outcome<Value>)
      requires Valid() && d < |drafts| && drafts[d].copy.Some? && drafts[d].copy.value.Arr?
      modifies this
      ensures (o, Snapshot()) == ShiftStep(heap, logging, old(Snapshot()), d)
    {
      var e := drafts[d].copy.value.elems;
      ElemsIn(heap, logging, Snapshot(), d);
      var first := FirstOr(e);
      var entries := ShiftEntries(first);
      var done := Intercept(d, Arr(Shifted(e)), "shift", true, entries.0, Some(entries.1));
      o := if done.Ok? then Ok(first) else Throw(done.error);
    }

    /** `unshift(...args)` on an array draft (src/index.ts:174-185). */
    method Unshift(d: nat, args: seq<Value>) returns (o: Outcome<Value>)
      requires Valid() && d < |drafts| && drafts[d].copy.Some? && drafts[d].copy.value.Arr?
      requires forall i | 0 <= i < |args| :: ValueIn(heap, |drafts|, args[i])
      modifies this
      ensures (o, Snapshot()) == UnshiftStep(heap, logging, old(Snapshot()), d, args)
    {
      var e := drafts[d].copy.value.elems;
      ElemsIn(heap, logging, Snapshot(), d);
      var entries := UnshiftEntries(args);
      var done := Intercept(d, Arr(args + e), "unshift", true, entries.0, Some(entries.1));
      o := if done.Ok? then Ok(Prim(Num(|args + e|))) else Throw(done.error);
    }

    /** `splice(start, count, ...items)` on an array draft
        (src/index.ts:186-199). */
    method Splice(d: nat, start: Option<int>, count: Option<int>, items: seq<Value>) returns (o: Outcome<seq<Value>>)
      requires Valid() && d < |drafts| && drafts[d].copy.Some? && drafts[d].copy.value.Arr?
      requires start.None? ==> count.None?
      requires count.None? ==> items == []
      requires forall i | 0 <= i < |items| :: ValueIn(heap, |drafts|, items[i])
      modifies this
      ensures (o, Snapshot()) == SpliceStep(heap, logging, old(Snapshot()), d, start, count, items)
    {
      var e := drafts[d].copy.value.elems;
      var sp := Spliced(e, start, count, items);
      ElemsIn(heap, logging, Snapshot(), d);
      SplicedIn(heap, |drafts|, e, start, count, items);
      var done := Intercept(d, Arr(sp.0), "splice", true, SpliceEntry(SpliceArgs(start, count, items)), None);
      o := if done.Ok? then Ok(sp.1) else Throw(done.error);
    }

    /** `add(v)` on a Set draft (src/index.ts:208-219). */
    method Add(d: nat, v: Value) returns (o: Outcome<Value>)
      requires Valid() && d < |drafts| && drafts[d].copy.Some? && drafts[d].copy.value.SetC?
      requires ValueIn(heap, |drafts|, v)
      modifies this
      ensures (o, Snapshot()) == AddStep(heap, logging, old(Snapshot()), d, v)
    {
      ElemsIn(heap, logging, Snapshot(), d);
      var entries := SetAddEntries(v);
      var done := Intercept(d, SetC(drafts[d].copy.value.members + {v}), "add", true, entries.0, Some(entries.1));
      o := if done.Ok? then Ok(Copy(d)) else Throw(done.error);
    }

    /** `clear()` on a Set draft (src/index.ts:220-234). */
    method Clear(d: nat) returns (o: Outcome<Value>)
      requires Valid() && d < |drafts| && drafts[d].copy.Some? && drafts[d].copy.value.SetC?
      modifies this
      ensures (o, Snapshot()) == ClearStep(heap, logging, old(Snapshot()), d)
    {
      var entries := SetClearEntries({});
      var done := Intercept(d, SetC({}), "clear", true, entries.0, Some(entries.1));
      o := if done.Ok? then Ok(Prim(Undefined)) else Throw(done.error);
    }

    /** `delete(v)` on a Set draft (src/index.ts:235-247). */
    method Delete(d: nat, v: Value) returns (o: Outcome<Value>)
      requires Valid() && d < |drafts| && drafts[d].copy.Some? && drafts[d].copy.value.SetC?
      modifies this
      ensures (o, Snapshot()) == RemoveStep(heap, logging, old(Snapshot()), d, v)
    {
      ElemsIn(heap, logging, Snapshot(), d);
      var members := drafts[d].copy.value.members;
      var entries := SetDeleteEntries(v);
      var done := Intercept(d, SetC(members - {v}), "delete", true, entries.0, Some(entries.1));
      o := if done.Ok? then Ok(Prim(Bool(v in members))) else Throw(done.error);
    }

    // ---- finalisation ----

    /** `finalizeDraft(root, finalities)` (src/index.ts:519-526): run every
        thunk front to back, then yield the root's original if it was never
        updated and its copy otherwise. */
    method Finalize() returns (o: Outcome<Value>)
      requires Valid()
      modifies this
      ensures (o, Snapshot()) == FinalizeStep(heap, logging, old(Snapshot()))
    {
      assert DraftWf(heap, drafts, 0);
      if drafts[0].revoked {
        // reading `PROXY_DRAFT` of a revoked handle
        return Throw(TypeError);
      }
      ghost var s := Snapshot();
      var done := RunActions();
      assert Settles(s, Snapshot());
      if done.Throw? {
        return Throw(done.error);
      }
      o := if !drafts[0].updated then Ok(drafts[0].original) else Ok(Copy(0));
    }

    /** The `for` loop of `finalizeDraft` (src/index.ts:521-523); the
        first thunk that throws ends it. */
    method RunActions() returns (o: Outcome<()>)
      requires Valid()
      modifies this
      ensures (o, Snapshot()) == RunFrom(heap, logging, old(Snapshot()), 0)
    {
      ghost var goal := RunFrom(heap, logging, Snapshot(), 0);
      var i := 0;
      while i < |finalities|
        invariant Remains(goal, i) && finalities == old(finalities)
        decreases |finalities| - i
      {
        var done := Step(i, goal);
        if done.Throw? {
          return done;
        }
        i := i + 1;
      }
      RunFromEnd(heap, logging, Snapshot());
      o := Ok(());
    }

    /** `goal` is what the loop yields from its `i`-th turn on. */
    ghost predicate Remains(goal: (Outcome<()>, Store), i: nat)
      reads this
    {
      Valid() && i <= |finalities| && goal == RunFrom(heap, logging, Snapshot(), i)
    }

    /** The `i`-th turn of the loop, and what remains after it. */
    method Step(i: nat, ghost goal: (Outcome<()>, Store)) returns (o: Outcome<()>)
      requires Remains(goal, i) && i < |finalities|
      modifies this
      ensures finalities == old(finalities)
      ensures o.Throw? ==> Valid() && goal == (o, Snapshot())
      ensures o.Ok? ==> Remains(goal, i + 1)
    {
      assert ActionWf(drafts, finalities[i]);
      ghost var s := Snapshot();
      o := Perform(finalities[i]);
      RunFromNext(heap, logging, s, i, o, Snapshot());
    }

    /** One thunk of `finalities` (src/index.ts:315-322, 366-370, 478). */
    method Perform(a: Action) returns (o: Outcome<()>)
      requires Valid() && ActionWf(drafts, a)
      modifies this
      ensures (o, Snapshot()) == ActionStep(heap, logging, old(Snapshot()), a)
    {
      match a
      case Revoke(x) =>
        drafts := drafts[x := drafts[x].(revoked := true)];
        o := Ok(());
      case Resolve(p, k) =>
        o := SettleSlot(p, k, false);
      case Unwrap(p, k) =>
        o := SettleSlot(p, k, true);
    }

    /** The resolve (`spread == false`) and unwrap (`spread == true`)
        thunks: a live draft handle in `p.copy[k]` is replaced. */
    method SettleSlot(p: nat, k: Key, spread: bool) returns (o: Outcome<()>)
      requires Valid() && p < |drafts| && drafts[p].copy.Some?
      modifies this
      ensures (o, Snapshot()) == Settle(heap, logging, old(Snapshot()), p, k, spread)
    {
      var v := SlotOf(heap, logging, Snapshot(), p, k);
      var isDraft := IsDraft(drafts, v);
      if isDraft.Throw? {
        return Throw(isDraft.error);
      }
      if !isDraft.value {
        return Ok(());
      }
      o := ReplaceSlot(p, k, v.draft, spread);
    }

    /** The replacement of draft `x`'s handle in `p.copy[k]`: its copy when
        it was updated or when unwrapping (`getValue`), else its original. */
    method ReplaceSlot(p: nat, k: Key, x: nat, spread: bool) returns (o: Outcome<()>)
      requires Valid() && p < |drafts| && x < |drafts| && drafts[p].copy.Some?
      modifies this
      ensures (o, Snapshot()) == Replace(heap, logging, old(Snapshot()), p, k, x, spread)
    {
      assert DraftWf(heap, drafts, x);
      var settled := if spread || drafts[x].updated then Copy(x) else drafts[x].original;
      if spread && drafts[x].copy.None? {
        // `getValue`'s `copy ??= { ...original }`
        ghost var s := Snapshot();
        CopiesIn(heap, |drafts|, drafts[x].original);
        drafts := drafts[x := drafts[x].(copy := Some(SpreadCopy(heap, drafts[x].original)))];
        assert Snapshot() == Spread(heap, logging, s, x);
      }
      o := StoreSlot(p, k, settled);
    }

    /** `p.copy[k] = v` during finalisation; an array's `length` rejects
        anything but a valid length. */
    method StoreSlot(p: nat, k: Key, v: Value) returns (o: Outcome<()>)
      requires Valid() && p < |drafts| && drafts[p].copy.Some? && ValueIn(heap, |drafts|, v)
      modifies this
      ensures (o, Snapshot()) == Rewrite(heap, logging, old(Snapshot()), p, k, v)
    {
      var c := drafts[p].copy.value;
      if WriteThrows(c, k, v) {
        return Throw(RangeError);
      }
      drafts := drafts[p := drafts[p].(copy := Some(Write(c, k, v)))];
      o := Ok(());
    }
  }

  /** The key-by-key copy loop of `ensureShallowCopy`
      (src/index.ts:75-77). */
  method CopyKeys(source: map<Key, Value>) returns (fields: map<Key, Value>)
    ensures fields == source
  {
    fields := map[];
    var todo := source.Keys;
    while todo != {}
      invariant todo <= source.Keys
      invariant fields == map k | k in source.Keys - todo :: source[k]
      decreases todo
    {
      var k :| k in todo;
      fields := fields[k := source[k]];
      todo := todo - {k};
    }
  }
}
