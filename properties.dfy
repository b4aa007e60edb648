/** Properties of the draft store that relate several steps, or a step to
    what the source promises of it. */
module Properties {
  import opened Values
  import opened Patches
  import opened Drafts

  // ---- the get trap ----

  /** Reading the same key twice through the same handle gives the same
      answer and the second read changes nothing: a child draft is created
      once and its handle stays in the copy. */
  lemma GetIdempotent(heap: map<ObjId, Container>, logging: bool, s: Store, d: nat, k: Key)
    requires StoreWf(heap, logging, s) && d < |s.drafts|
    ensures var r := GetStep(heap, logging, s, d, k);
            r.0.Ok? ==> GetStep(heap, logging, r.1, d, k) == r
  {
    var r := GetStep(heap, logging, s, d, k);
    if r.0.Ok? {
      var s1 := EnsureCopy(heap, logging, s, d);
      assert r == Read(heap, logging, s1, d, k);
      var t := r.1;
      assert EnsureCopy(heap, logging, t, d) == t;
      var c := s1.drafts[d].copy.value;
      if HasOwn(c, k) {
        var v := Lookup(c, k);
        assert DraftWf(heap, s1.drafts, d);
        var original := s1.drafts[d].original;
        if !v.Prim? && !v.Proxy? {
          var o := OriginalAt(heap, original, k);
          if !(o.Obj? && o.id in s1.proxies) {
            ReadAfterSpawn(heap, logging, s1, d, k, o);
          }
        }
      }
    }
  }

  /** After a read created a child, the next read of the same key finds
      the child's live handle in the copy. */
  lemma ReadAfterSpawn(heap: map<ObjId, Container>, logging: bool, s: Store, d: nat, k: Key, o: Value)
    requires StoreWf(heap, logging, s) && d < |s.drafts| && Pristine(heap, o)
    requires s.drafts[d].copy.Some? && HasOwn(s.drafts[d].copy.value, k)
    requires !Lookup(s.drafts[d].copy.value, k).Prim?
    ensures var r := Spawn(heap, logging, s, d, k, o);
            r.0.Ok? ==> Read(heap, logging, r.1, d, k) == r
  {
    var r := Spawn(heap, logging, s, d, k, o);
    if r.0.Ok? {
      var n := |s.drafts|;
      assert Lookup(r.1.drafts[d].copy.value, k) == Proxy(n);
      assert !r.1.drafts[n].revoked;
    }
  }

  /** A read that yields a handle not seen before has created exactly one
      child draft of `d` at `k`, unmodified and without a copy, whose
      original is the value at `k` of `d`'s original; its handle is stored
      in `d`'s copy at `k`, its original (an object) is registered, and its
      resolve and revoke actions are queued in front. */
  lemma GetCreatesChild(heap: map<ObjId, Container>, logging: bool, s: Store, d: nat, k: Key)
    requires StoreWf(heap, logging, s) && d < |s.drafts|
    requires HeapClosed(heap) && Pristine(heap, s.drafts[d].original)
    ensures var r := GetStep(heap, logging, s, d, k);
            var n := |s.drafts|;
            r.0.Ok? && r.0.value.Found? && r.0.value.v.Proxy? && r.0.value.v.draft >= n ==>
              && r.0.value.v.draft == n
              && |r.1.drafts| == n + 1
              && r.1.drafts[n].parent == Some(d) && r.1.drafts[n].key == Some(k)
              && !r.1.drafts[n].updated && r.1.drafts[n].copy.None? && !r.1.drafts[n].revoked
              && !CopyThrows(s.drafts[d].original)
              && r.1.drafts[n].original == OriginalAt(heap, s.drafts[d].original, k)
              && Lookup(r.1.drafts[d].copy.value, k) == Proxy(n)
              && (r.1.drafts[n].original.Obj? ==> r.1.proxies == s.proxies[r.1.drafts[n].original.id := n])
              && r.1.finalities == [Resolve(d, k), Revoke(n)] + s.finalities
  {
    var r := GetStep(heap, logging, s, d, k);
    var n := |s.drafts|;
    assert DraftsWf(heap, s.drafts) && DraftWf(heap, s.drafts, d);
    if r.0.Ok? && r.0.value.Found? && r.0.value.v.Proxy? && r.0.value.v.draft >= n {
      var s1 := EnsureCopy(heap, logging, s, d);
      assert r == Read(heap, logging, s1, d, k);
      var c := s1.drafts[d].copy.value;
      var v := Lookup(c, k);
      assert DraftWf(heap, s1.drafts, d);
      LookupIn(heap, |s1.drafts|, c, k);
      assert !v.Proxy?;
      var o := OriginalAt(heap, s1.drafts[d].original, k);
      assert r == Spawn(heap, logging, s1, d, k, o);
    }
  }

  /** Every path that reaches an already registered original reaches the
      same handle: the read returns `proxiesMap`'s draft and changes
      nothing beyond ensuring the copy. */
  lemma GetSharesHandle(heap: map<ObjId, Container>, logging: bool, s: Store, d: nat, k: Key, o: ObjId)
    requires StoreWf(heap, logging, s) && d < |s.drafts| && !s.drafts[d].revoked
    requires Pristine(heap, s.drafts[d].original) && !CopyThrows(s.drafts[d].original)
    requires Copied(heap, s.drafts[d]).Some?
    requires HasOwn(Copied(heap, s.drafts[d]).value, k)
    requires Lookup(Copied(heap, s.drafts[d]).value, k).Obj? || Lookup(Copied(heap, s.drafts[d]).value, k).Copy?
    requires HeapClosed(heap) && OriginalAt(heap, s.drafts[d].original, k) == Obj(o) && o in s.proxies
    ensures GetStep(heap, logging, s, d, k) == (Ok(Found(Proxy(s.proxies[o]))), EnsureCopy(heap, logging, s, d))
  {
    var s1 := EnsureCopy(heap, logging, s, d);
    assert GetStep(heap, logging, s, d, k) == Read(heap, logging, s1, d, k);
    assert s1.drafts[d].copy == Copied(heap, s.drafts[d]);
  }

  /** The get trap hands out the closure named by the key read, and never
      a Map closure: no copy is a Map, since a Map original is copied as a
      plain record. */
  lemma NoMapClosure(heap: map<ObjId, Container>, logging: bool, s: Store, d: nat, k: Key)
    requires StoreWf(heap, logging, s) && d < |s.drafts|
    ensures var r := GetStep(heap, logging, s, d, k);
            r.0.Ok? && r.0.value.Intercepted? ==> r.0.value.name in ArrayMethods + SetMethods && k == Name(r.0.value.name)
  {
    var r := GetStep(heap, logging, s, d, k);
    if r.0.Ok? && r.0.value.Intercepted? {
      var s1 := EnsureCopy(heap, logging, s, d);
      assert r == Read(heap, logging, s1, d, k);
      assert DraftWf(heap, s1.drafts, d);
    }
  }

  // ---- the set and deleteProperty traps ----

  /** The state after the set trap wrote `v` to `k` in `d`'s copy `c`:
      `d` has the written copy, `k` among its assigned keys and is updated,
      as is the root; the logs hold `Set [k] v` and the set trap's inverse
      entry, each with `d`'s own key prepended. */
  predicate SetDone(heap: map<ObjId, Container>, logging: bool, s: Store, d: nat, c: Container, k: Key, v: Value, t: Store)
    requires d < |s.drafts| && d < |t.drafts| && |t.drafts| > 0
    requires Pristine(heap, s.drafts[d].original) && !WriteThrows(c, k, v)
  {
    var dr := s.drafts[d];
    && t.drafts[d] == dr.(copy := Some(Write(c, k, v)), assignedKeys := Some(KeysOr(dr.assignedKeys) + {k}), updated := true)
    && t.drafts[0].updated
    && t.patches == Logged(logging, s.patches, Some(Patch(Set, [k], [One(v)])), PathKey(dr))
    && t.inversePatches == Logged(logging, s.inversePatches, Some(SetTrapEntries(heap, dr.original, k, v, Lookup(c, k)).1), PathKey(dr))
  }

  /** `copy[k] = v` and the rest of the set trap: the write either throws
      a RangeError (an invalid array length, or `makeChange`) or ends in
      `SetDone`. */
  lemma OverwriteEffect(heap: map<ObjId, Container>, logging: bool, s: Store, d: nat, k: Key, v: Value)
    requires StoreWf(heap, logging, s) && d < |s.drafts| && ValueIn(heap, |s.drafts|, v) && s.drafts[d].copy.Some?
    requires Pristine(heap, s.drafts[d].original)
    ensures var r := Overwrite(heap, logging, s, d, k, v);
            var c := s.drafts[d].copy.value;
            && (r.0.Ok? ==> !WriteThrows(c, k, v) && SetDone(heap, logging, s, d, c, k, v, r.1))
            && (r.0.Throw? ==> r.0.error == RangeError)
            && (WriteThrows(c, k, v) ==> r.0 == Throw(RangeError))
  {
  }

  /** The set trap once the copy exists: `null` and revoked handles throw
      a TypeError; a live handle queues its unwrap action; otherwise as
      `OverwriteEffect`. */
  lemma AssignEffect(heap: map<ObjId, Container>, logging: bool, s: Store, d: nat, k: Key, v: Value)
    requires StoreWf(heap, logging, s) && d < |s.drafts| && ValueIn(heap, |s.drafts|, v) && s.drafts[d].copy.Some?
    requires Pristine(heap, s.drafts[d].original)
    ensures var r := Assign(heap, logging, s, d, k, v);
            var c := s.drafts[d].copy.value;
            && (r.0.Ok? ==>
                  && !WriteThrows(c, k, v) && SetDone(heap, logging, s, d, c, k, v, r.1)
                  && r.1.finalities == (if v.Proxy? then [Unwrap(d, k)] + s.finalities else s.finalities))
            && (r.0 == Throw(TypeError) <==> IsDraft(s.drafts, v).Throw?)
            && (r.0.Throw? && IsDraft(s.drafts, v).Ok? ==> r.0.error == RangeError)
            && (IsDraft(s.drafts, v).Ok? && WriteThrows(c, k, v) ==> r.0 == Throw(RangeError))
  {
    match IsDraft(s.drafts, v)
    case Throw(_) =>
    case Ok(isDraft) =>
      var s1 := if isDraft then Queue(heap, logging, s, Unwrap(d, k)) else s;
      assert s1.drafts == s.drafts && s1.patches == s.patches && s1.inversePatches == s.inversePatches;
      assert Assign(heap, logging, s, d, k, v) == Overwrite(heap, logging, s1, d, k, v);
      OverwriteEffect(heap, logging, s1, d, k, v);
  }

  /** A successful assignment through `d` leaves `v` at `k` in `d`'s copy
      (the copy it had, or the one `ensureShallowCopy` makes), `k` among
      the assigned keys, `d` and the root updated; it logs `Set [k] v` and
      the set trap's inverse entry, each with `d`'s own key prepended, and
      queues an unwrap action exactly when `v` is a draft handle. */
  lemma SetEffect(heap: map<ObjId, Container>, logging: bool, s: Store, d: nat, k: Key, v: Value)
    requires StoreWf(heap, logging, s) && d < |s.drafts| && ValueIn(heap, |s.drafts|, v)
    requires Pristine(heap, s.drafts[d].original)
    ensures var r := SetStep(heap, logging, s, d, k, v);
            r.0.Ok? ==>
              && Copied(heap, s.drafts[d]).Some?
              && !WriteThrows(Copied(heap, s.drafts[d]).value, k, v)
              && SetDone(heap, logging, s, d, Copied(heap, s.drafts[d]).value, k, v, r.1)
              && r.1.finalities == (if v.Proxy? then [Unwrap(d, k)] + s.finalities else s.finalities)
  {
    var r := SetStep(heap, logging, s, d, k, v);
    if r.0.Ok? {
      var s1 := EnsureCopy(heap, logging, s, d);
      AssignEffect(heap, logging, s1, d, k, v);
    }
  }

  /** The set trap throws a TypeError exactly when the handle is revoked,
      the draft's original is `undefined` or `null` and it has no copy, or
      the value is `null` or a revoked handle; any other failure is a
      RangeError, which an invalid array length always causes. */
  lemma SetErrors(heap: map<ObjId, Container>, logging: bool, s: Store, d: nat, k: Key, v: Value)
    requires StoreWf(heap, logging, s) && d < |s.drafts| && ValueIn(heap, |s.drafts|, v)
    requires Pristine(heap, s.drafts[d].original)
    ensures var r := SetStep(heap, logging, s, d, k, v);
            var refused := s.drafts[d].revoked || Copied(heap, s.drafts[d]).None? || IsDraft(s.drafts, v).Throw?;
            && (r.0 == Throw(TypeError) <==> refused)
            && (r.0.Throw? && !refused ==> r.0.error == RangeError)
            && (!refused && WriteThrows(Copied(heap, s.drafts[d]).value, k, v) ==> r.0 == Throw(RangeError))
  {
    var r := SetStep(heap, logging, s, d, k, v);
    if !s.drafts[d].revoked && Copied(heap, s.drafts[d]).Some? {
      var s1 := EnsureCopy(heap, logging, s, d);
      assert r == Assign(heap, logging, s1, d, k, v);
      assert s1.drafts[d].copy == Copied(heap, s.drafts[d]);
      assert IsDraft(s1.drafts, v) == IsDraft(s.drafts, v);
      AssignEffect(heap, logging, s1, d, k, v);
    }
  }

  /** The forward entry of an assignment has a path of at most two keys,
      however deep the draft: `makeChange` prepends only the draft's own
      key, and nothing above it. */
  lemma SetPatchPath(heap: map<ObjId, Container>, logging: bool, s: Store, d: nat, k: Key, v: Value)
    requires StoreWf(heap, logging, s) && d < |s.drafts| && ValueIn(heap, |s.drafts|, v)
    requires Pristine(heap, s.drafts[d].original)
    ensures var r := SetStep(heap, logging, s, d, k, v);
            logging && r.0.Ok? ==>
              && |r.1.patches| == |s.patches| + 1
              && r.1.patches[..|s.patches|] == s.patches
              && r.1.patches[|s.patches|] == Patch(Set, PathPrefix(s.drafts[d]) + [k], [One(v)])
              && |r.1.patches[|s.patches|].path| <= 2
  {
    SetEffect(heap, logging, s, d, k, v);
    var r := SetStep(heap, logging, s, d, k, v);
    if logging && r.0.Ok? {
      var log := s.patches + [Patch(Set, [k], [One(v)])];
      var pk := PathKey(s.drafts[d]);
      assert r.1.patches == Lengthened(log, logging, pk);
      if pk.Some? {
        assert r.1.patches == PrefixLast(log, pk.value);
        assert [pk.value] + [k] == PathPrefix(s.drafts[d]) + [k];
      }
    }
  }

  /** The state after the deleteProperty trap removed `k` from `d`'s copy
      `c`: `d` has the reduced copy and is updated, as is the root; `k` is
      no longer assigned (a draft not updated before starts with no
      assigned keys, one updated only through a child keeps having none);
      the logs hold `Delete [k]` and an inverse restoring the previous
      value, each with `d`'s own key prepended. */
  predicate DeleteDone(logging: bool, s: Store, d: nat, c: Container, k: Key, t: Store)
    requires d < |s.drafts| && d < |t.drafts| && |t.drafts| > 0 && !RemoveThrows(c, k)
  {
    var dr := s.drafts[d];
    var keys := if !dr.updated then Some({}) else if dr.assignedKeys.Some? then Some(dr.assignedKeys.value - {k}) else None;
    && t.drafts[d] == dr.(copy := Some(Remove(c, k)), assignedKeys := keys, updated := true)
    && t.drafts[0].updated
    && t.patches == Logged(logging, s.patches, Some(Patch(Delete, [k], [])), PathKey(dr))
    && t.inversePatches == Logged(logging, s.inversePatches, Some(Patch(Set, [k], [One(Lookup(c, k))])), PathKey(dr))
  }

  /** `delete copy[k]` and the rest of the trap: an array's `length`
      throws a TypeError; otherwise the delete ends in `DeleteDone` or
      `makeChange` throws a RangeError. */
  lemma EraseEffect(heap: map<ObjId, Container>, logging: bool, s: Store, d: nat, k: Key)
    requires StoreWf(heap, logging, s) && d < |s.drafts| && s.drafts[d].copy.Some?
    ensures var r := Erase(heap, logging, s, d, k);
            var c := s.drafts[d].copy.value;
            && (r.0.Ok? ==> !RemoveThrows(c, k) && DeleteDone(logging, s.(drafts := s.drafts[d := s.drafts[d].(updated := true)]), d, c, k, r.1))
            && (r.0 == Throw(TypeError) <==> RemoveThrows(c, k))
            && (r.0.Throw? && !RemoveThrows(c, k) ==> r.0.error == RangeError)
  {
  }

  /** A successful delete through `d` ends in `DeleteDone` from the copy
      `d` had or the one `ensureShallowCopy` makes. */
  lemma DeleteEffect(heap: map<ObjId, Container>, logging: bool, s: Store, d: nat, k: Key)
    requires StoreWf(heap, logging, s) && d < |s.drafts|
    ensures var r := DeleteStep(heap, logging, s, d, k);
            r.0.Ok? ==>
              && Copied(heap, s.drafts[d]).Some? && !RemoveThrows(Copied(heap, s.drafts[d]).value, k)
              && DeleteDone(logging, s, d, Copied(heap, s.drafts[d]).value, k, r.1)
  {
    var dr := s.drafts[d];
    assert DraftWf(heap, s.drafts, d);
    if !dr.revoked && Copied(heap, dr).Some? {
      if dr.updated {
        EraseEffect(heap, logging, s, d, k);
        assert s.drafts[d := s.drafts[d].(updated := true)] == s.drafts;
      } else {
        FirstDelete(heap, logging, s, d, k);
      }
    }
  }

  /** The delete that first updates a draft starts it with no assigned
      keys. */
  lemma FirstDelete(heap: map<ObjId, Container>, logging: bool, s: Store, d: nat, k: Key)
    requires StoreWf(heap, logging, s) && d < |s.drafts| && !s.drafts[d].updated && Copied(heap, s.drafts[d]).Some?
    ensures var s1 := SetKeys(heap, logging, EnsureCopy(heap, logging, s, d), d, Some({}));
            var r := Erase(heap, logging, s1, d, k);
            r.0.Ok? ==>
              && !RemoveThrows(Copied(heap, s.drafts[d]).value, k)
              && DeleteDone(logging, s, d, Copied(heap, s.drafts[d]).value, k, r.1)
  {
    var dr := s.drafts[d];
    var s1 := SetKeys(heap, logging, EnsureCopy(heap, logging, s, d), d, Some({}));
    EraseEffect(heap, logging, s1, d, k);
    var s2 := s1.(drafts := s1.drafts[d := s1.drafts[d].(updated := true)]);
    assert s2.drafts[d] == dr.(copy := Copied(heap, dr), assignedKeys := Some({}), updated := true);
    assert PathKey(s2.drafts[d]) == PathKey(dr);
    var none: set<Key> := {};
    assert none - {k} == none;
  }

  /** The deleteProperty trap throws a TypeError exactly when the handle
      is revoked, the draft's original is `undefined` or `null` and it has
      no copy, or the key is an array's `length`; any other failure is a
      RangeError. */
  lemma DeleteErrors(heap: map<ObjId, Container>, logging: bool, s: Store, d: nat, k: Key)
    requires StoreWf(heap, logging, s) && d < |s.drafts|
    ensures var r := DeleteStep(heap, logging, s, d, k);
            var refused := s.drafts[d].revoked || Copied(heap, s.drafts[d]).None?
                           || RemoveThrows(Copied(heap, s.drafts[d]).value, k);
            && (r.0 == Throw(TypeError) <==> refused)
            && (r.0.Throw? && !refused ==> r.0.error == RangeError)
  {
    var dr := s.drafts[d];
    assert DraftWf(heap, s.drafts, d);
    if !dr.revoked && Copied(heap, dr).Some? {
      if dr.updated {
        EraseEffect(heap, logging, s, d, k);
      } else {
        var s1 := SetKeys(heap, logging, EnsureCopy(heap, logging, s, d), d, Some({}));
        EraseEffect(heap, logging, s1, d, k);
      }
    }
  }

  // ---- the intercepting closures ----

  /** Every intercepting closure leaves `d` updated with the mutated copy
      and, on success, the root updated and the entries logged with `d`'s
      own key prepended. All but `pop` add the method's name to the
      assigned keys, which throws a TypeError when a draft updated only
      through a child has no `assigned` (the copy is already mutated
      then); the only other TypeError comes from `makeChange` prefixing an
      empty inverse log when no inverse entry was recorded. */
  lemma ClosureEffect(heap: map<ObjId, Container>, logging: bool, s: Store, d: nat, c: Container,
                      name: string, marks: bool, fwd: Patch, inv: Option<Patch>)
    requires StoreWf(heap, logging, s) && d < |s.drafts| && s.drafts[d].copy.Some?
    requires !c.MapC? && ContainerIn(heap, |s.drafts|, c)
    ensures var r := Closure(heap, logging, s, d, c, name, marks, fwd, inv);
            var dr := s.drafts[d];
            var keys := if dr.updated then dr.assignedKeys else Some({});
            var unmarkable := marks && keys.None?;
            && (r.0 == Throw(TypeError) <==>
                  unmarkable || (logging && inv.None? && s.inversePatches == [] && PathKey(dr).Some?))
            && (r.0.Throw? && r.0.error != TypeError ==> r.0.error == RangeError)
            && (r.0.Ok? ==>
                  && r.1.drafts[d] == dr.(copy := Some(c), assignedKeys := if marks then Some(keys.value + {Name(name)}) else keys, updated := true)
                  && r.1.drafts[0].updated
                  && r.1.patches == Logged(logging, s.patches, Some(fwd), PathKey(dr))
                  && r.1.inversePatches == Logged(logging, s.inversePatches, inv, PathKey(dr)))
  {
  }

  /** `splice` records no inverse entry, so `makeChange` prepends the
      draft's key once more to the previous inverse entry, or throws when
      there is none. */
  lemma SpliceRelabels(heap: map<ObjId, Container>, logging: bool, s: Store, d: nat,
                       start: Option<int>, count: Option<int>, items: seq<Value>)
    requires StoreWf(heap, logging, s) && d < |s.drafts| && s.drafts[d].copy.Some? && s.drafts[d].copy.value.Arr?
    requires start.None? ==> count.None?
    requires count.None? ==> items == []
    requires forall i | 0 <= i < |items| :: ValueIn(heap, |s.drafts|, items[i])
    requires logging && PathKey(s.drafts[d]).Some? && (s.drafts[d].updated ==> s.drafts[d].assignedKeys.Some?)
    ensures var r := SpliceStep(heap, logging, s, d, start, count, items);
            && (s.inversePatches == [] <==> r.0 == Throw(TypeError))
            && (r.0.Ok? ==> r.1.inversePatches == PrefixLast(s.inversePatches, PathKey(s.drafts[d]).value))
  {
    var e := Elems(s, d);
    ElemsIn(heap, logging, s, d);
    SplicedIn(heap, |s.drafts|, e, start, count, items);
    var sp := Spliced(e, start, count, items);
    ClosureEffect(heap, logging, s, d, Arr(sp.0), "splice", true, SpliceEntry(SpliceArgs(start, count, items)), None);
  }

  // ---- finalisation ----

  /** The thunks from the `i`-th on revoke every draft whose revocation
      is among them. */
  lemma {:induction false} RunRevokes(heap: map<ObjId, Container>, logging: bool, s: Store, i: nat)
    requires StoreWf(heap, logging, s) && i <= |s.finalities|
    ensures var r := RunFrom(heap, logging, s, i);
            r.0.Ok? ==> forall j | i <= j < |s.finalities| && s.finalities[j].Revoke? :: r.1.drafts[s.finalities[j].draft].revoked
    decreases |s.finalities| - i
  {
    if i < |s.finalities| {
      var a := s.finalities[i];
      assert ActionWf(s.drafts, a);
      var o := ActionStep(heap, logging, s, a);
      RunFromNext(heap, logging, s, i, o.0, o.1);
      if o.0.Ok? {
        RunRevokes(heap, logging, o.1, i + 1);
      }
    }
  }

  /** A finalisation that succeeds revokes every draft handle: each
      draft's revocation was queued when it was created. */
  lemma FinalizeRevokesAll(heap: map<ObjId, Container>, logging: bool, s: Store)
    requires StoreWf(heap, logging, s)
    ensures var r := FinalizeStep(heap, logging, s);
            r.0.Ok? ==> forall x | 0 <= x < |r.1.drafts| :: r.1.drafts[x].revoked
  {
    var r := FinalizeStep(heap, logging, s);
    if r.0.Ok? {
      RunRevokes(heap, logging, s, 0);
      forall x | 0 <= x < |r.1.drafts| ensures r.1.drafts[x].revoked {
        assert Revoke(x) in s.finalities;
        var j :| 0 <= j < |s.finalities| && s.finalities[j] == Revoke(x);
      }
    }
  }

  /** A resolve action on a slot holding a live handle of draft `x`
      leaves `x`'s copy there if `x` was updated and `x`'s original
      otherwise; an unwrap action always leaves the copy. */
  lemma SettleRebinds(heap: map<ObjId, Container>, logging: bool, s: Store, p: nat, k: Key, spread: bool)
    requires StoreWf(heap, logging, s) && p < |s.drafts| && s.drafts[p].copy.Some?
    ensures var c := s.drafts[p].copy.value;
            var v := Lookup(c, k);
            var a := if spread then Unwrap(p, k) else Resolve(p, k);
            var r := ActionStep(heap, logging, s, a);
            v.Proxy? && v.draft < |s.drafts| && !s.drafts[v.draft].revoked ==>
              var x := v.draft;
              var nv := if spread || s.drafts[x].updated then Copy(x) else s.drafts[x].original;
              && (r.0.Ok? <==> !WriteThrows(c, k, nv))
              && (r.0.Ok? ==> r.1.drafts[p].copy == Some(Write(c, k, nv)))
              && (r.0.Ok? && spread ==> r.1.drafts[x].copy.Some?)
  {
  }
}
