/** The draft store of one `create` invocation and, as functions of it, what
    each proxy trap, each intercepted container method, `makeChange` and each
    finalisation action does (src/index.ts). The `Engine` class runs these
    steps in place; the lemmas at the end state the properties of the steps. */
module Drafts {
  import opened Values
  import opened Patches

  /** A `ProxyDraft` record (src/index.ts:29-39). Its handle is `Proxy(id)`
      and its copy is `Copy(id)`, where `id` is its index in the store.
      `revoked` stands for `Proxy.revocable`'s revocation. The record's
      `type` field is always `Object` in the source and is left out. */
  datatype Draft = Draft(
    original: Value,
    copy: Option<Container>,
    updated: bool,
    assignedKeys: Option<set<Key>>,
    parent: Option<DraftId>,
    key: Option<Key>,
    revoked: bool)

  /** One thunk of `finalities`, as an explicit record. */
  datatype Action =
    | Resolve(parent: DraftId, key: Key)  // get's thunk for a new child draft (src/index.ts:315-322)
    | Unwrap(owner: DraftId, slot: Key)   // set's thunk for an assigned draft handle (src/index.ts:366-370)
    | Revoke(draft: DraftId)              // createDraft's `revoke` (src/index.ts:478)

  /** `proxiesMap`, `finalities`, `patches` and `inversePatches` of one
      invocation, with the draft records they refer to. */
  datatype Store = Store(
    drafts: seq<Draft>,
    proxies: map<ObjId, DraftId>,
    finalities: seq<Action>,
    patches: seq<Patch>,
    inversePatches: seq<Patch>)

  /** What a read through the get trap yields: a value, one of the
      intercepting closures (named by its method), or whatever the native
      prototype provides (not modelled). */
  datatype GetResult = Found(v: Value) | Intercepted(name: string) | Inherited

  const ArrayMethods: set<string> := {"pop", "push", "reverse", "shift", "unshift", "splice"}
  const SetMethods: set<string> := {"clear", "delete", "add"}
  const MapMethods: set<string> := {"clear", "delete", "set"}

  // ---- invariant of the store ----

  predicate DraftWf(heap: map<ObjId, Container>, ds: seq<Draft>, d: nat)
    requires d < |ds|
  {
    var r := ds[d];
    && Pristine(heap, r.original)
    && (d == 0 <==> r.parent.None?)
    && (r.parent.Some? ==> r.parent.value < d && r.key.Some? && ds[r.parent.value].copy.Some?)
    && (r.updated ==> r.copy.Some?)
    && (r.copy.Some? ==> !r.copy.value.MapC? && ContainerIn(heap, |ds|, r.copy.value))
  }

  predicate ActionWf(ds: seq<Draft>, a: Action) {
    match a
    case Resolve(p, _) => p < |ds| && ds[p].copy.Some?
    case Unwrap(p, _) => p < |ds| && ds[p].copy.Some?
    case Revoke(d) => d < |ds|
  }

  /** Draft 0 is the root and every other draft has an older parent that
      already has a copy; an updated draft has a copy; no copy is a Map;
      every copy refers only to the caller's objects and known drafts. */
  predicate DraftsWf(heap: map<ObjId, Container>, ds: seq<Draft>) {
    && HeapClosed(heap)
    && |ds| > 0
    && forall d | 0 <= d < |ds| :: DraftWf(heap, ds, d)
  }

  /** `proxiesMap` maps the caller's objects to known drafts. */
  predicate ProxiesWf(heap: map<ObjId, Container>, proxies: map<ObjId, DraftId>, n: nat) {
    forall o | o in proxies :: o in heap && proxies[o] < n
  }

  /** Every queued finalisation action refers to known drafts. */
  predicate ActionsWf(ds: seq<Draft>, finalities: seq<Action>) {
    forall i | 0 <= i < |finalities| :: ActionWf(ds, finalities[i])
  }

  /** Every draft's revocation is queued. */
  predicate Revocable(s: Store) {
    forall x | 0 <= x < |s.drafts| :: Revoke(x) in s.finalities
  }

  /** The invariant every step keeps; without patches enabled both logs
      stay empty. */
  predicate StoreWf(heap: map<ObjId, Container>, logging: bool, s: Store) {
    && DraftsWf(heap, s.drafts)
    && ProxiesWf(heap, s.proxies, |s.drafts|)
    && ActionsWf(s.drafts, s.finalities)
    && Revocable(s)
    && (!logging ==> s.patches == [] && s.inversePatches == [])
  }

  /** What a step before finalisation leaves alone: no draft disappears,
      no draft's `original`, `parent`, `key` or revocation changes, no copy
      disappears and no `updated` flag is cleared. */
  predicate Keeps(s: Store, t: Store) {
    && |s.drafts| <= |t.drafts|
    && forall d | 0 <= d < |s.drafts| ::
         && t.drafts[d].original == s.drafts[d].original
         && t.drafts[d].parent == s.drafts[d].parent
         && t.drafts[d].key == s.drafts[d].key
         && (s.drafts[d].copy.Some? ==> t.drafts[d].copy.Some?)
         && (s.drafts[d].updated ==> t.drafts[d].updated)
         && t.drafts[d].revoked == s.drafts[d].revoked
  }

  /** What a finalisation action leaves alone: the same drafts with the
      same `original`, `parent`, `key` and `updated`, none losing its copy. */
  predicate Settles(s: Store, t: Store) {
    && |s.drafts| == |t.drafts|
    && forall d | 0 <= d < |s.drafts| ::
         && t.drafts[d].original == s.drafts[d].original
         && t.drafts[d].parent == s.drafts[d].parent
         && t.drafts[d].key == s.drafts[d].key
         && (s.drafts[d].copy.Some? ==> t.drafts[d].copy.Some?)
         && t.drafts[d].updated == s.drafts[d].updated
  }

  /** The initial store of `create`: the root draft, registered in
      `proxiesMap`, with its revocation queued (src/index.ts:542-557). */
  function Created(root: ObjId): (s: Store)
    ensures |s.drafts| == 1 && !s.drafts[0].updated && s.drafts[0].copy.None?
  {
    Store([Draft(Obj(root), None, false, None, None, None, false)], map[root := 0], [Revoke(0)], [], [])
  }

  /** The initial store satisfies the invariant. */
  lemma CreatedWf(heap: map<ObjId, Container>, logging: bool, root: ObjId)
    requires HeapClosed(heap) && root in heap
    ensures StoreWf(heap, logging, Created(root))
  {
    var s := Created(root);
    assert DraftWf(heap, s.drafts, 0);
    assert ActionWf(s.drafts, s.finalities[0]);
  }

  // ---- small helpers ----

  function Log(logging: bool, log: seq<Patch>, p: Patch): seq<Patch> {
    if logging then log + [p] else log
  }

  /** `getProxyDraft(v)` as a test (src/index.ts:335-340): `null` and a
      revoked handle throw when their `PROXY_DRAFT` member is read. */
  function IsDraft(ds: seq<Draft>, v: Value): Outcome<bool>
    requires v.Proxy? ==> v.draft < |ds|
  {
    if v == Prim(Null) then Throw(TypeError)
    else if v.Proxy? then (if ds[v.draft].revoked then Throw(TypeError) else Ok(true))
    else Ok(false)
  }

  /** `target.original[key]`; `undefined` and `null` originals never get
      here, as reading any key of their drafts throws first. */
  function OriginalAt(heap: map<ObjId, Container>, original: Value, k: Key): (v: Value)
    requires HeapClosed(heap) && Pristine(heap, original) && !CopyThrows(original)
    ensures Pristine(heap, v)
  {
    if original.Obj? then
      LookupIn(heap, 0, heap[original.id], k);
      Lookup(heap[original.id], k)
    else if original.p.Str? && k == Length then Prim(Num(|original.p.s|))
    else Lookup(Record(PrimFields(original.p)), k)
  }

  /** The copy `ensureShallowCopy` leaves a draft with: the one it has,
      else `ShallowCopy` of its original (`None` where that throws). */
  function Copied(heap: map<ObjId, Container>, r: Draft): Option<Container> {
    if r.copy.Some? then r.copy
    else if Pristine(heap, r.original) && !CopyThrows(r.original) then Some(ShallowCopy(heap, r.original))
    else None
  }

  /** `ensureShallowCopy(d)` (src/index.ts:63-80) on the store: a draft
      that has a copy keeps it; otherwise it gets `ShallowCopy` of its
      original. No original, no other draft and nothing else changes. */
  function EnsureCopy(heap: map<ObjId, Container>, logging: bool, s: Store, d: nat): (t: Store)
    requires StoreWf(heap, logging, s) && d < |s.drafts|
    requires s.drafts[d].copy.None? ==> !CopyThrows(s.drafts[d].original)
    ensures StoreWf(heap, logging, t) && Keeps(s, t) && |t.drafts| == |s.drafts|
    ensures t.drafts[d].copy.Some?
    ensures s.drafts[d].copy.Some? ==> t == s
    ensures t == s.(drafts := s.drafts[d := s.drafts[d].(copy := Copied(heap, s.drafts[d]))])
  {
    assert DraftWf(heap, s.drafts, d);
    if s.drafts[d].copy.Some? then s
    else
      CopiesIn(heap, |s.drafts|, s.drafts[d].original);
      var r := s.drafts[d].(copy := Some(ShallowCopy(heap, s.drafts[d].original)));
      PutWf(heap, logging, s, d, r);
      s.(drafts := s.drafts[d := r])
  }

  /** Replacing one draft record by one with the same `original`, `parent`
      and `key`, that loses neither its copy nor its `updated` flag and
      whose copy refers only to known drafts, keeps the store invariant. */
  lemma PutWf(heap: map<ObjId, Container>, logging: bool, s: Store, d: nat, r: Draft)
    requires StoreWf(heap, logging, s) && d < |s.drafts|
    requires r.original == s.drafts[d].original && r.parent == s.drafts[d].parent && r.key == s.drafts[d].key
    requires s.drafts[d].copy.Some? ==> r.copy.Some?
    requires s.drafts[d].updated ==> r.updated
    requires r.updated ==> r.copy.Some?
    requires r.copy.Some? ==> !r.copy.value.MapC? && ContainerIn(heap, |s.drafts|, r.copy.value)
    ensures StoreWf(heap, logging, s.(drafts := s.drafts[d := r]))
    ensures r.updated == s.drafts[d].updated ==> Settles(s, s.(drafts := s.drafts[d := r]))
    ensures r.revoked == s.drafts[d].revoked ==> Keeps(s, s.(drafts := s.drafts[d := r]))
  {
    var ds := s.drafts[d := r];
    forall x | 0 <= x < |ds| ensures DraftWf(heap, ds, x) {
      assert DraftWf(heap, s.drafts, x);
    }
    forall i | 0 <= i < |s.finalities| ensures ActionWf(ds, s.finalities[i]) {
      assert ActionWf(s.drafts, s.finalities[i]);
    }
    assert Revocable(s);
  }

  /** Appending a new draft record whose parent has a copy, with its
      revocation queued in front, keeps the store invariant. */
  lemma AddWf(heap: map<ObjId, Container>, logging: bool, s: Store, r: Draft)
    requires StoreWf(heap, logging, s)
    requires Pristine(heap, r.original) && r.copy.None? && !r.updated
    requires r.parent.Some? && r.parent.value < |s.drafts| && r.key.Some? && s.drafts[r.parent.value].copy.Some?
    ensures StoreWf(heap, logging, s.(drafts := s.drafts + [r], finalities := [Revoke(|s.drafts|)] + s.finalities))
    ensures Keeps(s, s.(drafts := s.drafts + [r], finalities := [Revoke(|s.drafts|)] + s.finalities))
  {
    var ds := s.drafts + [r];
    var f := [Revoke(|s.drafts|)] + s.finalities;
    forall x | 0 <= x < |ds| ensures DraftWf(heap, ds, x) {
      if x < |s.drafts| {
        assert DraftWf(heap, s.drafts, x);
        if ds[x].copy.Some? {
          ContainerInGrow(heap, |s.drafts|, |ds|, ds[x].copy.value);
        }
      }
    }
    forall i | 0 <= i < |f| ensures ActionWf(ds, f[i]) {
      if i > 0 {
        assert f[i] == s.finalities[i - 1];
        assert ActionWf(s.drafts, s.finalities[i - 1]);
      }
    }
    forall x | 0 <= x < |ds| ensures Revoke(x) in f {
      if x < |s.drafts| {
        assert Revoke(x) in s.finalities;
      } else {
        assert f[0] == Revoke(x);
      }
    }
  }

  /** `finalities.unshift(a)`. */
  function Queue(heap: map<ObjId, Container>, logging: bool, s: Store, a: Action): (t: Store)
    requires StoreWf(heap, logging, s) && ActionWf(s.drafts, a)
    ensures StoreWf(heap, logging, t) && t == s.(finalities := [a] + s.finalities)
  {
    QueueWf(heap, logging, s, a);
    s.(finalities := [a] + s.finalities)
  }

  /** Queueing an action on known drafts keeps the store invariant. */
  lemma QueueWf(heap: map<ObjId, Container>, logging: bool, s: Store, a: Action)
    requires StoreWf(heap, logging, s) && ActionWf(s.drafts, a)
    ensures StoreWf(heap, logging, s.(finalities := [a] + s.finalities))
  {
    var f := [a] + s.finalities;
    forall i | 0 <= i < |f| ensures ActionWf(s.drafts, f[i]) {
      if i > 0 {
        assert f[i] == s.finalities[i - 1];
      }
    }
    forall x | 0 <= x < |s.drafts| ensures Revoke(x) in f {
      assert Revoke(x) in s.finalities;
    }
  }

  // ---- makeChange ----

  /** The key `makeChange` prepends to the latest log entries for `r`:
      its own key, when it has a parent and the key is truthy. */
  function PathKey(r: Draft): (k: Option<Key>)
    ensures k.Some? <==> r.parent.Some? && r.key.Some? && KeyTruthy(r.key.value)
  {
    if r.parent.Some? && r.key.Some? && KeyTruthy(r.key.value) then r.key else None
  }

  /** `log` with `k` prepended to its latest entry's path, when `on`. */
  function Lengthened(log: seq<Patch>, on: bool, k: Option<Key>): seq<Patch> {
    if on && k.Some? && log != [] then PrefixLast(log, k.value) else log
  }

  /** The first level of `makeChange(d)` for a draft with a parent
      (src/index.ts:491-509): mark the parent updated and, when `d`'s key is
      truthy, prepend it to the path of the latest forward and inverse
      entries (throwing when a log is empty) and bind the parent's copy slot
      to `d`'s copy. The parent's `copy ??= …` never fires: a draft with a
      child already has a copy. Only the parent's record changes. */
  function Bind(heap: map<ObjId, Container>, logging: bool, s: Store, d: nat, withLogs: bool): (r: (Outcome<()>, Store))
    requires StoreWf(heap, logging, s) && d < |s.drafts| && s.drafts[d].copy.Some? && s.drafts[d].parent.Some?
    ensures StoreWf(heap, logging, r.1) && Keeps(s, r.1) && |r.1.drafts| == |s.drafts|
    ensures r.1.proxies == s.proxies && r.1.finalities == s.finalities
    ensures var p := s.drafts[d].parent.value;
            && p < d
            && r.1.drafts[p].updated
            && r.1.drafts[p].assignedKeys == s.drafts[p].assignedKeys
            && r.1.drafts == s.drafts[p := r.1.drafts[p]]
    ensures r.0.Ok? ==> r.1.patches == Lengthened(s.patches, withLogs && logging, PathKey(s.drafts[d]))
    ensures r.0.Ok? ==> r.1.inversePatches == Lengthened(s.inversePatches, withLogs && logging, PathKey(s.drafts[d]))
    ensures r.0.Throw? ==> (withLogs && logging && PathKey(s.drafts[d]).Some? && (s.patches == [] || s.inversePatches == [])) || r.0.error == RangeError
    ensures withLogs && logging && PathKey(s.drafts[d]).Some? && (s.patches == [] || s.inversePatches == []) ==>
      r.0 == Throw(TypeError)
  {
    assert DraftWf(heap, s.drafts, d);
    var p := s.drafts[d].parent.value;
    var k := s.drafts[d].key.value;
    var s1 := Mark(heap, logging, s, p);
    if !KeyTruthy(k) then (Ok(()), s1)
    else
      var s2 := Prefix(heap, logging, s1, withLogs && logging, k);
      if s2.0.Throw? then s2
      else Rebind(heap, logging, s2.1, p, k, d)
  }

  /** `Bind` binds the parent's copy slot for `d`'s key to `d`'s copy when
      the key is truthy and the call returns normally; with a falsy key it
      returns normally and leaves the parent's copy alone, and when it
      throws the parent's copy is as it was. */
  lemma BindBinds(heap: map<ObjId, Container>, logging: bool, s: Store, d: nat, withLogs: bool)
    requires StoreWf(heap, logging, s) && d < |s.drafts| && s.drafts[d].copy.Some? && s.drafts[d].parent.Some?
    ensures var r := Bind(heap, logging, s, d, withLogs);
      var p := s.drafts[d].parent.value;
      && p < d && s.drafts[p].copy.Some?
      && (PathKey(s.drafts[d]).None? ==> r.0.Ok?)
      && (r.0.Throw? || PathKey(s.drafts[d]).None? ==> r.1.drafts[p].copy == s.drafts[p].copy)
      && (r.0.Ok? && PathKey(s.drafts[d]).Some? ==>
            && !WriteThrows(s.drafts[p].copy.value, PathKey(s.drafts[d]).value, Copy(d))
            && r.1.drafts[p].copy == Some(Write(s.drafts[p].copy.value, PathKey(s.drafts[d]).value, Copy(d))))
  {
    assert DraftWf(heap, s.drafts, d);
  }

  /** `parent.updated = true` (src/index.ts:492). */
  function Mark(heap: map<ObjId, Container>, logging: bool, s: Store, p: nat): (t: Store)
    requires StoreWf(heap, logging, s) && p < |s.drafts| && s.drafts[p].copy.Some?
    ensures StoreWf(heap, logging, t) && Keeps(s, t)
    ensures t == s.(drafts := s.drafts[p := s.drafts[p].(updated := true)])
  {
    assert DraftWf(heap, s.drafts, p);
    PutWf(heap, logging, s, p, s.drafts[p].(updated := true));
    s.(drafts := s.drafts[p := s.drafts[p].(updated := true)])
  }

  /** Prepending `k` to the path of the latest forward and inverse entries
      (src/index.ts:500-508): `slice(-1)` of an empty log gives no entry,
      and reading its path throws. */
  function Prefix(heap: map<ObjId, Container>, logging: bool, s: Store, logs: bool, k: Key): (r: (Outcome<()>, Store))
    requires StoreWf(heap, logging, s)
    ensures StoreWf(heap, logging, r.1) && r.1.drafts == s.drafts
    ensures r.1.proxies == s.proxies && r.1.finalities == s.finalities
    ensures r.0.Ok? ==> (r.1.patches == Lengthened(s.patches, logs, Some(k))
                     && r.1.inversePatches == Lengthened(s.inversePatches, logs, Some(k)))
    ensures r.0.Throw? <==> logs && (s.patches == [] || s.inversePatches == [])
    ensures r.0.Throw? ==> r.0.error == TypeError
  {
    if !logs then (Ok(()), s)
    else if s.patches == [] then (Throw(TypeError), s)
    else
      var pat := PrefixLast(s.patches, k);
      if s.inversePatches == [] then (Throw(TypeError), s.(patches := pat))
      else (Ok(()), s.(patches := pat, inversePatches := PrefixLast(s.inversePatches, k)))
  }

  /** `parent.copy[key] = d.copy` (src/index.ts:509); throws only where an
      array's `length` would be set to a copy. */
  function Rebind(heap: map<ObjId, Container>, logging: bool, s: Store, p: nat, k: Key, d: nat): (r: (Outcome<()>, Store))
    requires StoreWf(heap, logging, s) && p < |s.drafts| && d < |s.drafts| && s.drafts[p].copy.Some?
    ensures StoreWf(heap, logging, r.1) && Keeps(s, r.1)
    ensures r.0.Throw? ==> r.0.error == RangeError && r.1 == s
    ensures r.0.Ok? ==>
      && !WriteThrows(s.drafts[p].copy.value, k, Copy(d))
      && r.1 == s.(drafts := s.drafts[p := s.drafts[p].(copy := Some(Write(s.drafts[p].copy.value, k, Copy(d))))])
  {
    var c := s.drafts[p].copy.value;
    if WriteThrows(c, k, Copy(d)) then (Throw(RangeError), s)
    else
      assert DraftWf(heap, s.drafts, p);
      WriteIn(heap, |s.drafts|, c, k, Copy(d));
      var pr := s.drafts[p].(copy := Some(Write(c, k, Copy(d))));
      PutWf(heap, logging, s, p, pr);
      (Ok(()), s.(drafts := s.drafts[p := pr]))
  }

  /** `a` lies on `d`'s chain of parents. */
  predicate Ancestor(ds: seq<Draft>, a: nat, d: nat)
    decreases d
  {
    && d < |ds| && ds[d].parent.Some? && ds[d].parent.value < d
    && (ds[d].parent.value == a || Ancestor(ds, a, ds[d].parent.value))
  }

  /** Ancestry depends only on the `parent` fields, which `Keeps` fixes. */
  lemma {:induction false} AncestorKept(s: Store, t: Store, a: nat, d: nat)
    requires Keeps(s, t) && |t.drafts| == |s.drafts|
    ensures Ancestor(t.drafts, a, d) == Ancestor(s.drafts, a, d)
    decreases d
  {
    if d < |s.drafts| && s.drafts[d].parent.Some? && s.drafts[d].parent.value < d {
      AncestorKept(s, t, a, s.drafts[d].parent.value);
    }
  }

  /** `makeChange(d)` (src/index.ts:486-517): `Bind` at the parent, then
      the same again at the GRANDPARENT, without the logs; a parentless
      draft just marks itself updated. Whatever the depth, the root ends up
      marked: the chain stops at the root or at a draft whose parent is the
      root. Only ancestors of `d` change, and only the latest log entries. */
  function ChangeStep(heap: map<ObjId, Container>, logging: bool, s: Store, d: nat, withLogs: bool): (r: (Outcome<()>, Store))
    requires StoreWf(heap, logging, s) && d < |s.drafts| && s.drafts[d].copy.Some?
    ensures StoreWf(heap, logging, r.1) && Keeps(s, r.1) && |r.1.drafts| == |s.drafts|
    ensures r.1.proxies == s.proxies && r.1.finalities == s.finalities
    ensures r.1.drafts[d + 1..] == s.drafts[d + 1..]
    ensures r.1.drafts[d] == s.drafts[d].(updated := s.drafts[d].updated || s.drafts[d].parent.None?)
    ensures r.0.Ok? ==> r.1.drafts[0].updated
    ensures forall p | 0 <= p < |s.drafts| && s.drafts[d].parent == Some(p) :: r.1.drafts[p].updated
    ensures r.0.Ok? ==> r.1.patches == Lengthened(s.patches, withLogs && logging, PathKey(s.drafts[d]))
    ensures r.0.Ok? ==> r.1.inversePatches == Lengthened(s.inversePatches, withLogs && logging, PathKey(s.drafts[d]))
    ensures r.0.Throw? ==> (withLogs && logging && PathKey(s.drafts[d]).Some? && (s.patches == [] || s.inversePatches == [])) || r.0.error == RangeError
    ensures withLogs && logging && PathKey(s.drafts[d]).Some? && (s.patches == [] || s.inversePatches == []) ==>
      r.0 == Throw(TypeError)
    decreases d, 0
  {
    assert DraftWf(heap, s.drafts, d);
    if s.drafts[d].parent.None? then
      var r := s.drafts[d].(updated := true);
      PutWf(heap, logging, s, d, r);
      (Ok(()), s.(drafts := s.drafts[d := r]))
    else
      var b := Bind(heap, logging, s, d, withLogs);
      if b.0.Throw? then b
      else ChangeUp(heap, logging, b.1, s.drafts[d].parent.value)
  }

  /** The tail of `makeChange`: continue at the parent's parent, if any
      (src/index.ts:511-513). Leaves the logs alone. */
  function ChangeUp(heap: map<ObjId, Container>, logging: bool, s: Store, p: nat): (r: (Outcome<()>, Store))
    requires StoreWf(heap, logging, s) && p < |s.drafts| && s.drafts[p].updated
    ensures StoreWf(heap, logging, r.1) && Keeps(s, r.1) && |r.1.drafts| == |s.drafts|
    ensures r.1.proxies == s.proxies && r.1.finalities == s.finalities
    ensures r.1.drafts[p..] == s.drafts[p..]
    ensures r.0.Ok? ==> r.1.drafts[0].updated
    ensures r.0.Throw? ==> r.0.error == RangeError
    ensures r.1.patches == s.patches && r.1.inversePatches == s.inversePatches
    decreases p, 1
  {
    assert DraftWf(heap, s.drafts, p);
    var g := s.drafts[p].parent;
    if g.None? then (Ok(()), s)
    else ChangeStep(heap, logging, s, g.value, false)
  }

  /** `makeChange(d)` changes no draft but `d` and its ancestors. */
  lemma {:induction false} ChangeFrame(heap: map<ObjId, Container>, logging: bool, s: Store, d: nat, withLogs: bool)
    requires StoreWf(heap, logging, s) && d < |s.drafts| && s.drafts[d].copy.Some?
    ensures var r := ChangeStep(heap, logging, s, d, withLogs);
      forall x | 0 <= x < |s.drafts| && x != d && !Ancestor(s.drafts, x, d) :: r.1.drafts[x] == s.drafts[x]
    decreases d, 0
  {
    assert DraftWf(heap, s.drafts, d);
    if s.drafts[d].parent.Some? {
      var p := s.drafts[d].parent.value;
      var b := Bind(heap, logging, s, d, withLogs);
      if b.0.Ok? {
        var r := ChangeUp(heap, logging, b.1, p);
        assert r == ChangeStep(heap, logging, s, d, withLogs);
        ChangeUpFrame(heap, logging, b.1, p);
        forall x | 0 <= x < |s.drafts| && x != d && !Ancestor(s.drafts, x, d)
          ensures r.1.drafts[x] == s.drafts[x]
        {
          if x < p {
            AncestorKept(s, b.1, x, p);
          } else {
            assert r.1.drafts[x] == r.1.drafts[p..][x - p];
          }
        }
      }
    }
  }

  /** `ChangeUp` at `p` changes no draft below `p` but ancestors of `p`. */
  lemma {:induction false} ChangeUpFrame(heap: map<ObjId, Container>, logging: bool, s: Store, p: nat)
    requires StoreWf(heap, logging, s) && p < |s.drafts| && s.drafts[p].updated
    ensures var r := ChangeUp(heap, logging, s, p);
      forall x | 0 <= x < p && !Ancestor(s.drafts, x, p) :: r.1.drafts[x] == s.drafts[x]
    decreases p, 1
  {
    assert DraftWf(heap, s.drafts, p);
    if s.drafts[p].parent.Some? {
      assert DraftWf(heap, s.drafts, s.drafts[p].parent.value);
      ChangeFrame(heap, logging, s, s.drafts[p].parent.value, false);
    }
  }

  /** After `makeChange(d)` the parent's copy slot for `d`'s key holds `d`'s
      copy when the key is truthy and the call returns normally; with a
      falsy key the parent's copy is left as it was. */
  lemma ChangeBinds(heap: map<ObjId, Container>, logging: bool, s: Store, d: nat, withLogs: bool)
    requires StoreWf(heap, logging, s) && d < |s.drafts| && s.drafts[d].copy.Some? && s.drafts[d].parent.Some?
    ensures var r := ChangeStep(heap, logging, s, d, withLogs);
      var p := s.drafts[d].parent.value;
      && p < d && s.drafts[p].copy.Some?
      && (PathKey(s.drafts[d]).None? ==> r.1.drafts[p].copy == s.drafts[p].copy)
      && (r.0.Ok? && PathKey(s.drafts[d]).Some? ==>
            && !WriteThrows(s.drafts[p].copy.value, PathKey(s.drafts[d]).value, Copy(d))
            && r.1.drafts[p].copy == Some(Write(s.drafts[p].copy.value, PathKey(s.drafts[d]).value, Copy(d))))
  {
    assert DraftWf(heap, s.drafts, d);
    var p := s.drafts[d].parent.value;
    var b := Bind(heap, logging, s, d, withLogs);
    BindBinds(heap, logging, s, d, withLogs);
    if b.0.Ok? {
      var r := ChangeUp(heap, logging, b.1, p);
      assert r == ChangeStep(heap, logging, s, d, withLogs);
      assert r.1.drafts[p] == r.1.drafts[p..][0];
    }
  }

  /** `makeChange` skips a level: the grandparent's copy never receives the
      parent's copy, and the grandparent becomes updated only when it is
      the root (the recursive call binds it into ITS parent instead). */
  lemma ChangeSkips(heap: map<ObjId, Container>, logging: bool, s: Store, d: nat, withLogs: bool)
    requires StoreWf(heap, logging, s) && d < |s.drafts| && s.drafts[d].copy.Some? && s.drafts[d].parent.Some?
    requires s.drafts[d].parent.value < d && s.drafts[s.drafts[d].parent.value].parent.Some?
    ensures var r := ChangeStep(heap, logging, s, d, withLogs);
      var g := s.drafts[s.drafts[d].parent.value].parent.value;
      && g < s.drafts[d].parent.value < d
      && r.1.drafts[g] == s.drafts[g].(updated := r.1.drafts[g].updated)
      && (r.1.drafts[g].updated <==> s.drafts[g].updated || (r.0.Ok? && s.drafts[g].parent.None?))
  {
    assert DraftWf(heap, s.drafts, d);
    var p := s.drafts[d].parent.value;
    assert DraftWf(heap, s.drafts, p);
    var g := s.drafts[p].parent.value;
    var b := Bind(heap, logging, s, d, withLogs);
    assert b.1.drafts[g] == s.drafts[g];
    if b.0.Ok? {
      var r := ChangeStep(heap, logging, b.1, g, false);
      assert r == ChangeStep(heap, logging, s, d, withLogs);
      if s.drafts[g].parent.None? {
        assert r.0 == Ok(());
      }
    }
  }

  // ---- the get trap ----

  /** The closure the get trap hands out for a key the copy does not own,
      by the copy's kind (src/index.ts:113-301); `Inherited` for anything
      else. */
  function MethodOf(c: Container, k: Key): (r: GetResult)
    ensures r.Intercepted? ==> k == Name(r.name)
    ensures r.Intercepted? && c.Arr? <==> c.Arr? && k.Name? && k.name in ArrayMethods
    ensures r.Intercepted? && c.SetC? <==> c.SetC? && k.Name? && k.name in SetMethods
    ensures r.Intercepted? && c.MapC? <==> c.MapC? && k.Name? && k.name in MapMethods
    ensures r.Intercepted? ==> c.Arr? || c.SetC? || c.MapC?
    ensures !r.Found?
  {
    if c.Arr? && k.Name? && k.name in ArrayMethods then Intercepted(k.name)
    else if c.SetC? && k.Name? && k.name in SetMethods then Intercepted(k.name)
    else if c.MapC? && k.Name? && k.name in MapMethods then Intercepted(k.name)
    else Inherited
  }

  /** The get trap (src/index.ts:107-332) reading `k` through draft `d`:
      a revoked handle throws; otherwise the copy is ensured and
      - a key the copy does not own yields the intercepting closure for
        the copy's kind, or the native member;
      - `null` throws (its `PROXY_DRAFT` member is read), other primitives
        and live draft handles are returned as they are;
      - any other object (a caller's object or a bound copy) is looked up
        by `original[k]` in `proxiesMap`: a registered original yields its
        existing handle; otherwise a child draft of `d` at `k` is created,
        its revocation queued, its original registered (a truthy primitive
        original cannot be a WeakMap key and throws), its handle stored in
        `copy[k]` and a resolve action queued in front. */
  function GetStep(heap: map<ObjId, Container>, logging: bool, s: Store, d: nat, k: Key): (r: (Outcome<GetResult>, Store))
    requires StoreWf(heap, logging, s) && d < |s.drafts|
    ensures StoreWf(heap, logging, r.1) && Keeps(s, r.1)
    ensures r.1.patches == s.patches && r.1.inversePatches == s.inversePatches
    ensures r.1.drafts[..|s.drafts|] == s.drafts[d := s.drafts[d].(copy := r.1.drafts[d].copy)]
    ensures r.0.Ok? ==> r.1.drafts[d].copy.Some?
    ensures r.0.Ok? && r.0.value.Found? && r.0.value.v.Proxy? ==> r.0.value.v.draft < |r.1.drafts|
    ensures |r.1.drafts| <= |s.drafts| + 1
  {
    var dr := s.drafts[d];
    if dr.revoked then (Throw(TypeError), s)
    else if dr.copy.None? && CopyThrows(dr.original) then (Throw(TypeError), s)
    else Read(heap, logging, EnsureCopy(heap, logging, s, d), d, k)
  }

  /** The get trap once the copy exists (src/index.ts:112-331). */
  function Read(heap: map<ObjId, Container>, logging: bool, s: Store, d: nat, k: Key): (r: (Outcome<GetResult>, Store))
    requires StoreWf(heap, logging, s) && d < |s.drafts| && s.drafts[d].copy.Some?
    ensures StoreWf(heap, logging, r.1) && Keeps(s, r.1)
    ensures r.1.patches == s.patches && r.1.inversePatches == s.inversePatches
    ensures r.1.drafts[..|s.drafts|] == s.drafts[d := s.drafts[d].(copy := r.1.drafts[d].copy)]
    ensures r.1.drafts[d].copy.Some?
    ensures r.0.Ok? && r.0.value.Found? && r.0.value.v.Proxy? ==> r.0.value.v.draft < |r.1.drafts|
    ensures |r.1.drafts| <= |s.drafts| + 1
  {
    var c := s.drafts[d].copy.value;
    if !HasOwn(c, k) then (Ok(MethodOf(c, k)), s)
    else
      var v := Lookup(c, k);
      assert DraftWf(heap, s.drafts, d);
      LookupIn(heap, |s.drafts|, c, k);
      var original := s.drafts[d].original;
      if v == Prim(Null) then (Throw(TypeError), s)
      else if v.Prim? then (Ok(Found(v)), s)
      else if v.Proxy? then
        (if s.drafts[v.draft].revoked then Throw(TypeError) else Ok(Found(v)), s)
      else if CopyThrows(original) then (Throw(TypeError), s)  // `original[key]` of undefined or null
      else
        var o := OriginalAt(heap, original, k);
        if o.Obj? && o.id in s.proxies then (Ok(Found(Proxy(s.proxies[o.id]))), s)
        else Spawn(heap, logging, s, d, k, o)
  }

  /** `createDraft` for a child of `d` at `k` with original `o`, as the get
      trap runs it (src/index.ts:305-322, 458-483): exactly one new draft
      record, its revocation queued; unless `o` is a truthy primitive (which
      `proxiesMap.set` rejects), an object original registered, the handle
      stored in `copy[k]` and the resolve action queued before it. */
  function Spawn(heap: map<ObjId, Container>, logging: bool, s: Store, d: nat, k: Key, o: Value): (r: (Outcome<GetResult>, Store))
    requires StoreWf(heap, logging, s) && d < |s.drafts| && Pristine(heap, o)
    requires s.drafts[d].copy.Some? && HasOwn(s.drafts[d].copy.value, k)
    requires !Lookup(s.drafts[d].copy.value, k).Prim?
    ensures StoreWf(heap, logging, r.1) && Keeps(s, r.1)
    ensures r.1.patches == s.patches && r.1.inversePatches == s.inversePatches
    ensures |r.1.drafts| == |s.drafts| + 1
    ensures r.1.drafts[|s.drafts|] == Draft(o, None, false, None, Some(d), Some(k), false)
    ensures r.1.drafts[..|s.drafts|] == s.drafts[d := s.drafts[d].(copy := r.1.drafts[d].copy)]
    ensures r.0.Throw? <==> o.Prim? && Truthy(o.p)
    ensures r.0.Throw? ==> r.1.finalities == [Revoke(|s.drafts|)] + s.finalities && r.1.proxies == s.proxies
    ensures r.0.Ok? ==>
      && r.0.value == Found(Proxy(|s.drafts|))
      && r.1.finalities == [Resolve(d, k), Revoke(|s.drafts|)] + s.finalities
      && r.1.proxies == (if o.Obj? then s.proxies[o.id := |s.drafts|] else s.proxies)
      && Lookup(r.1.drafts[d].copy.value, k) == Proxy(|s.drafts|)
      && (forall j | j != k :: Lookup(r.1.drafts[d].copy.value, j) == Lookup(s.drafts[d].copy.value, j))
  {
    var t := Register(heap, logging, s, d, k, o);
    if o.Prim? && Truthy(o.p) then (Throw(TypeError), t)
    else (Ok(Found(Proxy(|s.drafts|))), Attach(heap, logging, t, d, k, |s.drafts|))
  }

  /** The part of `createDraft` before `proxiesMap.set`: the new record,
      whose revocation is queued first. */
  function Register(heap: map<ObjId, Container>, logging: bool, s: Store, d: nat, k: Key, o: Value): (t: Store)
    requires StoreWf(heap, logging, s) && d < |s.drafts| && Pristine(heap, o) && s.drafts[d].copy.Some?
    ensures StoreWf(heap, logging, t) && Keeps(s, t)
    ensures t == s.(drafts := s.drafts + [Draft(o, None, false, None, Some(d), Some(k), false)],
                    finalities := [Revoke(|s.drafts|)] + s.finalities)
  {
    var child := Draft(o, None, false, None, Some(d), Some(k), false);
    AddWf(heap, logging, s, child);
    s.(drafts := s.drafts + [child], finalities := [Revoke(|s.drafts|)] + s.finalities)
  }

  /** The rest of the get trap's child creation: register the original,
      store the handle of draft `n` in `copy[k]` and queue the resolve
      action. */
  function Attach(heap: map<ObjId, Container>, logging: bool, s: Store, d: nat, k: Key, n: nat): (t: Store)
    requires StoreWf(heap, logging, s) && d < n < |s.drafts| && s.drafts[d].copy.Some?
    requires !WriteThrows(s.drafts[d].copy.value, k, Proxy(n))
    ensures StoreWf(heap, logging, t) && Keeps(s, t)
    ensures var o := s.drafts[n].original;
            t == s.(drafts := s.drafts[d := s.drafts[d].(copy := Some(Write(s.drafts[d].copy.value, k, Proxy(n))))],
                    proxies := if o.Obj? then s.proxies[o.id := n] else s.proxies,
                    finalities := [Resolve(d, k)] + s.finalities)
  {
    var o := s.drafts[n].original;
    var c := s.drafts[d].copy.value;
    assert DraftWf(heap, s.drafts, n);
    var s1 := s.(proxies := if o.Obj? then s.proxies[o.id := n] else s.proxies);
    assert DraftWf(heap, s.drafts, d);
    WriteIn(heap, |s.drafts|, c, k, Proxy(n));
    var dr := s1.drafts[d].(copy := Some(Write(c, k, Proxy(n))));
    PutWf(heap, logging, s1, d, dr);
    var s2 := s1.(drafts := s1.drafts[d := dr]);
    QueueWf(heap, logging, s2, Resolve(d, k));
    s2.(finalities := [Resolve(d, k)] + s2.finalities)
  }

  // ---- mutations ----

  /** The logs after a mutation of `d` appends `fwd` and `inv` (when
      patches are enabled and there is an entry) and `makeChange` prefixes
      `d`'s key. */
  function Logged(logging: bool, log: seq<Patch>, p: Option<Patch>, pk: Option<Key>): seq<Patch> {
    Lengthened(if p.Some? then Log(logging, log, p.value) else log, logging, pk)
  }

  /** The tail every mutation shares: the new copy and `assigned` of `d`,
      `updated = true`, the forward and inverse entries pushed, then
      `makeChange(d)` with the logs. */
  function Commit(heap: map<ObjId, Container>, logging: bool, s: Store, d: nat, c: Container,
                  keys: Option<set<Key>>, fwd: Patch, inv: Option<Patch>): (r: (Outcome<()>, Store))
    requires StoreWf(heap, logging, s) && d < |s.drafts| && s.drafts[d].copy.Some?
    requires !c.MapC? && ContainerIn(heap, |s.drafts|, c)
    ensures StoreWf(heap, logging, r.1) && Keeps(s, r.1) && |r.1.drafts| == |s.drafts|
    ensures r.1.proxies == s.proxies && r.1.finalities == s.finalities
    ensures r.1.drafts[d + 1..] == s.drafts[d + 1..]
    ensures r.1.drafts[d] == s.drafts[d].(copy := Some(c), assignedKeys := keys, updated := true)
    ensures r.0.Ok? ==> r.1.drafts[0].updated
    ensures r.0.Ok? ==> r.1.patches == Logged(logging, s.patches, Some(fwd), PathKey(s.drafts[d]))
    ensures r.0.Ok? ==> r.1.inversePatches == Logged(logging, s.inversePatches, inv, PathKey(s.drafts[d]))
    ensures r.0.Throw? ==> (r.0.error == TypeError && logging && inv.None? && s.inversePatches == [] && PathKey(s.drafts[d]).Some?) || r.0.error == RangeError
    ensures logging && inv.None? && s.inversePatches == [] && PathKey(s.drafts[d]).Some? ==> r.0 == Throw(TypeError)
  {
    var dr := s.drafts[d].(copy := Some(c), assignedKeys := keys, updated := true);
    PutWf(heap, logging, s, d, dr);
    var s1 := s.(drafts := s.drafts[d := dr],
                 patches := Log(logging, s.patches, fwd),
                 inversePatches := if inv.Some? then Log(logging, s.inversePatches, inv.value) else s.inversePatches);
    ChangeStep(heap, logging, s1, d, true)
  }

  /** The key `makeChange` prepends to `d`'s entries, as a path prefix. */
  function PathPrefix(r: Draft): seq<Key> {
    var pk := PathKey(r);
    if pk.Some? then [pk.value] else []
  }

  /** `assigned` as the set trap finds it after `assigned ??= {}`. */
  function KeysOr(a: Option<set<Key>>): set<Key> {
    if a.Some? then a.value else {}
  }

  /** The set trap (src/index.ts:360-393) writing `v` to `k` through `d`:
      a revoked handle throws; a draft not yet updated gets its copy (an
      updated one already has one); the previous `copy[k]` is read; assigning
      `null` throws (its `PROXY_DRAFT` member is read) and assigning a live
      draft handle queues an unwrap action; then `copy[k] = v` (which throws
      on an invalid array length), `assigned[k] = true`, `updated = true`,
      the entries are recorded and `makeChange(d)` runs with the logs. */
  function SetStep(heap: map<ObjId, Container>, logging: bool, s: Store, d: nat, k: Key, v: Value): (r: (Outcome<bool>, Store))
    requires StoreWf(heap, logging, s) && d < |s.drafts| && ValueIn(heap, |s.drafts|, v)
    ensures StoreWf(heap, logging, r.1) && Keeps(s, r.1) && |r.1.drafts| == |s.drafts| && r.1.proxies == s.proxies
    ensures r.0.Ok? ==> r.0.value
  {
    var dr := s.drafts[d];
    assert DraftWf(heap, s.drafts, d);
    if dr.revoked then (Throw(TypeError), s)
    else if dr.copy.None? && CopyThrows(dr.original) then (Throw(TypeError), s)
    else Assign(heap, logging, EnsureCopy(heap, logging, s, d), d, k, v)
  }

  /** The set trap once the copy exists (src/index.ts:365-392). */
  function Assign(heap: map<ObjId, Container>, logging: bool, s: Store, d: nat, k: Key, v: Value): (r: (Outcome<bool>, Store))
    requires StoreWf(heap, logging, s) && d < |s.drafts| && ValueIn(heap, |s.drafts|, v) && s.drafts[d].copy.Some?
    ensures StoreWf(heap, logging, r.1) && Keeps(s, r.1) && |r.1.drafts| == |s.drafts| && r.1.proxies == s.proxies
    ensures r.0.Ok? ==> r.0.value
  {
    assert DraftWf(heap, s.drafts, d);
    match IsDraft(s.drafts, v)
    case Throw(e) => (Throw(e), s)
    case Ok(isDraft) =>
      if isDraft then Overwrite(heap, logging, Queue(heap, logging, s, Unwrap(d, k)), d, k, v)
      else Overwrite(heap, logging, s, d, k, v)
  }

  /** `copy[k] = v` and what follows it in the set trap
      (src/index.ts:372-392). */
  function Overwrite(heap: map<ObjId, Container>, logging: bool, s: Store, d: nat, k: Key, v: Value): (r: (Outcome<bool>, Store))
    requires StoreWf(heap, logging, s) && d < |s.drafts| && ValueIn(heap, |s.drafts|, v) && s.drafts[d].copy.Some?
    ensures StoreWf(heap, logging, r.1) && Keeps(s, r.1) && |r.1.drafts| == |s.drafts| && r.1.proxies == s.proxies
    ensures r.0.Ok? ==> r.0.value
    ensures r.1.finalities == s.finalities
  {
    var c := s.drafts[d].copy.value;
    assert DraftWf(heap, s.drafts, d);
    if WriteThrows(c, k, v) then (Throw(RangeError), s)
    else
      WriteIn(heap, |s.drafts|, c, k, v);
      var dr := s.drafts[d];
      var entries := SetTrapEntries(heap, dr.original, k, v, Lookup(c, k));
      var o := Commit(heap, logging, s, d, Write(c, k, v), Some(KeysOr(dr.assignedKeys) + {k}), entries.0, Some(entries.1));
      (if o.0.Ok? then Ok(true) else Throw(o.0.error), o.1)
  }

  /** The deleteProperty trap (src/index.ts:461-476) deleting `k` through
      `d`: a revoked handle throws; a draft not yet updated gets its copy and
      a fresh empty `assigned`; then `delete copy[k]` (which throws on an
      array's `length`), `k` leaves `assigned` if there is one,
      `updated = true`, the entries are recorded and `makeChange(d)` runs
      with the logs. */
  function DeleteStep(heap: map<ObjId, Container>, logging: bool, s: Store, d: nat, k: Key): (r: (Outcome<bool>, Store))
    requires StoreWf(heap, logging, s) && d < |s.drafts|
    ensures StoreWf(heap, logging, r.1) && Keeps(s, r.1) && |r.1.drafts| == |s.drafts|
    ensures r.1.proxies == s.proxies && r.1.finalities == s.finalities
    ensures r.0.Ok? ==> r.0.value
  {
    var dr := s.drafts[d];
    assert DraftWf(heap, s.drafts, d);
    if dr.revoked then (Throw(TypeError), s)
    else if dr.copy.None? && CopyThrows(dr.original) then (Throw(TypeError), s)
    else if dr.updated then Erase(heap, logging, s, d, k)
    else Erase(heap, logging, SetKeys(heap, logging, EnsureCopy(heap, logging, s, d), d, Some({})), d, k)
  }

  /** `assigned = keys` on draft `d`. */
  function SetKeys(heap: map<ObjId, Container>, logging: bool, s: Store, d: nat, keys: Option<set<Key>>): (t: Store)
    requires StoreWf(heap, logging, s) && d < |s.drafts|
    ensures StoreWf(heap, logging, t) && Keeps(s, t)
    ensures t == s.(drafts := s.drafts[d := s.drafts[d].(assignedKeys := keys)])
  {
    assert DraftWf(heap, s.drafts, d);
    PutWf(heap, logging, s, d, s.drafts[d].(assignedKeys := keys));
    s.(drafts := s.drafts[d := s.drafts[d].(assignedKeys := keys)])
  }

  /** The deleteProperty trap once the copy exists (src/index.ts:467-475);
      an updated draft keeps its `assigned`, if any. */
  function Erase(heap: map<ObjId, Container>, logging: bool, s: Store, d: nat, k: Key): (r: (Outcome<bool>, Store))
    requires StoreWf(heap, logging, s) && d < |s.drafts| && s.drafts[d].copy.Some?
    ensures StoreWf(heap, logging, r.1) && Keeps(s, r.1) && |r.1.drafts| == |s.drafts|
    ensures r.1.proxies == s.proxies && r.1.finalities == s.finalities
    ensures r.0.Ok? ==> r.0.value
  {
    var c := s.drafts[d].copy.value;
    if RemoveThrows(c, k) then (Throw(TypeError), s)
    else
      assert DraftWf(heap, s.drafts, d);
      RemoveIn(heap, |s.drafts|, c, k);
      var keys := s.drafts[d].assignedKeys;
      var entries := DeleteTrapEntries(k, Lookup(c, k));
      var o := Commit(heap, logging, s, d, Remove(c, k), if keys.Some? then Some(keys.value - {k}) else None,
                      entries.0, Some(entries.1));
      (if o.0.Ok? then Ok(true) else Throw(o.0.error), o.1)
  }

  // ---- the intercepting closures ----

  /** What every closure does around the native mutation, which leaves the
      copy as `c` (src/index.ts:117-297): a draft not yet updated gets a
      fresh empty `assigned`; then (except for `pop`) `assigned[name] =
      true`, which throws when the draft was updated only through
      `makeChange` and so has no `assigned`, after the mutation; then
      `updated = true`, the entries are recorded and `makeChange(d)` runs
      with the logs. */
  function Closure(heap: map<ObjId, Container>, logging: bool, s: Store, d: nat, c: Container,
                   name: string, marks: bool, fwd: Patch, inv: Option<Patch>): (r: (Outcome<()>, Store))
    requires StoreWf(heap, logging, s) && d < |s.drafts| && s.drafts[d].copy.Some?
    requires !c.MapC? && ContainerIn(heap, |s.drafts|, c)
    ensures StoreWf(heap, logging, r.1) && Keeps(s, r.1) && |r.1.drafts| == |s.drafts|
    ensures r.1.proxies == s.proxies && r.1.finalities == s.finalities
    ensures r.1.drafts[d].copy == Some(c)
  {
    var dr := s.drafts[d];
    var keys := if dr.updated then dr.assignedKeys else Some({});
    if marks && keys.None? then
      assert DraftWf(heap, s.drafts, d);
      PutWf(heap, logging, s, d, dr.(copy := Some(c)));
      (Throw(TypeError), s.(drafts := s.drafts[d := dr.(copy := Some(c))]))
    else
      Commit(heap, logging, s, d, c, if marks then Some(keys.value + {Name(name)}) else keys, fwd, inv)
  }

  /** The elements of `d`'s array copy. */
  function Elems(s: Store, d: nat): seq<Value>
    requires d < |s.drafts| && s.drafts[d].copy.Some? && s.drafts[d].copy.value.Arr?
  {
    s.drafts[d].copy.value.elems
  }

  /** Every element of a copy held by a well-formed store refers to known
      drafts. */
  lemma ElemsIn(heap: map<ObjId, Container>, logging: bool, s: Store, d: nat)
    requires StoreWf(heap, logging, s) && d < |s.drafts| && s.drafts[d].copy.Some?
    ensures ContainerIn(heap, |s.drafts|, s.drafts[d].copy.value)
  {
    assert DraftWf(heap, s.drafts, d);
  }

  /** `pop` (src/index.ts:117-130): returns the last element. */
  function PopStep(heap: map<ObjId, Container>, logging: bool, s: Store, d: nat): (r: (Outcome<Value>, Store))
    requires StoreWf(heap, logging, s) && d < |s.drafts| && s.drafts[d].copy.Some? && s.drafts[d].copy.value.Arr?
    ensures StoreWf(heap, logging, r.1) && Keeps(s, r.1) && |r.1.drafts| == |s.drafts|
    ensures r.1.drafts[d].copy == Some(Arr(Popped(Elems(s, d))))
    ensures r.0.Ok? ==> r.0.value == LastOr(Elems(s, d))
  {
    var e := Elems(s, d);
    ElemsIn(heap, logging, s, d);
    var entries := PopEntries(Popped(e));
    var o := Closure(heap, logging, s, d, Arr(Popped(e)), "pop", false, entries.0, Some(entries.1));
    (if o.0.Ok? then Ok(LastOr(e)) else Throw(o.0.error), o.1)
  }

  /** `push(...args)` (src/index.ts:131-147): returns the new length. */
  function PushStep(heap: map<ObjId, Container>, logging: bool, s: Store, d: nat, args: seq<Value>): (r: (Outcome<Value>, Store))
    requires StoreWf(heap, logging, s) && d < |s.drafts| && s.drafts[d].copy.Some? && s.drafts[d].copy.value.Arr?
    requires forall i | 0 <= i < |args| :: ValueIn(heap, |s.drafts|, args[i])
    ensures StoreWf(heap, logging, r.1) && Keeps(s, r.1) && |r.1.drafts| == |s.drafts|
    ensures r.1.drafts[d].copy == Some(Arr(Elems(s, d) + args))
    ensures r.0.Ok? ==> r.0.value == Prim(Num(|Elems(s, d)| + |args|))
  {
    var e := Elems(s, d);
    ElemsIn(heap, logging, s, d);
    var entries := PushEntries(args, |e + args|);
    var o := Closure(heap, logging, s, d, Arr(e + args), "push", true, entries.0, Some(entries.1));
    (if o.0.Ok? then Ok(Prim(Num(|e + args|))) else Throw(o.0.error), o.1)
  }

  /** `reverse()` (src/index.ts:148-159): returns the copy itself. */
  function ReverseStep(heap: map<ObjId, Container>, logging: bool, s: Store, d: nat): (r: (Outcome<Value>, Store))
    requires StoreWf(heap, logging, s) && d < |s.drafts| && s.drafts[d].copy.Some? && s.drafts[d].copy.value.Arr?
    ensures StoreWf(heap, logging, r.1) && Keeps(s, r.1) && |r.1.drafts| == |s.drafts|
    ensures r.1.drafts[d].copy == Some(Arr(Reversed(Elems(s, d))))
    ensures r.0.Ok? ==> r.0.value == Copy(d)
  {
    var e := Elems(s, d);
    ElemsIn(heap, logging, s, d);
    ReversedIn(heap, |s.drafts|, e);
    var entries := ReverseEntries();
    var o := Closure(heap, logging, s, d, Arr(Reversed(e)), "reverse", true, entries.0, Some(entries.1));
    (if o.0.Ok? then Ok(Copy(d)) else Throw(o.0.error), o.1)
  }

  /** `shift()` (src/index.ts:160-173): returns the old first element. */
  function ShiftStep(heap: map<ObjId, Container>, logging: bool, s: Store, d: nat): (r: (Outcome<Value>, Store))
    requires StoreWf(heap, logging, s) && d < |s.drafts| && s.drafts[d].copy.Some? && s.drafts[d].copy.value.Arr?
    ensures StoreWf(heap, logging, r.1) && Keeps(s, r.1) && |r.1.drafts| == |s.drafts|
    ensures r.1.drafts[d].copy == Some(Arr(Shifted(Elems(s, d))))
    ensures r.0.Ok? ==> r.0.value == FirstOr(Elems(s, d))
  {
    var e := Elems(s, d);
    ElemsIn(heap, logging, s, d);
    var entries := ShiftEntries(FirstOr(e));
    var o := Closure(heap, logging, s, d, Arr(Shifted(e)), "shift", true, entries.0, Some(entries.1));
    (if o.0.Ok? then Ok(FirstOr(e)) else Throw(o.0.error), o.1)
  }

  /** `unshift(...args)` (src/index.ts:174-185): returns the new length. */
  function UnshiftStep(heap: map<ObjId, Container>, logging: bool, s: Store, d: nat, args: seq<Value>): (r: (Outcome<Value>, Store))
    requires StoreWf(heap, logging, s) && d < |s.drafts| && s.drafts[d].copy.Some? && s.drafts[d].copy.value.Arr?
    requires forall i | 0 <= i < |args| :: ValueIn(heap, |s.drafts|, args[i])
    ensures StoreWf(heap, logging, r.1) && Keeps(s, r.1) && |r.1.drafts| == |s.drafts|
    ensures r.1.drafts[d].copy == Some(Arr(args + Elems(s, d)))
    ensures r.0.Ok? ==> r.0.value == Prim(Num(|args| + |Elems(s, d)|))
  {
    var e := Elems(s, d);
    ElemsIn(heap, logging, s, d);
    var entries := UnshiftEntries(args);
    var o := Closure(heap, logging, s, d, Arr(args + e), "unshift", true, entries.0, Some(entries.1));
    (if o.0.Ok? then Ok(Prim(Num(|args + e|))) else Throw(o.0.error), o.1)
  }

  /** The argument list of `splice(start?, count?, ...items)`. */
  function SpliceArgs(start: Option<int>, count: Option<int>, items: seq<Value>): seq<Value> {
    (if start.Some? then [Prim(Num(start.value))] else [])
    + (if count.Some? then [Prim(Num(count.value))] else []) + items
  }

  /** `splice(start, count, ...items)` (src/index.ts:186-199): returns the
      removed elements; records a forward entry only. */
  function SpliceStep(heap: map<ObjId, Container>, logging: bool, s: Store, d: nat,
                      start: Option<int>, count: Option<int>, items: seq<Value>): (r: (Outcome<seq<Value>>, Store))
    requires StoreWf(heap, logging, s) && d < |s.drafts| && s.drafts[d].copy.Some? && s.drafts[d].copy.value.Arr?
    requires start.None? ==> count.None?
    requires count.None? ==> items == []
    requires forall i | 0 <= i < |items| :: ValueIn(heap, |s.drafts|, items[i])
    ensures StoreWf(heap, logging, r.1) && Keeps(s, r.1) && |r.1.drafts| == |s.drafts|
    ensures r.1.drafts[d].copy == Some(Arr(Spliced(Elems(s, d), start, count, items).0))
    ensures r.0.Ok? ==> r.0.value == Spliced(Elems(s, d), start, count, items).1
  {
    var e := Elems(s, d);
    var sp := Spliced(e, start, count, items);
    ElemsIn(heap, logging, s, d);
    SplicedIn(heap, |s.drafts|, e, start, count, items);
    var o := Closure(heap, logging, s, d, Arr(sp.0), "splice", true, SpliceEntry(SpliceArgs(start, count, items)), None);
    (if o.0.Ok? then Ok(sp.1) else Throw(o.0.error), o.1)
  }

  /** The members of `d`'s Set copy. */
  function Members(s: Store, d: nat): set<Value>
    requires d < |s.drafts| && s.drafts[d].copy.Some? && s.drafts[d].copy.value.SetC?
  {
    s.drafts[d].copy.value.members
  }

  /** Set `add(v)` (src/index.ts:208-219): returns the copy itself. */
  function AddStep(heap: map<ObjId, Container>, logging: bool, s: Store, d: nat, v: Value): (r: (Outcome<Value>, Store))
    requires StoreWf(heap, logging, s) && d < |s.drafts| && s.drafts[d].copy.Some? && s.drafts[d].copy.value.SetC?
    requires ValueIn(heap, |s.drafts|, v)
    ensures StoreWf(heap, logging, r.1) && Keeps(s, r.1) && |r.1.drafts| == |s.drafts|
    ensures r.1.drafts[d].copy == Some(SetC(Members(s, d) + {v}))
    ensures r.0.Ok? ==> r.0.value == Copy(d)
  {
    ElemsIn(heap, logging, s, d);
    var entries := SetAddEntries(v);
    var o := Closure(heap, logging, s, d, SetC(Members(s, d) + {v}), "add", true, entries.0, Some(entries.1));
    (if o.0.Ok? then Ok(Copy(d)) else Throw(o.0.error), o.1)
  }

  /** Set `clear()` (src/index.ts:220-234): returns `undefined`. */
  function ClearStep(heap: map<ObjId, Container>, logging: bool, s: Store, d: nat): (r: (Outcome<Value>, Store))
    requires StoreWf(heap, logging, s) && d < |s.drafts| && s.drafts[d].copy.Some? && s.drafts[d].copy.value.SetC?
    ensures StoreWf(heap, logging, r.1) && Keeps(s, r.1) && |r.1.drafts| == |s.drafts|
    ensures r.1.drafts[d].copy == Some(SetC({}))
    ensures r.0.Ok? ==> r.0.value == Prim(Undefined)
  {
    var entries := SetClearEntries({});
    var o := Closure(heap, logging, s, d, SetC({}), "clear", true, entries.0, Some(entries.1));
    (if o.0.Ok? then Ok(Prim(Undefined)) else Throw(o.0.error), o.1)
  }

  /** Set `delete(v)` (src/index.ts:235-247): returns whether `v` was a
      member. */
  function RemoveStep(heap: map<ObjId, Container>, logging: bool, s: Store, d: nat, v: Value): (r: (Outcome<Value>, Store))
    requires StoreWf(heap, logging, s) && d < |s.drafts| && s.drafts[d].copy.Some? && s.drafts[d].copy.value.SetC?
    ensures StoreWf(heap, logging, r.1) && Keeps(s, r.1) && |r.1.drafts| == |s.drafts|
    ensures r.1.drafts[d].copy == Some(SetC(Members(s, d) - {v}))
    ensures r.0.Ok? ==> r.0.value == Prim(Bool(v in Members(s, d)))
  {
    ElemsIn(heap, logging, s, d);
    var entries := SetDeleteEntries(v);
    var o := Closure(heap, logging, s, d, SetC(Members(s, d) - {v}), "delete", true, entries.0, Some(entries.1));
    (if o.0.Ok? then Ok(Prim(Bool(v in Members(s, d)))) else Throw(o.0.error), o.1)
  }

  // ---- finalisation ----

  /** One thunk of `finalities` (src/index.ts:315-322, 366-370, 478):
      - `Revoke(x)` revokes `x`'s handle;
      - `Resolve(p, k)` reads `p.copy[k]` (throwing on `null` and on a
        revoked handle) and, when it is a draft handle, replaces it by that
        draft's copy if the draft was updated and by its original otherwise;
      - `Unwrap(p, k)` does the same, except that it always takes the copy,
        making one by object spread (`getValue`) when there is none.
      Writing into an array copy's `length` throws. */
  function ActionStep(heap: map<ObjId, Container>, logging: bool, s: Store, a: Action): (r: (Outcome<()>, Store))
    requires StoreWf(heap, logging, s) && ActionWf(s.drafts, a)
    ensures StoreWf(heap, logging, r.1) && Settles(s, r.1)
    ensures r.1.proxies == s.proxies && r.1.finalities == s.finalities
    ensures r.1.patches == s.patches && r.1.inversePatches == s.inversePatches
    ensures forall x | 0 <= x < |s.drafts| :: s.drafts[x].revoked ==> r.1.drafts[x].revoked
    ensures a.Revoke? ==> r.0.Ok? && r.1.drafts[a.draft].revoked
    ensures !a.Revoke? ==> forall x | 0 <= x < |s.drafts| :: r.1.drafts[x].revoked == s.drafts[x].revoked
  {
    match a
    case Revoke(x) =>
      assert DraftWf(heap, s.drafts, x);
      PutWf(heap, logging, s, x, s.drafts[x].(revoked := true));
      (Ok(()), s.(drafts := s.drafts[x := s.drafts[x].(revoked := true)]))
    case Resolve(p, k) => Settle(heap, logging, s, p, k, false)
    case Unwrap(p, k) => Settle(heap, logging, s, p, k, true)
  }

  /** What `Resolve(p, k)` (`spread == false`) or `Unwrap(p, k)`
      (`spread == true`) leaves in `p.copy[k]` in place of the handle of
      draft `x`. */
  function Settled(r: Draft, x: DraftId, spread: bool): Value {
    if spread || r.updated then Copy(x) else r.original
  }

  /** `Resolve(p, k)` and `Unwrap(p, k)`: only a live draft handle in
      `p.copy[k]` is replaced. */
  function Settle(heap: map<ObjId, Container>, logging: bool, s: Store, p: nat, k: Key, spread: bool): (r: (Outcome<()>, Store))
    requires StoreWf(heap, logging, s) && p < |s.drafts| && s.drafts[p].copy.Some?
    ensures StoreWf(heap, logging, r.1) && Settles(s, r.1)
    ensures r.1.proxies == s.proxies && r.1.finalities == s.finalities
    ensures r.1.patches == s.patches && r.1.inversePatches == s.inversePatches
    ensures forall x | 0 <= x < |s.drafts| :: r.1.drafts[x].revoked == s.drafts[x].revoked
    ensures IsDraft(s.drafts, SlotOf(heap, logging, s, p, k)) == Ok(false) ==> r == (Ok(()), s)
    ensures IsDraft(s.drafts, SlotOf(heap, logging, s, p, k)).Throw? ==> r == (Throw(TypeError), s)
  {
    var v := SlotOf(heap, logging, s, p, k);
    match IsDraft(s.drafts, v)
    case Throw(e) => (Throw(e), s)
    case Ok(isDraft) =>
      if !isDraft then (Ok(()), s)
      else Replace(heap, logging, s, p, k, v.draft, spread)
  }

  /** `p.copy[k]`, which refers only to known drafts. */
  function SlotOf(heap: map<ObjId, Container>, logging: bool, s: Store, p: nat, k: Key): (v: Value)
    requires StoreWf(heap, logging, s) && p < |s.drafts| && s.drafts[p].copy.Some?
    ensures ValueIn(heap, |s.drafts|, v) && v == Lookup(s.drafts[p].copy.value, k)
  {
    assert DraftWf(heap, s.drafts, p);
    LookupIn(heap, |s.drafts|, s.drafts[p].copy.value, k);
    Lookup(s.drafts[p].copy.value, k)
  }

  /** The replacement of draft `x`'s handle in `p.copy[k]`. */
  function Replace(heap: map<ObjId, Container>, logging: bool, s: Store, p: nat, k: Key, x: nat, spread: bool): (r: (Outcome<()>, Store))
    requires StoreWf(heap, logging, s) && p < |s.drafts| && x < |s.drafts| && s.drafts[p].copy.Some?
    ensures StoreWf(heap, logging, r.1) && Settles(s, r.1)
    ensures r.1.proxies == s.proxies && r.1.finalities == s.finalities
    ensures r.1.patches == s.patches && r.1.inversePatches == s.inversePatches
    ensures forall y | 0 <= y < |s.drafts| :: r.1.drafts[y].revoked == s.drafts[y].revoked
    ensures r.0.Throw? <==> WriteThrows(s.drafts[p].copy.value, k, Settled(s.drafts[x], x, spread))
    ensures r.0.Throw? ==> r.0.error == RangeError
    ensures r.0.Ok? ==> r.1.drafts[p].copy == Some(Write(s.drafts[p].copy.value, k, Settled(s.drafts[x], x, spread)))
    ensures spread ==> r.1.drafts[x].copy.Some?
  {
    assert DraftWf(heap, s.drafts, x);
    var s1 := if spread then Spread(heap, logging, s, x) else s;
    Rewrite(heap, logging, s1, p, k, Settled(s.drafts[x], x, spread))
  }

  /** `p.copy[k] = v` during finalisation. */
  function Rewrite(heap: map<ObjId, Container>, logging: bool, s: Store, p: nat, k: Key, v: Value): (r: (Outcome<()>, Store))
    requires StoreWf(heap, logging, s) && p < |s.drafts| && s.drafts[p].copy.Some? && ValueIn(heap, |s.drafts|, v)
    ensures StoreWf(heap, logging, r.1) && Settles(s, r.1)
    ensures r.1.proxies == s.proxies && r.1.finalities == s.finalities
    ensures r.1.patches == s.patches && r.1.inversePatches == s.inversePatches
    ensures r.1.drafts[..p] == s.drafts[..p] && r.1.drafts[p + 1..] == s.drafts[p + 1..]
    ensures r.1.drafts[p].revoked == s.drafts[p].revoked
    ensures r.0.Throw? <==> WriteThrows(s.drafts[p].copy.value, k, v)
    ensures r.0.Throw? ==> r.0.error == RangeError && r.1 == s
    ensures r.0.Ok? ==> r.1.drafts[p].copy == Some(Write(s.drafts[p].copy.value, k, v))
  {
    var c := s.drafts[p].copy.value;
    if WriteThrows(c, k, v) then (Throw(RangeError), s)
    else
      assert DraftWf(heap, s.drafts, p);
      WriteIn(heap, |s.drafts|, c, k, v);
      var pr := s.drafts[p].(copy := Some(Write(c, k, v)));
      PutWf(heap, logging, s, p, pr);
      (Ok(()), s.(drafts := s.drafts[p := pr]))
  }

  /** `getValue`'s `copy ??= { ...original }` (src/index.ts:342-349). */
  function Spread(heap: map<ObjId, Container>, logging: bool, s: Store, x: nat): (t: Store)
    requires StoreWf(heap, logging, s) && x < |s.drafts|
    ensures StoreWf(heap, logging, t) && Settles(s, t)
    ensures t.drafts[x].copy.Some?
    ensures t == s.(drafts := s.drafts[x := s.drafts[x].(copy := if s.drafts[x].copy.Some? then s.drafts[x].copy
                                                                else Some(SpreadCopy(heap, s.drafts[x].original)))])
  {
    assert DraftWf(heap, s.drafts, x);
    if s.drafts[x].copy.Some? then
      assert s.drafts[x := s.drafts[x]] == s.drafts;
      s
    else
      CopiesIn(heap, |s.drafts|, s.drafts[x].original);
      var r := s.drafts[x].(copy := Some(SpreadCopy(heap, s.drafts[x].original)));
      PutWf(heap, logging, s, x, r);
      s.(drafts := s.drafts[x := r])
  }

  /** The `for` loop of `finalizeDraft` from the `i`-th thunk on
      (src/index.ts:521-523); the first thunk that throws ends it. */
  function RunFrom(heap: map<ObjId, Container>, logging: bool, s: Store, i: nat): (r: (Outcome<()>, Store))
    requires StoreWf(heap, logging, s) && i <= |s.finalities|
    ensures StoreWf(heap, logging, r.1) && Settles(s, r.1)
    ensures r.1.proxies == s.proxies && r.1.finalities == s.finalities
    ensures r.1.patches == s.patches && r.1.inversePatches == s.inversePatches
    ensures forall x | 0 <= x < |s.drafts| :: s.drafts[x].revoked ==> r.1.drafts[x].revoked
    decreases |s.finalities| - i
  {
    if i == |s.finalities| then (Ok(()), s)
    else
      assert ActionWf(s.drafts, s.finalities[i]);
      var o := ActionStep(heap, logging, s, s.finalities[i]);
      if o.0.Throw? then o
      else RunFrom(heap, logging, o.1, i + 1)
  }

  /** The loop ends normally once every thunk has run. */
  lemma RunFromEnd(heap: map<ObjId, Container>, logging: bool, s: Store)
    requires StoreWf(heap, logging, s)
    ensures RunFrom(heap, logging, s, |s.finalities|) == (Ok(()), s)
  {
  }

  /** One turn of the loop: the `i`-th thunk, then the rest. */
  lemma RunFromNext(heap: map<ObjId, Container>, logging: bool, s: Store, i: nat, o: Outcome<()>, t: Store)
    requires StoreWf(heap, logging, s) && i < |s.finalities|
    requires ActionWf(s.drafts, s.finalities[i]) && (o, t) == ActionStep(heap, logging, s, s.finalities[i])
    ensures StoreWf(heap, logging, t) && t.finalities == s.finalities
    ensures o.Throw? ==> RunFrom(heap, logging, s, i) == (o, t)
    ensures o.Ok? ==> RunFrom(heap, logging, s, i) == RunFrom(heap, logging, t, i + 1)
  {
  }

  /** `finalizeDraft(root, finalities)` (src/index.ts:519-526): every
      thunk runs front to back; then the state is the root's original if
      the root was never updated, and its copy otherwise. */
  function FinalizeStep(heap: map<ObjId, Container>, logging: bool, s: Store): (r: (Outcome<Value>, Store))
    requires StoreWf(heap, logging, s)
    ensures StoreWf(heap, logging, r.1) && Settles(s, r.1)
    ensures r.1.patches == s.patches && r.1.inversePatches == s.inversePatches
    ensures r.0.Ok? ==> (r.0.value == s.drafts[0].original <==> !s.drafts[0].updated)
    ensures r.0.Ok? && s.drafts[0].updated ==> r.0.value == Copy(0) && r.1.drafts[0].copy.Some?
  {
    assert DraftWf(heap, s.drafts, 0);
    if s.drafts[0].revoked then (Throw(TypeError), s)
    else
      var o := RunFrom(heap, logging, s, 0);
      if o.0.Throw? then (Throw(o.0.error), o.1)
      else if !s.drafts[0].updated then (Ok(s.drafts[0].original), o.1)
      else (Ok(Copy(0)), o.1)
  }

  // ---- the read-only traps ----

  /** What `latest(d)` (src/index.ts:396-398) reads: the copy, else the
      original's container; `None` for a primitive original, on which the
      reflective operations throw. */
  function Latest(heap: map<ObjId, Container>, r: Draft): (c: Option<Container>)
    requires Pristine(heap, r.original)
    ensures r.copy.Some? ==> c == r.copy
    ensures r.copy.None? && r.original.Obj? ==> c == Some(heap[r.original.id])
    ensures c.None? <==> r.copy.None? && r.original.Prim?
  {
    if r.copy.Some? then r.copy
    else if r.original.Obj? then Some(heap[r.original.id])
    else None
  }

  /** The has trap (src/index.ts:431-433): `k in latest(d)`. Of the
      inherited members only the intercepted method names are modelled. */
  function HasStep(heap: map<ObjId, Container>, s: Store, d: nat, k: Key): (r: Outcome<bool>)
    requires d < |s.drafts| && Pristine(heap, s.drafts[d].original)
    ensures r.Throw? <==> s.drafts[d].revoked || Latest(heap, s.drafts[d]).None?
    ensures r.Ok? ==> (r.value <==> HasOwn(Latest(heap, s.drafts[d]).value, k) || MethodOf(Latest(heap, s.drafts[d]).value, k).Intercepted?)
  {
    var c := Latest(heap, s.drafts[d]);
    if s.drafts[d].revoked || c.None? then Throw(TypeError)
    else Ok(HasOwn(c.value, k) || MethodOf(c.value, k).Intercepted?)
  }

  /** The ownKeys trap (src/index.ts:434-436) (order left out). */
  function OwnKeysStep(heap: map<ObjId, Container>, s: Store, d: nat): (r: Outcome<set<Key>>)
    requires d < |s.drafts| && Pristine(heap, s.drafts[d].original)
    ensures r.Throw? <==> s.drafts[d].revoked || Latest(heap, s.drafts[d]).None?
    ensures r.Ok? ==> forall k :: k in r.value <==> HasOwn(Latest(heap, s.drafts[d]).value, k)
  {
    var c := Latest(heap, s.drafts[d]);
    if s.drafts[d].revoked || c.None? then Throw(TypeError)
    else Ok(OwnKeys(c.value))
  }

  /** A data property descriptor. */
  datatype Descriptor = Descriptor(writable: bool, configurable: bool, enumerable: bool, value: Value)

  /** The getOwnPropertyDescriptor trap (src/index.ts:437-447): nothing for
      a key `latest(d)` does not own; otherwise a writable data descriptor
      with the key's enumerability and value, configurable unless the
      draft's type is Array and the key is `length` (the type is always
      Object, so it always is). */
  function DescriptorStep(heap: map<ObjId, Container>, s: Store, d: nat, k: Key): (r: Outcome<Option<Descriptor>>)
    requires d < |s.drafts| && Pristine(heap, s.drafts[d].original)
    ensures r.Throw? <==> s.drafts[d].revoked || Latest(heap, s.drafts[d]).None?
    ensures r.Ok? ==> (r.value.Some? <==> HasOwn(Latest(heap, s.drafts[d]).value, k))
    ensures r.Ok? && r.value.Some? ==>
      var c := Latest(heap, s.drafts[d]).value;
      && r.value.value.writable && r.value.value.configurable
      && (r.value.value.enumerable <==> Enumerable(c, k))
      && r.value.value.value == Lookup(c, k)
  {
    var c := Latest(heap, s.drafts[d]);
    if s.drafts[d].revoked || c.None? then Throw(TypeError)
    else if !HasOwn(c.value, k) then Ok(None)
    else Ok(Some(Descriptor(true, true, Enumerable(c.value, k), Lookup(c.value, k))))
  }

  /** The kind of prototype an original has. */
  datatype Prototype = ObjectPrototype | ArrayPrototype | SetPrototype | MapPrototype

  /** The getPrototypeOf trap (src/index.ts:448-450): the prototype of the
      original, whatever the copy is; a primitive original throws. */
  function PrototypeStep(heap: map<ObjId, Container>, s: Store, d: nat): (r: Outcome<Prototype>)
    requires d < |s.drafts| && Pristine(heap, s.drafts[d].original)
    ensures r.Throw? <==> s.drafts[d].revoked || s.drafts[d].original.Prim?
    ensures r.Ok? ==> (r.value == ArrayPrototype <==> heap[s.drafts[d].original.id].Arr?)
    ensures r.Ok? ==> (r.value == SetPrototype <==> heap[s.drafts[d].original.id].SetC?)
    ensures r.Ok? ==> (r.value == MapPrototype <==> heap[s.drafts[d].original.id].MapC?)
    ensures r.Ok? ==> (r.value == ObjectPrototype <==> heap[s.drafts[d].original.id].Record?)
  {
    var o := s.drafts[d].original;
    if s.drafts[d].revoked || o.Prim? then Throw(TypeError)
    else match heap[o.id]
      case Record(_) => Ok(ObjectPrototype)
      case Arr(_) => Ok(ArrayPrototype)
      case SetC(_) => Ok(SetPrototype)
      case MapC(_) => Ok(MapPrototype)
  }

  /** The setPrototypeOf and defineProperty traps (src/index.ts:451-460)
      always throw; a revoked handle throws its own TypeError first. */
  function RefusedStep(s: Store, d: nat, define: bool): (r: Outcome<()>)
    requires d < |s.drafts|
    ensures r.Throw?
    ensures r.error == TypeError <==> s.drafts[d].revoked
    ensures !s.drafts[d].revoked ==> (r.error == CannotDefineProperty <==> define)
  {
    if s.drafts[d].revoked then Throw(TypeError)
    else if define then Throw(CannotDefineProperty)
    else Throw(CannotSetPrototype)
  }
}
