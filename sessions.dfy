/** `create(initialState, mutate, options)`: one draft session from the
    root draft to the finalised state. The `mutate` callback is modelled
    as a fixed list of operations on draft handles, each naming the draft
    by its index in the session's draft records. */
module Sessions {
  import opened Values
  import opened Patches
  import opened Drafts
  import Engine

  /** One operation of the `mutate` callback on the handle of draft `d`. */
  datatype Command =
    | Fetch(d: DraftId, k: Key)                       // `draft[k]`
    | Put(d: DraftId, k: Key, v: Value)               // `draft[k] = v`
    | Drop(d: DraftId, k: Key)                        // `delete draft[k]`
    | Invoke(d: DraftId, name: string, args: seq<Value>)  // `draft[name](...args)`

  /** How far the callback got: on, stopped by an exception, or at an
      operation the model does not cover (a handle or value it cannot have
      been given, a native method that is not intercepted, `splice` with
      arguments that are not numbers). */
  datatype Progress = Going | Stopped(error: Error) | Unsupported

  /** The result of `create`: the state with both logs (`undefined`
      unless patches are enabled) and the copies of every draft, which the
      state and the copies refer to by `Copy(d)`; or the exception that
      escaped; or an operation the model does not cover. */
  datatype Completion =
    | Done(state: Value, copies: seq<Option<Container>>, patches: Option<seq<Patch>>, inversePatches: Option<seq<Patch>>)
    | Failed(error: Error)
    | Unmodelled

  /** A mutation, as opposed to a read. */
  predicate Mutates(c: Command) {
    !c.Fetch?
  }

  /** The number of mutations in `cmds`. */
  function Mutations(cmds: seq<Command>): nat {
    if cmds == [] then 0 else (if Mutates(cmds[0]) then 1 else 0) + Mutations(cmds[1..])
  }

  /** The number of `splice` calls in `cmds`. */
  function Splices(cmds: seq<Command>): nat {
    if cmds == [] then 0 else (if cmds[0].Invoke? && cmds[0].name == "splice" then 1 else 0) + Splices(cmds[1..])
  }

  function Advance<T>(r: (Outcome<T>, Store)): (Progress, Store) {
    (if r.0.Ok? then Going else Stopped(r.0.error), r.1)
  }

  /** The arguments of `splice` as numbers: `splice()`, `splice(start)` or
      `splice(start, count, ...items)`. */
  function SpliceCall(args: seq<Value>): Option<(Option<int>, Option<int>, seq<Value>)> {
    if args == [] then Some((None, None, []))
    else if !(args[0].Prim? && args[0].p.Num?) then None
    else if |args| == 1 then Some((Some(args[0].p.n), None, []))
    else if !(args[1].Prim? && args[1].p.Num?) then None
    else Some((Some(args[0].p.n), Some(args[1].p.n), args[2..]))
  }

  /** The first argument, `undefined` when there is none. */
  function FirstArg(args: seq<Value>): Value {
    if args == [] then Prim(Undefined) else args[0]
  }

  /** Calling the closure the get trap returned for `name` on draft `d`,
      whose copy decides which closure it is. */
  function Calls(heap: map<ObjId, Container>, logging: bool, s: Store, d: nat, name: string, args: seq<Value>): (r: (Progress, Store))
    requires StoreWf(heap, logging, s) && d < |s.drafts| && s.drafts[d].copy.Some?
    ensures StoreWf(heap, logging, r.1) && Keeps(s, r.1)
  {
    var c := s.drafts[d].copy.value;
    if !(forall i | 0 <= i < |args| :: ValueIn(heap, |s.drafts|, args[i])) then (Unsupported, s)
    else if c.Arr? then CallsArray(heap, logging, s, d, name, args)
    else if c.SetC? then CallsSet(heap, logging, s, d, name, args)
    else (Unsupported, s)
  }

  /** The array closures (src/index.ts:117-199). */
  function CallsArray(heap: map<ObjId, Container>, logging: bool, s: Store, d: nat, name: string, args: seq<Value>): (r: (Progress, Store))
    requires StoreWf(heap, logging, s) && d < |s.drafts| && s.drafts[d].copy.Some? && s.drafts[d].copy.value.Arr?
    requires forall i | 0 <= i < |args| :: ValueIn(heap, |s.drafts|, args[i])
    ensures StoreWf(heap, logging, r.1) && Keeps(s, r.1)
  {
    if name == "pop" then Advance(PopStep(heap, logging, s, d))
    else if name == "push" then Advance(PushStep(heap, logging, s, d, args))
    else if name == "reverse" then Advance(ReverseStep(heap, logging, s, d))
    else if name == "shift" then Advance(ShiftStep(heap, logging, s, d))
    else if name == "unshift" then Advance(UnshiftStep(heap, logging, s, d, args))
    else if name == "splice" then
      match SpliceCall(args)
      case None => (Unsupported, s)
      case Some(call) => Advance(SpliceStep(heap, logging, s, d, call.0, call.1, call.2))
    else (Unsupported, s)
  }

  /** The Set closures (src/index.ts:208-247); a missing argument is
      `undefined`. */
  function CallsSet(heap: map<ObjId, Container>, logging: bool, s: Store, d: nat, name: string, args: seq<Value>): (r: (Progress, Store))
    requires StoreWf(heap, logging, s) && d < |s.drafts| && s.drafts[d].copy.Some? && s.drafts[d].copy.value.SetC?
    requires forall i | 0 <= i < |args| :: ValueIn(heap, |s.drafts|, args[i])
    ensures StoreWf(heap, logging, r.1) && Keeps(s, r.1)
  {
    if name == "add" then Advance(AddStep(heap, logging, s, d, FirstArg(args)))
    else if name == "clear" then Advance(ClearStep(heap, logging, s, d))
    else if name == "delete" then Advance(RemoveStep(heap, logging, s, d, FirstArg(args)))
    else (Unsupported, s)
  }

  /** One operation of the callback, through the traps. Calling what the
      get trap found as an own value throws: no value of the model is a
      function. */
  function Exec(heap: map<ObjId, Container>, logging: bool, s: Store, c: Command): (r: (Progress, Store))
    requires StoreWf(heap, logging, s)
    ensures StoreWf(heap, logging, r.1) && Keeps(s, r.1)
  {
    if c.d >= |s.drafts| then (Unsupported, s)
    else match c
      case Fetch(d, k) => Advance(GetStep(heap, logging, s, d, k))
      case Put(d, k, v) =>
        if !ValueIn(heap, |s.drafts|, v) then (Unsupported, s)
        else Advance(SetStep(heap, logging, s, d, k, v))
      case Drop(d, k) => Advance(DeleteStep(heap, logging, s, d, k))
      case Invoke(d, name, args) =>
        var g := GetStep(heap, logging, s, d, Name(name));
        if g.0.Throw? then (Stopped(g.0.error), g.1)
        else match g.0.value
          case Found(_) => (Stopped(TypeError), g.1)
          case Inherited => (Unsupported, g.1)
          case Intercepted(m) => Calls(heap, logging, g.1, d, m, args)
  }

  /** The callback: the operations in order, up to the first that does
      not go on. */
  function Script(heap: map<ObjId, Container>, logging: bool, s: Store, cmds: seq<Command>): (r: (Progress, Store))
    requires StoreWf(heap, logging, s)
    ensures StoreWf(heap, logging, r.1) && Keeps(s, r.1)
    decreases |cmds|
  {
    if cmds == [] then (Going, s)
    else
      var e := Exec(heap, logging, s, cmds[0]);
      if !e.0.Going? then e else Script(heap, logging, e.1, cmds[1..])
  }

  function Logs(enabled: bool, log: seq<Patch>): Option<seq<Patch>> {
    if enabled then Some(log) else None
  }

  function Copies(ds: seq<Draft>): (r: seq<Option<Container>>)
    ensures |r| == |ds| && forall x | 0 <= x < |ds| :: r[x] == ds[x].copy
  {
    seq(|ds|, x requires 0 <= x < |ds| => ds[x].copy)
  }

  /** `create` (src/index.ts:535-565): the root draft, the callback, then
      `finalizeDraft`; an exception from either escapes. */
  function Complete(heap: map<ObjId, Container>, root: ObjId, enablePatches: bool, cmds: seq<Command>): Completion
    requires HeapClosed(heap) && root in heap
  {
    CreatedWf(heap, enablePatches, root);
    var run := Script(heap, enablePatches, Created(root), cmds);
    if run.0.Stopped? then Failed(run.0.error)
    else if run.0.Unsupported? then Unmodelled
    else
      var f := FinalizeStep(heap, enablePatches, run.1);
      if f.0.Throw? then Failed(f.0.error)
      else Done(f.0.value, Copies(f.1.drafts), Logs(enablePatches, f.1.patches), Logs(enablePatches, f.1.inversePatches))
  }

  /** One turn of the callback: the first operation, then the rest. */
  lemma ScriptNext(heap: map<ObjId, Container>, logging: bool, s: Store, cmds: seq<Command>, i: nat)
    requires StoreWf(heap, logging, s) && i < |cmds|
    ensures var e := Exec(heap, logging, s, cmds[i]);
            Script(heap, logging, s, cmds[i..]) == if !e.0.Going? then e else Script(heap, logging, e.1, cmds[i + 1..])
  {
    assert cmds[i..][0] == cmds[i] && cmds[i..][1..] == cmds[i + 1..];
  }

  /** `create` as the source runs it (src/index.ts:535-565): a new engine
      with the root draft, the callback's operations one by one through the
      engine's traps, then `finalizeDraft`. */
  method Create(heap: map<ObjId, Container>, root: ObjId, enablePatches: bool, script: seq<Command>) returns (r: Completion)
    requires HeapClosed(heap) && root in heap
    ensures r == Complete(heap, root, enablePatches, script)
  {
    var engine := new Engine.Engine(heap, root, enablePatches);
    var p := RunScript(engine, script);
    if p.Stopped? {
      return Failed(p.error);
    } else if p.Unsupported? {
      return Unmodelled;
    }
    var o := engine.Finalize();
    if o.Throw? {
      return Failed(o.error);
    }
    r := Done(o.value, Copies(engine.drafts), Logs(enablePatches, engine.patches), Logs(enablePatches, engine.inversePatches));
  }

  /** The callback's operations one by one, up to the first that does
      not go on. */
  method RunScript(engine: Engine.Engine, script: seq<Command>) returns (p: Progress)
    requires engine.Valid()
    modifies engine
    ensures (p, engine.Snapshot()) == Script(engine.heap, engine.logging, old(engine.Snapshot()), script)
  {
    ghost var run := Script(engine.heap, engine.logging, engine.Snapshot(), script);
    assert script[0..] == script;
    var i := 0;
    while i < |script|
      invariant engine.Valid() && i <= |script|
      invariant run == Script(engine.heap, engine.logging, engine.Snapshot(), script[i..])
      decreases |script| - i
    {
      ScriptNext(engine.heap, engine.logging, engine.Snapshot(), script, i);
      p := Execute(engine, script[i]);
      if !p.Going? {
        return;
      }
      i := i + 1;
    }
    p := Going;
  }

  /** One operation of the callback, through the engine's traps. */
  method Execute(engine: Engine.Engine, c: Command) returns (p: Progress)
    requires engine.Valid()
    modifies engine
    ensures (p, engine.Snapshot()) == Exec(engine.heap, engine.logging, old(engine.Snapshot()), c)
  {
    if c.d >= |engine.drafts| {
      return Unsupported;
    }
    match c
    case Fetch(d, k) =>
      var o := engine.Get(d, k);
      p := if o.Ok? then Going else Stopped(o.error);
    case Put(d, k, v) =>
      if !ValueIn(engine.heap, |engine.drafts|, v) {
        return Unsupported;
      }
      var o := engine.Set(d, k, v);
      p := if o.Ok? then Going else Stopped(o.error);
    case Drop(d, k) =>
      var o := engine.DeleteProperty(d, k);
      p := if o.Ok? then Going else Stopped(o.error);
    case Invoke(d, name, args) =>
      var o := engine.Get(d, Name(name));
      if o.Throw? {
        return Stopped(o.error);
      }
      match o.value
      case Found(_) =>
        p := Stopped(TypeError);
      case Inherited =>
        p := Unsupported;
      case Intercepted(m) =>
        p := Call(engine, d, m, args);
  }

  /** Calling the closure for `name` on draft `d`. */
  method Call(engine: Engine.Engine, d: nat, name: string, args: seq<Value>) returns (p: Progress)
    requires engine.Valid() && d < |engine.drafts| && engine.drafts[d].copy.Some?
    modifies engine
    ensures (p, engine.Snapshot()) == Calls(engine.heap, engine.logging, old(engine.Snapshot()), d, name, args)
  {
    var c := engine.drafts[d].copy.value;
    if !(forall i | 0 <= i < |args| :: ValueIn(engine.heap, |engine.drafts|, args[i])) {
      return Unsupported;
    }
    if c.Arr? {
      p := CallArray(engine, d, name, args);
    } else if c.SetC? {
      p := CallSet(engine, d, name, args);
    } else {
      p := Unsupported;
    }
  }

  method CallArray(engine: Engine.Engine, d: nat, name: string, args: seq<Value>) returns (p: Progress)
    requires engine.Valid() && d < |engine.drafts| && engine.drafts[d].copy.Some? && engine.drafts[d].copy.value.Arr?
    requires forall i | 0 <= i < |args| :: ValueIn(engine.heap, |engine.drafts|, args[i])
    modifies engine
    ensures (p, engine.Snapshot()) == CallsArray(engine.heap, engine.logging, old(engine.Snapshot()), d, name, args)
  {
    var o: Outcome<Value>;
    if name == "pop" {
      o := engine.Pop(d);
    } else if name == "push" {
      o := engine.Push(d, args);
    } else if name == "reverse" {
      o := engine.Reverse(d);
    } else if name == "shift" {
      o := engine.Shift(d);
    } else if name == "unshift" {
      o := engine.Unshift(d, args);
    } else if name == "splice" {
      var call := SpliceCall(args);
      if call.None? {
        return Unsupported;
      }
      var removed := engine.Splice(d, call.value.0, call.value.1, call.value.2);
      return if removed.Ok? then Going else Stopped(removed.error);
    } else {
      return Unsupported;
    }
    p := if o.Ok? then Going else Stopped(o.error);
  }

  method CallSet(engine: Engine.Engine, d: nat, name: string, args: seq<Value>) returns (p: Progress)
    requires engine.Valid() && d < |engine.drafts| && engine.drafts[d].copy.Some? && engine.drafts[d].copy.value.SetC?
    requires forall i | 0 <= i < |args| :: ValueIn(engine.heap, |engine.drafts|, args[i])
    modifies engine
    ensures (p, engine.Snapshot()) == CallsSet(engine.heap, engine.logging, old(engine.Snapshot()), d, name, args)
  {
    var o: Outcome<Value>;
    if name == "add" {
      o := engine.Add(d, FirstArg(args));
    } else if name == "clear" {
      o := engine.Clear(d);
    } else if name == "delete" {
      o := engine.Delete(d, FirstArg(args));
    } else {
      return Unsupported;
    }
    p := if o.Ok? then Going else Stopped(o.error);
  }
}
