/** The patch vocabulary, the entries each intercepted mutation records,
    and a reference reading of what applying one entry to a container
    does. The inverse laws below say, entry by entry, when the recorded
    inverse undoes the mutation and, where the recorded inverse is read at
    the wrong moment, exactly what it does instead. */
module Patches {
  import opened Values

  datatype Operation =
    | Delete | Set | Clear | Add | Pop | Push | Reverse | Shift | Splice | Unshift | Construct

  /** One element of an entry's argument list: a value, a list of values
      (the single array argument of `unshift` and `splice` entries), or the
      members a Set or Map `clear` entry holds. */
  datatype Arg = One(v: Value) | Items(vs: seq<Value>) | Members(m: set<Value>) | Entries(e: map<Value, Value>)

  datatype Patch = Patch(op: Operation, path: seq<Key>, args: seq<Arg>)

  predicate AllOne(args: seq<Arg>) {
    forall i | 0 <= i < |args| :: args[i].One?
  }

  function ArgValues(args: seq<Arg>): (vs: seq<Value>)
    requires AllOne(args)
    ensures |vs| == |args| && forall i | 0 <= i < |args| :: vs[i] == args[i].v
  {
    if args == [] then [] else [args[0].v] + ArgValues(args[1..])
  }

  function Ones(vs: seq<Value>): (args: seq<Arg>)
    ensures AllOne(args) && ArgValues(args) == vs
  {
    if vs == [] then [] else [One(vs[0])] + Ones(vs[1..])
  }

  /** `[key]` with `key` prepended: how `makeChange` lengthens a path. */
  function PrefixLast(log: seq<Patch>, k: Key): (r: seq<Patch>)
    requires log != []
    ensures |r| == |log| && r[..|r| - 1] == log[..|log| - 1]
    ensures r[|r| - 1] == log[|log| - 1].(path := [k] + log[|log| - 1].path)
  {
    log[|log| - 1 := log[|log| - 1].(path := [k] + log[|log| - 1].path)]
  }

  /** Applying one entry, at the node its path leads to, the way the
      operation's native counterpart would with the recorded arguments. The
      last key of the path names the property for `Set` and `Delete` on a
      record or an array; on a Set or Map the arguments name the member.
      `None` when the entry does not fit the container. */
  function Apply(c: Container, p: Patch): Option<Container> {
    match p.op
    case Set =>
      if c.SetC? then
        (if |p.args| == 1 && p.args[0].One? then Some(SetC(c.members + {p.args[0].v})) else None)
      else if c.MapC? then
        (if |p.args| == 2 && AllOne(p.args) then Some(MapC(c.entries[p.args[0].v := p.args[1].v])) else None)
      else if p.path != [] && |p.args| == 1 && p.args[0].One?
              && !WriteThrows(c, p.path[|p.path| - 1], p.args[0].v) then
        Some(Write(c, p.path[|p.path| - 1], p.args[0].v))
      else None
    case Add =>
      if c.SetC? && |p.args| == 1 && p.args[0].One? then Some(SetC(c.members + {p.args[0].v})) else None
    case Delete =>
      if c.SetC? then
        (if |p.args| == 1 && p.args[0].One? then Some(SetC(c.members - {p.args[0].v})) else None)
      else if c.MapC? then
        (if |p.args| == 1 && p.args[0].One? then Some(MapC(c.entries - {p.args[0].v})) else None)
      else if p.path != [] && p.args == [] && !RemoveThrows(c, p.path[|p.path| - 1]) then
        Some(Remove(c, p.path[|p.path| - 1]))
      else None
    case Clear =>
      if c.SetC? then Some(SetC({})) else if c.MapC? then Some(MapC(map[])) else None
    case Construct =>
      if c.SetC? && |p.args| == 1 && p.args[0].Members? then Some(SetC(p.args[0].m))
      else if c.MapC? && |p.args| == 1 && p.args[0].Entries? then Some(MapC(p.args[0].e))
      else None
    case Push =>
      if c.Arr? && AllOne(p.args) then Some(Arr(c.elems + ArgValues(p.args))) else None
    case Pop =>
      if c.Arr? then Some(Arr(Popped(c.elems))) else None
    case Shift =>
      if c.Arr? then Some(Arr(Shifted(c.elems))) else None
    case Unshift =>
      if c.Arr? && AllOne(p.args) then Some(Arr(ArgValues(p.args) + c.elems)) else None
    case Reverse =>
      if c.Arr? then Some(Arr(Reversed(c.elems))) else None
    case Splice =>
      if c.Arr? && |p.args| >= 2 && AllOne(p.args)
         && p.args[0].v.Prim? && p.args[0].v.p.Num? && p.args[1].v.Prim? && p.args[1].v.p.Num? then
        Some(Arr(Spliced(c.elems, Some(p.args[0].v.p.n), Some(p.args[1].v.p.n), ArgValues(p.args[2..])).0))
      else None
  }

  // ---- the entries each trap and intercepted method records (forward, inverse) ----

  /** The set trap (src/index.ts:376-390): the inverse restores the previous
      value, except that writing an index at or past an array original's
      length records a reset of `length` to the original's length. */
  function SetTrapEntries(heap: map<ObjId, Container>, original: Value, k: Key, v: Value, previous: Value): (Patch, Patch)
    requires Pristine(heap, original)
  {
    var forward := Patch(Set, [k], [One(v)]);
    if original.Obj? && heap[original.id].Arr?
       && NumberOf(k).Some? && NumberOf(k).value >= |heap[original.id].elems| then
      (forward, Patch(Set, [Length], [One(Prim(Num(|heap[original.id].elems|)))]))
    else
      (forward, Patch(Set, [k], [One(previous)]))
  }

  /** The deleteProperty trap (src/index.ts:472-473). */
  function DeleteTrapEntries(k: Key, previous: Value): (Patch, Patch) {
    (Patch(Delete, [k], []), Patch(Set, [k], [One(previous)]))
  }

  /** `pop` (src/index.ts:126-128): the inverse pushes the last element of
      the array as it is AFTER popping. */
  function PopEntries(after: seq<Value>): (Patch, Patch) {
    (Patch(Pop, [Name("pop")], []), Patch(Push, [Name("pop")], [One(LastOr(after))]))
  }

  /** `push` (src/index.ts:139-144): the inverse carries the new length and
      the number of pushed values. */
  function PushEntries(args: seq<Value>, newLength: nat): (Patch, Patch) {
    (Patch(Push, [Name("push")], Ones(args)),
     Patch(Shift, [Name("push")], [One(Prim(Num(newLength))), One(Prim(Num(|args|)))]))
  }

  function ReverseEntries(): (Patch, Patch) {
    (Patch(Reverse, [Name("reverse")], []), Patch(Reverse, [Name("reverse")], []))
  }

  /** `shift` (src/index.ts:164-169): the inverse puts back the old first
      element (`undefined` for an empty array). */
  function ShiftEntries(first: Value): (Patch, Patch) {
    (Patch(Shift, [Name("shift")], []), Patch(Unshift, [Name("shift")], [One(first)]))
  }

  /** `unshift` (src/index.ts:180-181): the forward entry wraps the
      arguments in one list; the inverse splices that many from the front. */
  function UnshiftEntries(args: seq<Value>): (Patch, Patch) {
    (Patch(Unshift, [Name("unshift")], [Items(args)]),
     Patch(Splice, [Name("unshift")], [One(Prim(Num(0))), One(Prim(Num(|args|)))]))
  }

  /** `splice` (src/index.ts:192): a forward entry only. */
  function SpliceEntry(args: seq<Value>): Patch {
    Patch(Splice, [Name("splice")], [Items(args)])
  }

  /** Set `add` (src/index.ts:216-217). */
  function SetAddEntries(v: Value): (Patch, Patch) {
    (Patch(Set, [Name("add")], [One(v)]), Patch(Delete, [Name("add")], [One(v)]))
  }

  /** Set `clear` (src/index.ts:228-232): the entry holds the members
      right after clearing; the source holds a live iterator over the copy
      instead, which is not modelled. */
  function SetClearEntries(after: set<Value>): (Patch, Patch) {
    (Patch(Clear, [Name("clear")], []), Patch(Construct, [Name("clear")], [Members(after)]))
  }

  /** Set `delete` (src/index.ts:244-245). */
  function SetDeleteEntries(v: Value): (Patch, Patch) {
    (Patch(Delete, [Name("delete")], [One(v)]), Patch(Set, [Name("delete")], [One(v)]))
  }

  /** Map `set` (src/index.ts:265-266). */
  function MapSetEntries(k: Value, v: Value): (Patch, Patch) {
    (Patch(Set, [Name("set")], [One(k), One(v)]), Patch(Delete, [Name("set")], [One(k)]))
  }

  /** Map `clear` (src/index.ts:277-281): the entry holds the entries
      right after clearing; the source holds a live iterator over the copy
      instead, which is not modelled. */
  function MapClearEntries(after: map<Value, Value>): (Patch, Patch) {
    (Patch(Clear, [Name("clear")], []), Patch(Construct, [Name("clear")], [Entries(after)]))
  }

  /** Map `delete` (src/index.ts:293-295): the value is read after the
      entry is gone. */
  function MapDeleteEntries(k: Value, after: map<Value, Value>): (Patch, Patch) {
    (Patch(Delete, [Name("delete")], [One(k)]),
     Patch(Set, [Name("delete")], [One(k), One(if k in after then after[k] else Prim(Undefined))]))
  }

  // ---- inverse laws ----

  /** The set trap's inverse undoes an overwrite of an existing record key
      or array element; for a key the record did not have, it leaves the
      key behind, bound to `undefined`. */
  lemma SetTrapInverse(heap: map<ObjId, Container>, original: Value, f: map<Key, Value>, k: Key, v: Value)
    requires Pristine(heap, original) && !(original.Obj? && heap[original.id].Arr?)
    ensures var inv := SetTrapEntries(heap, original, k, v, Lookup(Record(f), k)).1;
            Apply(Write(Record(f), k, v), inv) == Some(if k in f then Record(f) else Record(f[k := Prim(Undefined)]))
  {
    if k in f {
      assert f[k := v][k := f[k]] == f;
    } else {
      assert f[k := v][k := Prim(Undefined)] == f[k := Prim(Undefined)];
    }
  }

  /** On an array copy still as long as its original, the set trap's
      inverse undoes an in-range write by restoring the element and an
      out-of-range write by truncating back to the original length. */
  lemma {:induction false} SetTrapInverseOnArray(heap: map<ObjId, Container>, o: ObjId, e: seq<Value>, i: nat, v: Value)
    requires o in heap && heap[o].Arr? && |heap[o].elems| == |e|
    ensures var inv := SetTrapEntries(heap, Obj(o), Index(i), v, Lookup(Arr(e), Index(i))).1;
            Apply(Write(Arr(e), Index(i), v), inv) == Some(Arr(e))
  {
    var inv := SetTrapEntries(heap, Obj(o), Index(i), v, Lookup(Arr(e), Index(i))).1;
    if i < |e| {
      assert Write(Arr(e), Index(i), v).elems[i := e[i]] == e;
    } else {
      var grown := e + Holes(i - |e|) + [v];
      assert inv == Patch(Set, [Length], [One(Prim(Num(|e|)))]);
      assert Resize(grown, |e|) == e;
    }
  }

  /** The deleteProperty trap's inverse restores a deleted record key. */
  lemma DeleteTrapInverse(f: map<Key, Value>, k: Key)
    requires k in f
    ensures Apply(Remove(Record(f), k), DeleteTrapEntries(k, Lookup(Record(f), k)).1) == Some(Record(f))
  {
    assert (f - {k})[k := f[k]] == f;
  }

  /** `pop`'s recorded inverse pushes back the element that is now last,
      so it restores the array exactly when its last two elements were
      equal (an array of one element becomes `[undefined]`). */
  lemma {:induction false} PopInverse(s: seq<Value>)
    requires |s| >= 2
    ensures Apply(Arr(Popped(s)), PopEntries(Popped(s)).1) == Some(Arr(Popped(s) + [s[|s| - 2]]))
    ensures Apply(Arr(Popped(s)), PopEntries(Popped(s)).1) == Some(Arr(s)) <==> s[|s| - 2] == s[|s| - 1]
  {
    var after := Popped(s);
    assert LastOr(after) == s[|s| - 2];
    assert ArgValues([One(s[|s| - 2])]) == [s[|s| - 2]];
    if after + [s[|s| - 2]] == s {
      assert s[|s| - 1] == (after + [s[|s| - 2]])[|s| - 1];
    }
  }

  /** `push`'s recorded inverse is a `Shift` entry. Replayed the way
      native `shift` works, it takes off the FIRST element, whatever its
      arguments (the new length and the count) say; so it restores the
      array exactly when nothing was pushed onto an empty array, or one
      value was pushed onto an array holding only that value. */
  lemma {:induction false} PushInverse(s: seq<Value>, args: seq<Value>)
    ensures Apply(Arr(s + args), PushEntries(args, |s + args|).1) == Some(Arr(Shifted(s + args)))
    ensures Apply(Arr(s + args), PushEntries(args, |s + args|).1) == Some(Arr(s))
        <==> (args == [] && s == []) || (|args| == 1 && forall i | 0 <= i < |s| :: s[i] == args[0])
  {
    if |args| == 1 {
      assert s + args == s + [args[0]];
      ShiftFixed(s, args[0]);
    } else if s + args != [] {
      assert |Shifted(s + args)| != |s|;
    }
  }

  /** Dropping the first element of `s + [a]` gives `s` back exactly when
      every element of `s` is `a`. */
  lemma {:induction false} ShiftFixed(s: seq<Value>, a: Value)
    ensures (s + [a])[1..] == s <==> forall i | 0 <= i < |s| :: s[i] == a
    decreases |s|
  {
    if s != [] {
      var t := s[1..];
      assert s == [s[0]] + t;
      if (s + [a])[1..] == s {
        assert t + [a] == s;
        assert (t + [a])[1..] == t;
        ShiftFixed(t, a);
        assert s[0] == (t + [a])[0];
        forall i | 0 <= i < |s| ensures s[i] == a {
          if i > 0 { assert s[i] == t[i - 1]; }
        }
      }
      if forall i | 0 <= i < |s| :: s[i] == a {
        assert (s + [a])[1..] == s;
      }
    }
  }

  /** `reverse` is its own inverse. */
  lemma ReverseInverse(s: seq<Value>)
    ensures Apply(Arr(Reversed(s)), ReverseEntries().1) == Some(Arr(s))
  {
    ReversedTwice(s);
  }

  /** `shift`'s inverse restores a non-empty array; on an empty one it
      leaves a single `undefined` behind. */
  lemma ShiftInverse(s: seq<Value>)
    ensures s != [] ==> Apply(Arr(Shifted(s)), ShiftEntries(FirstOr(s)).1) == Some(Arr(s))
    ensures s == [] ==> Apply(Arr(Shifted(s)), ShiftEntries(FirstOr(s)).1) == Some(Arr([Prim(Undefined)]))
  {
    assert ArgValues([One(FirstOr(s))]) == [FirstOr(s)];
  }

  /** `unshift`'s inverse removes exactly the inserted prefix. */
  lemma {:induction false} UnshiftInverse(s: seq<Value>, args: seq<Value>)
    ensures Apply(Arr(args + s), UnshiftEntries(args).1) == Some(Arr(s))
  {
    var inv := UnshiftEntries(args).1;
    assert ArgValues(inv.args[2..]) == [];
    var r := Spliced(args + s, Some(0), Some(|args|), []);
    SplicedShape(args + s, Some(0), Some(|args|), []);
    assert SpliceStart(|args + s|, Some(0)) == 0;
    assert SpliceCount(|args + s|, 0, Some(0), Some(|args|)) == |args|;
    assert r.0 == [] + [] + (args + s)[|args|..];
    assert (args + s)[|args|..] == s;
  }

  /** Set `add`'s inverse deletes the value, which undoes the add exactly
      when the value was not already a member. */
  lemma SetAddInverse(m: set<Value>, v: Value)
    ensures Apply(SetC(m + {v}), SetAddEntries(v).1) == Some(SetC(m)) <==> v !in m
  {
    if v in m {
      assert v !in (m + {v}) - {v};
    }
  }

  /** Set `delete`'s inverse adds the value back, which undoes the delete
      exactly when the value was a member. */
  lemma SetDeleteInverse(m: set<Value>, v: Value)
    ensures Apply(SetC(m - {v}), SetDeleteEntries(v).1) == Some(SetC(m)) <==> v in m
  {
    if v !in m {
      assert v in (m - {v}) + {v};
    } else {
      assert (m - {v}) + {v} == m;
    }
  }

  /** Set `clear`'s inverse rebuilds from the members right after clearing,
      so it restores only a Set that was already empty. */
  lemma SetClearInverse(m: set<Value>)
    ensures Apply(SetC({}), SetClearEntries({}).1) == Some(SetC(m)) <==> m == {}
  {
  }

  /** Map `set`'s inverse deletes the key, which undoes the set exactly
      when the key was absent. */
  lemma MapSetInverse(m: map<Value, Value>, k: Value, v: Value)
    ensures Apply(MapC(m[k := v]), MapSetEntries(k, v).1) == Some(MapC(m)) <==> k !in m
  {
    if k !in m {
      assert m[k := v] - {k} == m;
    } else {
      assert k !in m[k := v] - {k};
    }
  }

  /** Map `delete`'s inverse reads the value after deleting, so it binds
      the key to `undefined`: it restores the map only when the key was
      there with the value `undefined`. */
  lemma MapDeleteInverse(m: map<Value, Value>, k: Value)
    ensures Apply(MapC(m - {k}), MapDeleteEntries(k, m - {k}).1) == Some(MapC(m))
        <==> k in m && m[k] == Prim(Undefined)
  {
    var r := (m - {k})[k := Prim(Undefined)];
    if k in m && m[k] == Prim(Undefined) {
      assert r == m;
    } else if k !in m {
      assert k in r;
    } else {
      assert r[k] != m[k];
    }
  }

  /** Map `clear`'s inverse rebuilds from the entries right after clearing,
      so it restores only a Map that was already empty. */
  lemma MapClearInverse(m: map<Value, Value>)
    ensures Apply(MapC(map[]), MapClearEntries(map[]).1) == Some(MapC(m)) <==> m == map[]
  {
  }
}
