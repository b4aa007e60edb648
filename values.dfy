/** Values, keys and the four container shapes a draft can wrap, with the
    primitive operations the draft engine performs on them: own-property
    lookup, assignment, deletion, the two shallow-copy policies and the
    native array, Set and Map mutators. */
module Values {

  datatype Option<T> = None | Some(value: T)

  /** The outcome of a JavaScript operation that may throw. */
  datatype Error = TypeError | RangeError | CannotSetPrototype | CannotDefineProperty
  datatype Outcome<T> = Ok(value: T) | Throw(error: Error)

  /** Primitive values the model distinguishes. */
  datatype Prim = Undefined | Null | Bool(b: bool) | Num(n: int) | Str(s: string)

  type ObjId = nat
  type DraftId = nat

  /** What a property slot can hold. */
  datatype Value =
    | Prim(p: Prim)
    | Obj(id: ObjId)          // an object of the caller's heap; the engine never writes it
    | Proxy(draft: DraftId)   // the draft handle of a draft record
    | Copy(owner: DraftId)    // the shallow copy owned by a draft record

  /** A property key: a canonical array index, or any other string. */
  datatype Key = Name(name: string) | Index(i: nat)

  const Length: Key := Name("length")

  datatype Container =
    | Record(fields: map<Key, Value>)
    | Arr(elems: seq<Value>)
    | SetC(members: set<Value>)
    | MapC(entries: map<Value, Value>)

  /** `v` refers only to objects of `heap` and to the first `n` drafts. */
  predicate ValueIn(heap: map<ObjId, Container>, n: nat, v: Value) {
    match v
    case Prim(_) => true
    case Obj(o) => o in heap
    case Proxy(d) => d < n
    case Copy(d) => d < n
  }

  /** A pristine value: a primitive or an object of the caller's heap. */
  predicate Pristine(heap: map<ObjId, Container>, v: Value) {
    ValueIn(heap, 0, v)
  }

  /** Every value `c` holds satisfies `ValueIn(heap, n, _)`. */
  predicate ContainerIn(heap: map<ObjId, Container>, n: nat, c: Container) {
    match c
    case Record(f) => forall k | k in f :: ValueIn(heap, n, f[k])
    case Arr(e) => forall i | 0 <= i < |e| :: ValueIn(heap, n, e[i])
    case SetC(m) => forall v | v in m :: ValueIn(heap, n, v)
    case MapC(m) => forall v | v in m :: ValueIn(heap, n, v) && ValueIn(heap, n, m[v])
  }

  /** The caller's heap mentions only its own objects and holds no draft
      handle and no copy. */
  predicate HeapClosed(heap: map<ObjId, Container>) {
    forall o | o in heap :: ContainerIn(heap, 0, heap[o])
  }

  /** JavaScript truthiness of a primitive. */
  predicate Truthy(p: Prim) {
    match p
    case Undefined => false
    case Null => false
    case Bool(b) => b
    case Num(n) => n != 0
    case Str(s) => s != ""
  }

  /** A key is truthy unless it is the empty string. */
  predicate KeyTruthy(k: Key) {
    k != Name("")
  }

  /** `Number(key)`: an index is its own number, the empty string is 0 and
      every other name is NaN. */
  function NumberOf(k: Key): Option<nat> {
    match k
    case Index(i) => Some(i)
    case Name(s) => if s == "" then Some(0) else None
  }

  function Holes(n: nat): (r: seq<Value>)
    ensures |r| == n && forall i | 0 <= i < n :: r[i] == Prim(Undefined)
  {
    seq(n, _ => Prim(Undefined))
  }

  /** The own keys of a container (`Reflect.ownKeys`, order left out). */
  function OwnKeys(c: Container): set<Key> {
    match c
    case Record(f) => f.Keys
    case Arr(e) => (set i | 0 <= i < |e| :: Index(i)) + {Length}
    case _ => {}
  }

  predicate HasOwn(c: Container, k: Key) {
    k in OwnKeys(c)
  }

  /** `c[k]` for an own key, `undefined` otherwise. */
  function Lookup(c: Container, k: Key): (v: Value)
    ensures !HasOwn(c, k) ==> v == Prim(Undefined)
  {
    match c
    case Record(f) => if k in f then f[k] else Prim(Undefined)
    case Arr(e) =>
      if k.Index? && k.i < |e| then e[k.i]
      else if k == Length then Prim(Num(|e|))
      else Prim(Undefined)
    case _ => Prim(Undefined)
  }

  /** Only `length` of an array is non-enumerable. */
  predicate Enumerable(c: Container, k: Key) {
    !(c.Arr? && k == Length)
  }

  predicate IsDigits(s: string) {
    forall i | 0 <= i < |s| :: '0' <= s[i] <= '9'
  }

  /** The number a string of decimal digits denotes (0 for the empty
      string). */
  function DecimalValue(s: string): nat
    requires IsDigits(s)
  {
    if s == [] then 0 else DecimalValue(s[..|s| - 1]) * 10 + (s[|s| - 1] as int - '0' as int)
  }

  /** `String(n)` for a whole number `n`. */
  function DecimalString(n: nat): (s: string)
    ensures IsDigits(s) && s != []
  {
    var last := ['0' + ((n % 10) as char)];
    if n < 10 then last else DecimalString(n / 10) + last
  }

  /** The length an array takes when `v` is assigned to its `length`:
      `ToNumber(v)` when that is a whole number no less than 0, where
      `null` and `false` are 0, `true` is 1 and a string of decimal digits
      is its value (the empty string is 0); `None` where the assignment
      throws a RangeError. */
  function NewLength(v: Value): (n: Option<nat>)
    ensures v.Prim? && v.p.Num? ==> (n.Some? <==> v.p.n >= 0) && (n.Some? ==> n.value == v.p.n)
    ensures !v.Prim? || v.p.Undefined? ==> n.None?
  {
    match v
    case Prim(Null) => Some(0)
    case Prim(Bool(b)) => Some(if b then 1 else 0)
    case Prim(Num(n)) => if n >= 0 then Some(n) else None
    case Prim(Str(s)) => if IsDigits(s) then Some(DecimalValue(s)) else None
    case _ => None
  }

  /** `arr.length = String(n)` sets the length to `n`: the digit string a
      number prints as reads back as that number. */
  lemma {:induction false} LengthFromString(n: nat)
    ensures NewLength(Prim(Str(DecimalString(n)))) == Some(n)
  {
    var s := DecimalString(n);
    var c := '0' + ((n % 10) as char);
    assert c as int - '0' as int == n % 10;
    if n >= 10 {
      LengthFromString(n / 10);
      assert s == DecimalString(n / 10) + [c];
      assert s[..|s| - 1] == DecimalString(n / 10);
    } else {
      assert s == [c] && s[..|s| - 1] == [];
      assert DecimalValue(s) == DecimalValue([]) * 10 + (c as int - '0' as int);
    }
  }

  /** Assigning `v` to `c[k]` throws when it sets an array's length to
      something that is not a valid length. */
  predicate WriteThrows(c: Container, k: Key, v: Value) {
    c.Arr? && k == Length && NewLength(v).None?
  }

  function Resize(e: seq<Value>, n: nat): (r: seq<Value>)
    ensures |r| == n
    ensures forall i | 0 <= i < n :: r[i] == if i < |e| then e[i] else Prim(Undefined)
  {
    if n <= |e| then e[..n] else e + Holes(n - |e|)
  }

  /** `c[k] = v`. Writing past the end of an array pads it with holes
      (modelled as `undefined`); writing `length` truncates or pads. */
  function Write(c: Container, k: Key, v: Value): (r: Container)
    requires !WriteThrows(c, k, v)
    ensures r.Record? == c.Record? && r.Arr? == c.Arr? && r.SetC? == c.SetC? && r.MapC? == c.MapC?
    ensures c.Record? || (c.Arr? && k.Index?) ==> Lookup(r, k) == v
    ensures forall j | j != k && !(c.Arr? && (j == Length || k == Length)) :: Lookup(r, j) == Lookup(c, j)
    ensures c.Arr? && k.Index? ==>
      Lookup(r, Length) == Prim(Num(if k.i < |c.elems| then |c.elems| else k.i + 1))
    ensures c.Arr? && k == Length ==>
      && Lookup(r, Length) == Prim(Num(NewLength(v).value))
      && forall i: nat :: Lookup(r, Index(i)) == if i < NewLength(v).value then Lookup(c, Index(i)) else Prim(Undefined)
  {
    match c
    case Record(f) => Record(f[k := v])
    case Arr(e) =>
      if k.Index? then
        if k.i < |e| then Arr(e[k.i := v]) else Arr(e + Holes(k.i - |e|) + [v])
      else if k == Length then Arr(Resize(e, NewLength(v).value))
      else c
    case _ => c
  }

  /** `delete c[k]` throws on an array's `length`. */
  predicate RemoveThrows(c: Container, k: Key) {
    c.Arr? && k == Length
  }

  /** `delete c[k]`: a deleted array element leaves a hole (modelled as
      `undefined`). */
  function Remove(c: Container, k: Key): (r: Container)
    requires !RemoveThrows(c, k)
    ensures r.Record? == c.Record? && r.Arr? == c.Arr? && r.SetC? == c.SetC? && r.MapC? == c.MapC?
    ensures Lookup(r, k) == Prim(Undefined)
    ensures forall j | j != k :: Lookup(r, j) == Lookup(c, j)
  {
    match c
    case Record(f) => Record(f - {k})
    case Arr(e) => if k.Index? && k.i < |e| then Arr(e[k.i := Prim(Undefined)]) else c
    case _ => c
  }

  /** The own enumerable keys of a primitive wrapped as an object: the
      characters of a string, nothing otherwise. */
  function PrimFields(p: Prim): map<Key, Value> {
    if p.Str? then map i | 0 <= i < |p.s| :: Index(i) := Prim(Str([p.s[i]])) else map[]
  }

  /** `Object.keys(undefined)` and `Object.keys(null)` throw. */
  predicate CopyThrows(original: Value) {
    original == Prim(Undefined) || original == Prim(Null)
  }

  /** The copy policy of `ensureShallowCopy` (src/index.ts:63-80): arrays
      by `concat`, Sets by `new Set`, everything else key by key. A Map is
      not recognised (the second test is for Set again), so it falls to the
      key-by-key branch and, having no own keys, becomes an empty record. */
  function ShallowCopy(heap: map<ObjId, Container>, original: Value): (r: Container)
    requires Pristine(heap, original) && !CopyThrows(original)
    ensures original.Obj? && !heap[original.id].MapC? ==>
      OwnKeys(r) == OwnKeys(heap[original.id]) && forall k :: Lookup(r, k) == Lookup(heap[original.id], k)
    ensures original.Obj? && heap[original.id].Arr? ==> r.Arr? && r.elems == heap[original.id].elems
    ensures original.Obj? && heap[original.id].SetC? ==> r.SetC? && r.members == heap[original.id].members
    ensures original.Obj? && heap[original.id].MapC? ==> r == Record(map[])
    ensures !r.MapC?
  {
    if original.Obj? then
      match heap[original.id]
      case Arr(e) => Arr(e)
      case SetC(m) => SetC(m)
      case MapC(_) => Record(map[])
      case Record(f) => Record(f)
    else
      Record(PrimFields(original.p))
  }

  /** The copy policy of object spread `{ ...x }`, used by `makeChange` for
      non-array parents and by `getValue`: own enumerable keys into a plain
      record; Sets, Maps, `undefined` and `null` give an empty record. */
  function SpreadCopy(heap: map<ObjId, Container>, original: Value): (r: Container)
    requires Pristine(heap, original)
    ensures r.Record?
    ensures original.Obj? && heap[original.id].Record? ==> r == heap[original.id]
    ensures original.Obj? && heap[original.id].Arr? ==>
      r.fields.Keys == OwnKeys(heap[original.id]) - {Length} &&
      forall k | k in r.fields :: r.fields[k] == Lookup(heap[original.id], k)
    ensures original.Obj? && (heap[original.id].SetC? || heap[original.id].MapC?) ==> r == Record(map[])
    ensures original.Prim? && !original.p.Str? ==> r == Record(map[])
    ensures original.Prim? && original.p.Str? ==>
      && r.fields.Keys == (set i | 0 <= i < |original.p.s| :: Index(i))
      && forall i | 0 <= i < |original.p.s| :: r.fields[Index(i)] == Prim(Str([original.p.s[i]]))
  {
    if original.Obj? then
      match heap[original.id]
      case Record(f) => Record(f)
      case Arr(e) => Record(map i | 0 <= i < |e| :: Index(i) := e[i])
      case _ => Record(map[])
    else
      Record(PrimFields(original.p))
  }

  // ---- native array mutators, as Array.prototype defines them ----

  function LastOr(s: seq<Value>): Value {
    if s == [] then Prim(Undefined) else s[|s| - 1]
  }

  function FirstOr(s: seq<Value>): Value {
    if s == [] then Prim(Undefined) else s[0]
  }

  function Popped(s: seq<Value>): (r: seq<Value>)
    ensures s != [] ==> r + [s[|s| - 1]] == s
    ensures s == [] ==> r == []
  {
    if s == [] then [] else s[..|s| - 1]
  }

  function Shifted(s: seq<Value>): (r: seq<Value>)
    ensures s != [] ==> [s[0]] + r == s
    ensures s == [] ==> r == []
  {
    if s == [] then [] else s[1..]
  }

  /** `Array.prototype.reverse` on the elements, defined by recursion on
      the front element so that it is a plain function of the sequence. */
  function Reversed(s: seq<Value>): (r: seq<Value>)
    ensures |r| == |s|
  {
    if s == [] then [] else Reversed(s[1..]) + [s[0]]
  }

  /** Element `k` of the reversal is element `|s| - 1 - k` of `s`. The
      recursive definition only says where the FIRST element goes, so this
      index-wise reading needs its own induction; the inverse law for
      `reverse` and the reverse closure's effect are proved through it. */
  lemma {:induction false} ReversedAt(s: seq<Value>, k: nat)
    requires k < |s|
    ensures Reversed(s)[k] == s[|s| - 1 - k]
  {
    if k < |s| - 1 {
      ReversedAt(s[1..], k);
    }
  }

  /** Reversing twice restores the sequence, which is why `reverse` records
      itself as its own inverse. */
  lemma {:induction false} ReversedTwice(s: seq<Value>)
    ensures Reversed(Reversed(s)) == s
  {
    forall k | 0 <= k < |s|
      ensures Reversed(Reversed(s))[k] == s[k]
    {
      ReversedAt(Reversed(s), k);
      ReversedAt(s, |s| - 1 - k);
    }
  }

  /** `splice`'s clamping of its start argument. */
  function SpliceStart(len: nat, start: Option<int>): (r: nat)
    ensures r <= len
  {
    match start
    case None => 0
    case Some(s) =>
      if s < 0 then (if len + s < 0 then 0 else len + s)
      else if s > len then len else s
  }

  /** `splice`'s clamping of its delete count: none without a start, the rest
      of the array without a count. */
  function SpliceCount(len: nat, from: nat, start: Option<int>, count: Option<int>): (r: nat)
    requires from <= len
    ensures from + r <= len
  {
    if start.None? then 0
    else match count
      case None => len - from
      case Some(c) => if c < 0 then 0 else if c > len - from then len - from else c
  }

  /** `s.splice(start, count, ...items)`: the array afterwards and the
      removed elements. */
  function Spliced(s: seq<Value>, start: Option<int>, count: Option<int>, items: seq<Value>): (r: (seq<Value>, seq<Value>))
  {
    var from := SpliceStart(|s|, start);
    var n := SpliceCount(|s|, from, start, count);
    (s[..from] + items + s[from + n..], s[from..from + n])
  }

  /** `splice` keeps the prefix before `start`, puts the items there and
      returns exactly the elements it took out: putting them back between
      the prefix and the rest gives the original array. */
  lemma SplicedShape(s: seq<Value>, start: Option<int>, count: Option<int>, items: seq<Value>)
    ensures var r := Spliced(s, start, count, items);
            var from := SpliceStart(|s|, start);
            && |r.0| == |s| - |r.1| + |items|
            && from + |items| <= |r.0|
            && r.0[..from] == s[..from]
            && r.0[from..from + |items|] == items
            && r.0[..from] + r.1 + r.0[from + |items|..] == s
  {
  }

  // ---- the engine keeps every slot within the heap and the drafts it knows ----

  lemma ValueInGrow(heap: map<ObjId, Container>, n: nat, m: nat, v: Value)
    requires n <= m && ValueIn(heap, n, v)
    ensures ValueIn(heap, m, v)
  {
  }

  lemma ContainerInGrow(heap: map<ObjId, Container>, n: nat, m: nat, c: Container)
    requires n <= m && ContainerIn(heap, n, c)
    ensures ContainerIn(heap, m, c)
  {
  }

  lemma LookupIn(heap: map<ObjId, Container>, n: nat, c: Container, k: Key)
    requires ContainerIn(heap, n, c)
    ensures ValueIn(heap, n, Lookup(c, k))
  {
  }

  lemma WriteIn(heap: map<ObjId, Container>, n: nat, c: Container, k: Key, v: Value)
    requires ContainerIn(heap, n, c) && ValueIn(heap, n, v) && !WriteThrows(c, k, v)
    ensures ContainerIn(heap, n, Write(c, k, v))
  {
    if c.Arr? && k.Index? && k.i >= |c.elems| {
      var e := c.elems + Holes(k.i - |c.elems|) + [v];
      forall i | 0 <= i < |e| ensures ValueIn(heap, n, e[i]) {
      }
    }
  }

  lemma RemoveIn(heap: map<ObjId, Container>, n: nat, c: Container, k: Key)
    requires ContainerIn(heap, n, c) && !RemoveThrows(c, k)
    ensures ContainerIn(heap, n, Remove(c, k))
  {
  }

  lemma ReversedIn(heap: map<ObjId, Container>, n: nat, e: seq<Value>)
    requires forall i | 0 <= i < |e| :: ValueIn(heap, n, e[i])
    ensures ContainerIn(heap, n, Arr(Reversed(e)))
  {
    forall i | 0 <= i < |e| ensures ValueIn(heap, n, Reversed(e)[i]) {
      ReversedAt(e, i);
    }
  }

  lemma SplicedIn(heap: map<ObjId, Container>, n: nat, e: seq<Value>, start: Option<int>, count: Option<int>, items: seq<Value>)
    requires forall i | 0 <= i < |e| :: ValueIn(heap, n, e[i])
    requires forall i | 0 <= i < |items| :: ValueIn(heap, n, items[i])
    ensures ContainerIn(heap, n, Arr(Spliced(e, start, count, items).0))
  {
    var from := SpliceStart(|e|, start);
    var k := SpliceCount(|e|, from, start, count);
    var r := e[..from] + items + e[from + k..];
    assert r == Spliced(e, start, count, items).0;
    forall i | 0 <= i < |r| ensures ValueIn(heap, n, r[i]) {
      if i >= from + |items| { assert r[i] == e[i - |items| + k]; }
    }
  }

  lemma CopiesIn(heap: map<ObjId, Container>, n: nat, original: Value)
    requires HeapClosed(heap) && Pristine(heap, original)
    ensures !CopyThrows(original) ==> ContainerIn(heap, n, ShallowCopy(heap, original))
    ensures ContainerIn(heap, n, SpreadCopy(heap, original))
  {
    if original.Obj? {
      ContainerInGrow(heap, 0, n, heap[original.id]);
    }
  }
}
