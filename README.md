# mutative draft engine, modelled in Dafny

`create(initialState, mutate, { enablePatches })` hands the `mutate` callback a
draft of `initialState`. Reading through a draft lazily makes one-level
copies (`ensureShallowCopy`) and child drafts; writing, deleting and calling an
intercepted container method (`push`, `splice`, Set `add`, ...) change the
copy, set `updated` and `assigned`, and, when patches are enabled, append a
forward and an inverse `(Operation, path, args)` entry. `makeChange` then
marks the parent, binds the parent's copy slot to the child's copy and
prepends the child's key to the latest entries' paths. Every draft
creation, child read and draft assignment queues a thunk at the front of
`finalities`. `finalizeDraft` runs the thunks front to back and
returns the root's copy if the root was updated, and its original otherwise.

The model follows `src/index.ts` as written:

- `values.dfy` (module `Values`) holds values and containers:
  - values are primitives, caller objects `Obj(id)`, draft handles `Proxy(d)` and draft copies `Copy(d)`;
  - the native container operations (`concat`, spread, element write and delete, pop/shift/reverse/splice) are functions with their contracts.
- `patches.dfy` (module `Patches`) holds the patch entries:
  - the entry pair each mutation records;
  - an `Apply` that replays one entry the way its native operation would;
  - inverse lemmas that say which recorded inverses really undo their mutation.
- `drafts.dfy` (module `Drafts`) holds the specification:
  - every trap and closure is a function on a `Store` of draft records, `proxiesMap`, `finalities` and both logs;
  - each function keeps the store invariant `StoreWf`.
- `engine.dfy` (module `Engine`) is the imperative engine:
  - class `Engine` holds the same state as fields, and each trap, closure, `makeChange` step and finalisation thunk is a method that updates them in place;
  - each method is proved to end in exactly the state, and with the result, of its `Drafts` function;
  - the `finalizeDraft` loop is a `while` loop proved against `RunFrom`.
- `properties.dfy` (module `Properties`) proves what one trap does: its effect, its errors, child creation and aliasing, and finalisation.
- `sessions.dfy` and `guarantees.dfy` (modules `Sessions`, `Guarantees`) cover whole sessions:
  - `create` runs a callback given as a list of operations on draft handles;
  - the properties of the result: which state is returned, and how many log entries there are.

## Model

| member | source | states |
|---|---|---|
| Values.ShallowCopy | src/index.ts:63-80 | an array original is copied element for element and a Set member for member; any other object gets exactly its own keys with the same values; a Map original (the repeated `instanceof Set` test) becomes an empty record; no copy is a Map |
| Values.SpreadCopy | src/index.ts:342-349 | `{ ...original }` is always a plain record: a record original's own fields, an array's indices without `length`, a string's characters by index, nothing for Sets, Maps and the other primitives |
| Values.Write | src/index.ts:372 | after `c[k] = v` the key reads `v` and every other key reads what it read before; an index write on an array leaves its length at the larger of the old length and the index plus one; writing an array's `length` sets it to the coerced value and truncates or pads with `undefined` |
| Values.NewLength | src/index.ts:372 | a number written to an array's `length` is kept exactly when it is not negative; `undefined` and objects always throw |
| Values.LengthFromString | src/index.ts:372 | writing `String(n)` to an array's `length` sets the length to `n` |
| Values.Remove | src/index.ts:467 | after `delete c[k]` the key reads `undefined` and every other key is unchanged |
| Values.Lookup | src/index.ts:112 | a key the container does not own reads `undefined` |
| Values.Popped | src/index.ts:124 | the popped array followed by the removed last element is the original array |
| Values.Shifted | src/index.ts:165 | the removed first element followed by the shifted array is the original array |
| Values.ReversedAt | src/index.ts:152 | element `k` of the reversed array is element `n-1-k` of the original |
| Values.ReversedTwice | src/index.ts:155-156 | reversing twice gives back the array, so `reverse` is its own inverse |
| Values.SplicedShape | src/index.ts:189 | `splice` keeps the prefix before the clamped start, inserts the items there, and returns exactly the removed run: prefix + removed + rest is the original |
| Values.SpliceStart | src/index.ts:189 | the clamped start never exceeds the length |
| Values.SpliceCount | src/index.ts:189 | the clamped delete count never runs past the end |
| Patches.PrefixLast | src/index.ts:502-507 | only the last entry changes, gaining `k` in front of its path |
| Patches.SetTrapInverse | src/index.ts:376-390 | on a record the set trap's inverse restores an overwritten key; for a key the record lacked it leaves the key bound to `undefined` |
| Patches.SetTrapInverseOnArray | src/index.ts:377-387 | on an array as long as its original, the inverse of an index write (in range: the old element; past the end: `length` reset) restores the array exactly |
| Patches.DeleteTrapInverse | src/index.ts:472-473 | the deleteProperty inverse restores a deleted record key |
| Patches.PopInverse | src/index.ts:124-128 | `pop`'s inverse pushes back the element now last, so it restores the array exactly when its last two elements were equal |
| Patches.PushInverse | src/index.ts:139-144 | `push`'s recorded inverse is a `Shift` entry, which replayed as `shift` drops the FIRST element; so it restores the array only when nothing was pushed onto an empty array, or one value was pushed onto an array holding only that value |
| Patches.ReverseInverse | src/index.ts:155-156 | applying `reverse`'s inverse to the reversed array restores it |
| Patches.ShiftInverse | src/index.ts:164-169 | `shift`'s inverse restores a non-empty array; an empty one gains a single `undefined` |
| Patches.UnshiftInverse | src/index.ts:180-181 | `unshift`'s inverse splices away exactly the inserted prefix |
| Patches.SetAddInverse | src/index.ts:216-217 | Set `add`'s inverse undoes the add exactly when the value was not a member |
| Patches.SetDeleteInverse | src/index.ts:244-245 | Set `delete`'s inverse undoes the delete exactly when the value was a member |
| Patches.SetClearInverse | src/index.ts:228-233 | Set `clear`'s inverse, holding the members right after clearing, restores only an already empty Set |
| Patches.MapSetInverse | src/index.ts:265-266 | Map `set`'s inverse undoes the set exactly when the key was absent |
| Patches.MapDeleteInverse | src/index.ts:293-295 | Map `delete`'s inverse, reading the value after deleting, restores the Map only when the key held `undefined` |
| Patches.MapClearInverse | src/index.ts:277-282 | Map `clear`'s inverse restores only an already empty Map |
| Drafts.Created | src/index.ts:542-557 | the session starts with one root draft, not updated and without a copy |
| Drafts.CreatedWf | src/index.ts:542-557 | the initial store satisfies the store invariant |
| Drafts.EnsureCopy | src/index.ts:63-80 | a draft with a copy is left alone; otherwise only its copy changes, to the shallow copy of its original; the invariant is kept |
| Drafts.OriginalAt | src/index.ts:304 | `original[k]` of a pristine original is pristine |
| Drafts.Queue | src/index.ts:315 | `finalities.unshift(a)` puts `a` in front and keeps the invariant |
| Drafts.PathKey | src/index.ts:500 | the key `makeChange` prepends exists exactly for a draft with a parent and a truthy key |
| Drafts.Mark | src/index.ts:492 | only the parent's `updated` flag changes, to true |
| Drafts.Prefix | src/index.ts:500-508 | the latest forward and inverse paths gain the key; it throws a TypeError exactly when a log it must prefix is empty |
| Drafts.Rebind | src/index.ts:509 | the parent's copy slot holds the child's copy afterwards, nothing else changes; it fails only where an array `length` would be set |
| Drafts.Bind | src/index.ts:491-510 | one level of `makeChange`: only the parent's record changes; the parent is updated; the logs are prefixed with the child's key; the errors are exactly an empty log to prefix (TypeError) or an array `length` write (RangeError) |
| Drafts.BindBinds | src/index.ts:499-509 | with a truthy key, a call that returns normally leaves the parent's slot for the key holding the child's copy; with a falsy key the call returns normally and the parent's copy is unchanged, as it is after a throw |
| Drafts.ChangeStep | src/index.ts:486-517 | the drafts created after `d` are unchanged; a parentless draft marks itself; the parent is marked; on success the root is marked updated whatever the depth; only the latest log entries are prefixed, with `d`'s own key |
| Drafts.ChangeFrame | src/index.ts:486-517 | `makeChange(d)` changes no draft other than `d` and its ancestors |
| Drafts.ChangeUpFrame | src/index.ts:511-513 | the jump to the grandparent changes no draft below the parent other than the parent's ancestors |
| Drafts.ChangeBinds | src/index.ts:499-509 | after `makeChange(d)` returns normally, the parent's slot for `d`'s truthy key holds `d`'s copy; with a falsy key the parent's copy is unchanged |
| Drafts.ChangeSkips | src/index.ts:511-512 | the grandparent's copy is never written and only its `updated` flag may change: afterwards it is set exactly when it was set before, or the call returned normally and the grandparent is the root |
| Drafts.ChangeUp | src/index.ts:511-513 | the jump to the grandparent leaves the logs alone and ends with the root marked |
| Drafts.MethodOf | src/index.ts:113-301 | a closure is handed out exactly for the method names of the copy's kind, under its own name; everything else is inherited |
| Drafts.GetStep | src/index.ts:107-332 | a read changes only `d`'s copy and adds at most one draft; the logs are unchanged; every handle it returns is known |
| Drafts.Read | src/index.ts:112-331 | as `GetStep`, once the copy exists |
| Drafts.Spawn | src/index.ts:303-323 | exactly one new child record (parent `d`, key `k`, not updated, no copy) with its revocation queued; on success its original registered, its handle in `copy[k]`, other keys unchanged, a resolve action in front; a truthy primitive original throws |
| Drafts.Register | src/index.ts:417-478 | the new record is appended and its revocation queued first |
| Drafts.Attach | src/index.ts:305-315 | the handle is stored in `copy[k]`, the original registered and the resolve action queued |
| Drafts.Commit | src/index.ts:372-391 | the mutated draft gets its new copy, assigned keys and `updated`; on success the root is updated and each log gains its entry with `d`'s key prepended; the errors are named |
| Drafts.SetStep | src/index.ts:360-393 | the set trap keeps the invariant, never loses a draft, a copy or an `updated` flag, and returns true |
| Drafts.Assign | src/index.ts:364-392 | as `SetStep`, once the copy exists |
| Drafts.Overwrite | src/index.ts:372-392 | as `SetStep`, and no action is queued |
| Drafts.DeleteStep | src/index.ts:461-476 | the deleteProperty trap keeps the invariant, queues nothing and returns true |
| Drafts.SetKeys | src/index.ts:464 | only `d`'s assigned keys change |
| Drafts.Erase | src/index.ts:466-475 | as `DeleteStep`, once the copy exists |
| Drafts.Closure | src/index.ts:117-247 | every closure leaves `d` with the mutated copy and queues nothing |
| Drafts.PopStep | src/index.ts:117-130 | the copy loses its last element, which is returned |
| Drafts.PushStep | src/index.ts:131-147 | the arguments are appended; the new length is returned |
| Drafts.ReverseStep | src/index.ts:148-159 | the copy is reversed and returned |
| Drafts.ShiftStep | src/index.ts:160-173 | the copy loses its first element, which is returned |
| Drafts.UnshiftStep | src/index.ts:174-185 | the arguments are prepended; the new length is returned |
| Drafts.SpliceStep | src/index.ts:186-199 | the copy is spliced natively; the removed elements are returned |
| Drafts.AddStep | src/index.ts:208-220 | the Set copy gains the value; the copy is returned |
| Drafts.ClearStep | src/index.ts:221-236 | the Set copy is emptied; `undefined` is returned |
| Drafts.RemoveStep | src/index.ts:237-248 | the Set copy loses the value; whether it was a member is returned |
| Drafts.ActionStep | src/index.ts:315-322 | a thunk changes no `updated` flag, `original`, parent or key and never un-revokes; `Revoke(x)` always succeeds and revokes `x`; the other thunks revoke nothing |
| Drafts.Settle | src/index.ts:316-321 | a slot that holds no draft handle is left alone; `null` or a revoked handle throws a TypeError |
| Drafts.SlotOf | src/index.ts:316 | the slot refers only to known drafts |
| Drafts.Replace | src/index.ts:318-320 | the slot receives the child's copy or original, failing only on an invalid array `length`; unwrapping leaves the child with a copy |
| Drafts.Rewrite | src/index.ts:318 | only `p`'s copy changes, to the written one; it fails exactly on an invalid array `length` |
| Drafts.Spread | src/index.ts:347 | `getValue`'s `copy ??= { ...original }` gives the draft a copy and changes nothing else |
| Drafts.RunFrom | src/index.ts:521-523 | the loop keeps every draft's `updated`, `original`, parent and key, the logs and the actions, and never un-revokes |
| Drafts.RunFromEnd | src/index.ts:521-523 | with no thunk left the loop ends normally and changes nothing |
| Drafts.RunFromNext | src/index.ts:521-523 | one turn: a throwing thunk ends the loop with its exception, otherwise the rest of the loop follows |
| Drafts.FinalizeStep | src/index.ts:519-526 | the result is the root's original exactly when the root was not updated, and the root's copy `Copy(0)` otherwise |
| Drafts.Latest | src/index.ts:396-398 | `latest` is the copy when there is one, and otherwise the original's container; it is missing only for a primitive original without a copy |
| Drafts.HasStep | src/index.ts:431-433 | `k in latest(d)`: an own key or an intercepted method name; it throws exactly for a revoked handle or a primitive `latest` |
| Drafts.OwnKeysStep | src/index.ts:434-436 | exactly the own keys of `latest(d)` |
| Drafts.DescriptorStep | src/index.ts:437-447 | a descriptor exactly for an own key of `latest(d)`: writable, configurable, with that key's enumerability and value |
| Drafts.PrototypeStep | src/index.ts:448-450 | the prototype follows the original's kind, whatever the copy is: Array, Set, Map or Object exactly for an array, Set, Map or plain-record original; a primitive original throws |
| Drafts.RefusedStep | src/index.ts:451-460 | `setPrototypeOf` and `defineProperty` always throw, each its own error; a revoked handle throws a TypeError first |
| Engine.Engine.constructor | src/index.ts:542-557 | the engine starts in the `Created` store with the invariant |
| Engine.Engine.EnsureShallowCopy | src/index.ts:63-80 | updates the fields in place to exactly the `EnsureCopy` store |
| Engine.CopyKeys | src/index.ts:75-77 | the `forEach` copy loop yields exactly the source's key/value bindings |
| Engine.Engine.MakeChange | src/index.ts:486-517 | the in-place recursion ends in exactly the `ChangeStep` store and result |
| Engine.Engine.BindToParent | src/index.ts:491-510 | exactly the `Bind` store and result |
| Engine.Engine.Get | src/index.ts:107-332 | exactly the `GetStep` store and result |
| Engine.Engine.ReadCopy | src/index.ts:112-331 | exactly the `Read` store and result |
| Engine.Engine.CreateChild | src/index.ts:303-323 | exactly the `Spawn` store and result |
| Engine.Engine.Set | src/index.ts:360-393 | exactly the `SetStep` store and result |
| Engine.Engine.AssignValue | src/index.ts:364-392 | exactly the `Assign` store and result |
| Engine.Engine.WriteKey | src/index.ts:372-392 | exactly the `Overwrite` store and result |
| Engine.Engine.DeleteProperty | src/index.ts:461-476 | exactly the `DeleteStep` store and result |
| Engine.Engine.RemoveKey | src/index.ts:466-475 | exactly the `Erase` store and result |
| Engine.Engine.Conclude | src/index.ts:372-391 | exactly the `Commit` store and result |
| Engine.Engine.Intercept | src/index.ts:117-247 | exactly the `Closure` store and result |
| Engine.Engine.Pop | src/index.ts:117-130 | exactly the `PopStep` store and result |
| Engine.Engine.Push | src/index.ts:131-147 | exactly the `PushStep` store and result |
| Engine.Engine.Reverse | src/index.ts:148-159 | exactly the `ReverseStep` store and result |
| Engine.Engine.Shift | src/index.ts:160-173 | exactly the `ShiftStep` store and result |
| Engine.Engine.Unshift | src/index.ts:174-185 | exactly the `UnshiftStep` store and result |
| Engine.Engine.Splice | src/index.ts:186-199 | exactly the `SpliceStep` store and result |
| Engine.Engine.Add | src/index.ts:208-220 | exactly the `AddStep` store and result |
| Engine.Engine.Clear | src/index.ts:221-236 | exactly the `ClearStep` store and result |
| Engine.Engine.Delete | src/index.ts:237-248 | exactly the `RemoveStep` store and result |
| Engine.Engine.Finalize | src/index.ts:519-526 | exactly the `FinalizeStep` store and result |
| Engine.Engine.RunActions | src/index.ts:521-523 | the `for` loop over `finalities` ends in exactly the `RunFrom` store and result from the first thunk |
| Engine.Engine.Step | src/index.ts:521-523 | one turn of the loop: the thunk either ends the loop's outcome or leaves the rest of it to come |
| Engine.Engine.Perform | src/index.ts:315-322 | exactly the `ActionStep` store and result |
| Engine.Engine.SettleSlot | src/index.ts:316-321 | exactly the `Settle` store and result |
| Engine.Engine.ReplaceSlot | src/index.ts:318-320 | exactly the `Replace` store and result |
| Engine.Engine.StoreSlot | src/index.ts:318 | exactly the `Rewrite` store and result |
| Sessions.Calls | src/index.ts:113-250 | a closure call keeps the invariant and loses no draft, copy or `updated` flag |
| Sessions.CallsArray | src/index.ts:119-199 | as `Calls`, for the array closures |
| Sessions.CallsSet | src/index.ts:208-248 | as `Calls`, for the Set closures |
| Sessions.Exec | src/index.ts:428-477 | any callback operation keeps the invariant and loses no draft, copy or `updated` flag |
| Sessions.Script | src/index.ts:558 | the whole callback keeps the invariant and loses no draft, copy or `updated` flag |
| Sessions.ScriptNext | src/index.ts:558 | the callback runs its first operation and stops there unless it goes on |
| Sessions.Create | src/index.ts:535-565 | `create` with the engine object yields exactly the `Complete` result |
| Sessions.RunScript | src/index.ts:558 | the callback's operations through the engine end in exactly the `Script` store |
| Sessions.Execute | src/index.ts:428-477 | one operation through the engine ends in exactly the `Exec` store |
| Sessions.Call | src/index.ts:113-250 | exactly the `Calls` store |
| Sessions.CallArray | src/index.ts:119-199 | exactly the `CallsArray` store |
| Sessions.CallSet | src/index.ts:208-248 | exactly the `CallsSet` store |
| Properties.GetIdempotent | src/index.ts:303-331 | reading the same key twice gives the same answer and the second read changes nothing |
| Properties.ReadAfterSpawn | src/index.ts:303-323 | after a read created a child, reading again finds the same live handle |
| Properties.GetCreatesChild | src/index.ts:303-323 | a read returning a new handle created exactly one child of `d` at `k`, with `original[k]` as its original, its handle in `copy[k]`, the original registered and its resolve and revoke actions in front |
| Properties.GetSharesHandle | src/index.ts:324-329 | reaching an already registered original by any path returns its existing handle and changes nothing beyond the copy |
| Properties.NoMapClosure | src/index.ts:66-69 | the get trap hands out the closure named by the key, and never a Map closure |
| Properties.OverwriteEffect | src/index.ts:372-392 | `copy[k] = v` and the rest end in `SetDone` or a RangeError |
| Properties.AssignEffect | src/index.ts:364-392 | `null` and revoked handles throw a TypeError; a live handle queues its unwrap; otherwise as `OverwriteEffect` |
| Properties.SetEffect | src/index.ts:360-393 | a successful set leaves `v` at `k` in the copy, `k` assigned, `d` and the root updated, `Set [k] v` and its inverse logged under `d`'s key, and an unwrap action exactly for a draft handle |
| Properties.SetErrors | src/index.ts:360-393 | the set trap throws a TypeError exactly for a revoked handle, a `null`/`undefined` original without a copy, or a `null`/revoked value; every other failure is a RangeError |
| Properties.SetPatchPath | src/index.ts:376-391 | the forward entry is `Set` on `d`'s own key then `k`: at most two keys, however deep `d` is |
| Properties.EraseEffect | src/index.ts:466-475 | `delete copy[k]` ends in `DeleteDone`; deleting an array's `length` throws a TypeError, any other failure is a RangeError |
| Properties.DeleteEffect | src/index.ts:461-476 | a successful delete removes `k` from the copy and from `assigned`, marks `d` and the root updated, and logs `Delete [k]` and an inverse restoring the previous value |
| Properties.FirstDelete | src/index.ts:462-465 | the delete that first updates a draft starts it with no assigned keys |
| Properties.DeleteErrors | src/index.ts:461-476 | the deleteProperty trap throws a TypeError exactly for a revoked handle, a `null`/`undefined` original without a copy, or an array's `length`; every other failure is a RangeError |
| Properties.ClosureEffect | src/index.ts:117-247 | each closure leaves the mutated copy and `updated`; on success the root is updated and the entries are logged; the TypeErrors are exactly a missing `assigned` or an empty inverse log to prefix |
| Properties.SpliceRelabels | src/index.ts:186-199 | `splice` records no inverse, so `makeChange` prefixes the previous inverse entry, and throws exactly when there is none |
| Properties.RunRevokes | src/index.ts:521-523 | a loop that completes revokes every draft whose revocation is among its thunks |
| Properties.FinalizeRevokesAll | src/index.ts:519-526 | a finalisation that completes revokes every draft handle |
| Properties.SettleRebinds | src/index.ts:315-322 | a resolve leaves the child's copy in the slot if the child was updated and its original otherwise; an unwrap always leaves the copy |
| Guarantees.LoggedLength | src/index.ts:500-508 | recording grows a log by one only with patches enabled; prefixing never changes its length |
| Guarantees.ReadKeepsRoot | src/index.ts:107-332 | a read never marks the root nor touches the logs |
| Guarantees.ChangeMarksRoot | src/index.ts:486-517 | every mutation that returns normally marks the root and logs one forward entry and, unless it is `splice`, one inverse entry |
| Guarantees.CallMarksRoot | src/index.ts:117-247 | as `ChangeMarksRoot`, for the closures |
| Guarantees.ArrayMarksRoot | src/index.ts:117-199 | as `ChangeMarksRoot`, for the array closures |
| Guarantees.PopMarks | src/index.ts:117-130 | `pop` marks the root and logs both entries |
| Guarantees.PushMarks | src/index.ts:131-147 | `push` marks the root and logs both entries |
| Guarantees.ReverseMarks | src/index.ts:148-159 | `reverse` marks the root and logs both entries |
| Guarantees.ShiftMarks | src/index.ts:160-173 | `shift` marks the root and logs both entries |
| Guarantees.UnshiftMarks | src/index.ts:174-185 | `unshift` marks the root and logs both entries |
| Guarantees.SpliceMarks | src/index.ts:186-199 | `splice` marks the root and logs a forward entry only |
| Guarantees.SetMarksRoot | src/index.ts:208-248 | as `ChangeMarksRoot`, for the Set closures |
| Guarantees.AddMarks | src/index.ts:208-220 | Set `add` marks the root and logs both entries |
| Guarantees.ClearMarks | src/index.ts:221-236 | Set `clear` marks the root and logs both entries |
| Guarantees.RemoveMarks | src/index.ts:237-248 | Set `delete` marks the root and logs both entries |
| Guarantees.Closed | src/index.ts:117-247 | the shared closure tail marks the root and logs one forward entry, plus one inverse entry when there is one |
| Guarantees.ScriptCounts | src/index.ts:558 | through a callback that returns normally, the root is updated exactly when it already was or some operation mutated, with one forward entry per mutation and one inverse entry per mutation other than `splice` |
| Guarantees.SessionState | src/index.ts:519-526 | `create` returns the initial object itself exactly when the callback made no change, and the root's copy otherwise |
| Guarantees.SessionPatches | src/index.ts:535-565 | with patches enabled, `create` returns one forward entry per change and one inverse entry per change other than `splice`; without, both logs are `undefined` |

## Left out

- `Proxy.revocable` and the `PROXY_DRAFT` symbol are not modelled as such. A handle is a draft index `Proxy(d)`; revocation is a flag that the traps test first; `getProxyDraft` is `IsDraft`, which throws on `null` and on a revoked handle, as reading their member does.
- `proxiesMap` is an ordinary map from the caller's object ids to draft indices; WeakMap weakness and garbage collection are left out.
- `getDescriptor`'s prototype-chain walk and the fall-through to native members are left out (`Inherited`, and `Unsupported` in a session). This includes the native `sort`, `fill` and `copyWithin`. The property descriptor is synthesised as a record; `getPrototypeOf` answers one of four prototypes (Object, Array, Set, Map) by the original's kind.
- Drafts.HasStep: of the inherited members, only the intercepted method names are answered as present. Other prototype members (such as `toString`) are left out with the prototype chain.
- The Map closures are unreachable from `get`, because no copy is a Map. So they are modelled only by their recorded entries (`MapSetEntries`, `MapClearEntries`, `MapDeleteEntries`) and the inverse lemmas about them, not as engine methods.
- Writing or deleting a named property on an array, or any property on a Set, leaves the container unchanged. JavaScript objects would carry such properties beside their elements; the model has nowhere to put them.
- Array holes are modelled as `undefined`.
- Values.NewLength: a value written to an array's `length` is converted as `ToNumber` does for `null`, booleans, whole numbers and strings of decimal digits. Numbers are whole and unbounded, so a length of 2^32 or more is accepted where JavaScript throws a RangeError. Fractions cannot arise. A string with white space, a sign, an exponent, a fraction or a hex prefix, and an object (which JavaScript converts through `valueOf`/`toString`), throw in the model.
- Array indices are unbounded: an index of 2^32 − 1 or more is still an element, where JavaScript makes it a plain property.
- Keys are never symbols. The source's `typeof key === 'string'` tests (src/index.ts:116, 205, 254) always pass in the model. The set trap's `Number(key)` is never applied to a symbol, so the TypeError it throws on an array original (after the copy is written, `updated` is set and the forward entry is pushed) is not modelled.
- Values.Lookup: reads only own properties. The set and deleteProperty traps read the previous value through the prototype chain. So an inverse entry for an absent inherited member, such as `toString` or a Set's `size`, records that member in JavaScript but `undefined` in the model.
- `Number(key)` is modelled for index keys and the empty string only: keys are either indices or names, and a name that reads as a number is not parsed.
- Patches.SetClearInverse: the `Construct` entry holds the members at clear time, which is the empty set. The source stores the live iterator `state.values()` over the copy, so members added to the copy later are what a replay would rebuild. The model does not capture this aliasing.
- Patches.MapClearInverse: likewise, the entry holds the entries at clear time, not the live iterator `state.entries()` over the copy.
- Iteration order is left out: of Set and Map members, and of `Reflect.ownKeys` and `Object.keys`.
- The `mutate` callback is a fixed list of operations on draft handles, each addressing a draft by its index. An operation the model cannot express is `Unsupported`:
  - a handle the callback could not hold;
  - a value that refers to an unknown draft;
  - a non-intercepted native method;
  - `splice` with non-numeric arguments.
- A value holding a draft handle below its top level cannot be written: heap objects are built before the session and hold no handle or copy. The source unwraps only a handle assigned directly (src/index.ts:365), so `draft.b = { inner: draft.a }` would leave a revoked handle inside the finalized result. The model does not show this.
- Exceptions the callback catches are left out: the first exception ends the callback, as when it is not caught.
- Values are never functions; calling what a read found as an own value throws a TypeError.
- Object identity of returned containers is not modelled separately from draft identity: `Copy(d)` stands for the copy object of draft `d`.
- Proxy invariants that the host enforces on trap results are not modelled.
- Freezing and the `mutable` option are not modelled, because the source does not have them.
