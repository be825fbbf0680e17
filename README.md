# react-native-observable-list: the visibility engine, in Dafny

`observe(List)` wraps a React Native list so that every item can register
"became visible" callbacks through the `useInViewPort` hook. A callback runs
when its item's key enters the list's viewable set, and the cleanup it
returns runs when the key leaves it. Lists nest: an item of an outer list can
itself be an observed list, and a key counts as visible only when every
enclosing row is visible too. Each list can also be switched off
(`$$enabled = false`, inherited by nested lists).

The bookkeeping behind this is two refs per list:

- the **pending** map `callbacksMap`: key -> callbacks waiting for the key to
  become visible;
- the **active** map `cleansMap`: key -> callback -> what the callback
  returned when it ran.

Each ref is `undefined` until first used and again once emptied. A callback
moves from pending to active when it fires. It moves back when its key leaves
view and its cleanup runs.

The model has seven modules:

- `Values` (values.dfy): keys as JavaScript values, opaque callbacks and
  cleanups, and the view-token payload of the list's event.
- `Host` (host.dfy): the user code. Calling a callback returns whatever a
  fixed oracle `respond` assigns to it. Every call, cleanup run and forwarded
  event is appended to a ghost trace. `Appended(before, after, xs)` says that
  the trace grew by each element of `xs` exactly once, in any order.
- `Registry` (registry.dfy): the two refs as a value (`Ledger`, with
  `Option` standing for "`current` may be `undefined`"). Each operation of
  src/store.ts is a function here, and the per-key view `At(s, k)` gives the
  key's pending set and active map. Also here: the tidiness invariant (no
  empty inner set or map, no empty outer map) and the round-trip and
  exclusivity lemmas.
- `Store` (store.dfy): the class `Store` performing src/store.ts in place.
  Each method is specified by the Registry function it performs.
- `Visibility` (visibility.dfy): `isInViewPortRecursively` over an explicit
  finite chain of enclosing lists, and the `enabled` cascade.
- `Transitions` (transitions.dfy): what each handler inside `observe()` does
  to one list's refs, as functions. This includes per-key transition
  functions for a whole viewable-items event (`Transit`) and for the
  enable switch (`Toggled`).
- `Observe` (observe.dfy): the class `ObservableList` holding one list's
  state (viewable keys, both refs, the deferred-removal queue, the switch).
  Its methods are the handlers of src/observe.tsx, mutating that state in
  place, with JavaScript `forEach` loops as loops over a snapshot set. Every
  handler keeps `Valid()` and states its new state key by key through the
  Transitions functions. It also states exactly which calls and cleanups it
  made.

src/observe.tsx does not call src/store.ts. It repeats the same map code
inline, with a few differences that the model keeps:

- `addCallback` stores a cleanup only when it is truthy;
- the entry paths store the result of every callback, even `undefined`;
- the disable path never resets an emptied active map to `undefined`.

## Model

| member | source | states |
|---|---|---|
| Values.Truthy | src/observe.tsx:46 | a key is falsy exactly when it is `undefined`, `null`, `false`, `0` or the empty string |
| Values.KeyOf | src/observe.tsx:301-304 | an item's key is the key extractor's result when one is given and the item itself otherwise; that this rule makes the viewable-key set the event leaves behind equal `ShownKeys` is proved by `EnterAll` and `OnViewableItemsChanged`, and that a rendered row meets its own token under it is proved by `Transitions.RenderedRowEnters` |
| Host.Effects.Call | src/observe.tsx:163 | stands for every callback invocation (src/observe.tsx:89, 163, 248 and 315, and `callback()` in consumeCallbacks at src/store.ts:106): calling a callback returns the oracle's answer for it and appends exactly that call to the trace |
| Host.Effects.RunClean | src/observe.tsx:187-189 | running a cleanup appends exactly that run to the trace |
| Host.Effects.Forward | src/observe.tsx:382 | passing the event on appends it to the forwarded trace |
| Registry.Collapse | src/store.ts:50-52 | an outer map becomes `undefined` exactly when it is empty, and no entry is lost; that no ref keeps an empty map rests on `Drop` and the tidiness clauses |
| Registry.Drop | src/store.ts:40-43 | deleting a key keeps every other key with its value, adds none, and never leaves an empty map defined |
| Registry.WithCallback | src/store.ts:19-29 | the callback joins the key's pending set, the outer map and inner set are created as needed, no other key changes, and tidiness is kept |
| Registry.WithoutCallback | src/store.ts:31-45 | only that callback leaves the key's set; an absent map stays absent; tidiness is kept; removing an absent callback from a tidy map changes nothing |
| Registry.WithoutCallbacks | src/store.ts:47-53 | the key has nothing pending afterwards, every other key is unchanged, and tidiness is kept |
| Registry.WithClean | src/store.ts:55-70 | the key's active map maps the callback to the given result, overwriting and storing even no cleanup; other keys are unchanged; the result is tidy |
| Registry.WithoutClean | src/store.ts:72-82 | only that callback leaves the key's active map, with the same collapsing as removal from the pending side; removing an absent entry from a tidy map changes nothing |
| Registry.WithoutCleans | src/store.ts:84-90 | the key has nothing active afterwards, other keys are unchanged, and the result is tidy |
| Registry.WithCallbacks | src/store.ts:126-133 | the key's pending set grows by exactly the given callbacks and no other key changes |
| Registry.WithCleans | src/store.ts:105-108 | the key's active map is extended by exactly the given results and no other key changes |
| Registry.ConsumedCallbacks | src/store.ts:92-111 | the key's pending callbacks all become active with their results and none stays pending; other keys are unchanged; tidiness is kept; the registered set of the key is unchanged; no pair is on both sides |
| Registry.ConsumedCleans | src/store.ts:113-136 | the key's active callbacks all return to pending and the key leaves the active side; other keys are unchanged; tidiness is kept; the registered set is unchanged; no pair is on both sides |
| Registry.SlotsDetermine | src/store.ts:39-53 | because empty inner and outer collections never persist, two tidy registries holding the same for every key are equal |
| Registry.RetireUndoesFire | src/store.ts:105-110 | firing a key with nothing active and then giving its callbacks back restores its slot |
| Registry.ConsumeRoundTrip | src/store.ts:92-136 | `consumeCallbacks` then `consumeCleans` on a key with nothing active restores the whole registry |
| Registry.ConsumeKeepsExclusive | src/store.ts:105-110 | if no pair is both pending and active anywhere, that stays so after either move |
| Store.Store.constructor | src/store.ts:12-17 | both refs start undefined |
| Store.Store.AddCallback | src/store.ts:19-29 | performs `WithCallback` on the pending ref and leaves the active ref alone |
| Store.Store.RemoveCallback | src/store.ts:31-45 | performs `WithoutCallback` on the pending ref |
| Store.Store.RemoveCallbacks | src/store.ts:47-53 | performs `WithoutCallbacks` on the pending ref |
| Store.Store.AddClean | src/store.ts:55-70 | performs `WithClean` on the active ref |
| Store.Store.RemoveClean | src/store.ts:72-82 | performs `WithoutClean` on the active ref |
| Store.Store.RemoveCleans | src/store.ts:84-90 | performs `WithoutCleans` on the active ref |
| Store.Store.ConsumeCallbacks | src/store.ts:92-111 | the new registry is `ConsumedCallbacks` of the old one, and each pending callback of the key was called exactly once |
| Store.Store.FireAll | src/store.ts:105-108 | each callback of the set is called exactly once and its result is stored for the key |
| Store.Store.FireNext | src/store.ts:106-107 | loop body of `FireAll`: the callbacks done so far, extended by one, have each been called once and have their results stored |
| Store.Store.ConsumeCleans | src/store.ts:113-136 | the new registry is `ConsumedCleans` of the old one, and each stored cleanup that is a function ran exactly once |
| Store.Store.RetireAll | src/store.ts:126-133 | each stored cleanup that is a function runs exactly once and every callback of the map is pending again |
| Visibility.ParentInViewPort | src/observe.tsx:29-35 | the enclosing list's verdict is `undefined` exactly at the root, and otherwise says that every enclosing row is visible |
| Visibility.InViewPortRecursively | src/observe.tsx:74-84 | a key is visible exactly when it is viewable in this list and every enclosing row is viewable in its own list |
| Visibility.HiddenRowHidesNested | src/observe.tsx:74-84 | a hidden enclosing row hides every key of the lists inside it |
| Visibility.Enabled | src/observe.tsx:148-149 | a list is never on while its parent is off, is off when given `$$enabled = false`, and is on otherwise; the cascade over nested lists is `EnabledCascade` and `DisabledStaysDisabled` |
| Visibility.EnabledCascade | src/observe.tsx:148-149 | a list is on exactly when no list on its path from the root, itself included, was given `false` |
| Visibility.DisabledStaysDisabled | src/observe.tsx:276 | a list that is off keeps every list nested in it off |
| Transitions.AddedCallback | src/observe.tsx:86-114 | registering for an invisible key adds the callback to pending; for a visible key the callback's truthy cleanup becomes active, and a falsy one leaves everything as it was; other keys are unchanged; soundness is kept |
| Transitions.ForgottenWithoutCleanup | src/observe.tsx:88-100 | a callback registered while visible that returns no cleanup ends up on neither side |
| Transitions.ReregisteredWhilePending | src/observe.tsx:86-114 | a callback still pending for a visible key that is registered again fires and stays pending, so it sits on both sides |
| Transitions.Removed | src/observe.tsx:119-141 | one queued removal takes the callback off both sides of its key without running its cleanup; other keys are unchanged; soundness is kept |
| Transitions.ApplyRemovals | src/observe.tsx:374-380 | running the queue keeps soundness |
| Transitions.RemovalsPointwise | src/observe.tsx:374-380 | after the queue runs, each key has lost exactly the callbacks queued for it, whatever the order of the queue |
| Transitions.Entered | src/observe.tsx:311-337 | when the gate holds, the key's pending callbacks all become active with their results, otherwise nothing changes; other keys are unchanged; soundness is kept |
| Transitions.Exited | src/observe.tsx:348-371 | the key's active callbacks all return to pending and the key leaves the active ref, which is never left empty; other keys are unchanged |
| Transitions.GaveBack | src/observe.tsx:215-235 | the key's active callbacks all return to pending; other keys are unchanged; the active ref stays defined exactly when it was |
| Transitions.GaveBackLeavesEmptyMap | src/observe.tsx:232-235 | a concrete registry where disabling leaves the active ref an empty Map |
| Transitions.ToggleRefires | src/observe.tsx:213-268 | giving back then firing a slot calls every registered callback and leaves them all active |
| Transitions.EnterThenExit | src/observe.tsx:306-371 | entering then leaving a key with nothing active restores its slot |
| Transitions.CallsForStep | src/observe.tsx:243-267 | the calls owed by a set of keys grow, key by key, by exactly each new key's pending callbacks |
| Transitions.CleanupsForStep | src/observe.tsx:345-372 | the cleanups owed by a set of keys grow, key by key, by exactly each new key's stored cleanups |
| Transitions.RetireIdle | src/observe.tsx:348 | giving back a slot with nothing active changes nothing |
| Transitions.ShownKeysStep | src/observe.tsx:292-300 | each token adds its key to the viewable keys exactly when it is present and viewable |
| Transitions.RenderedRowEnters | src/observe.tsx:393-395 | a row rendered for item `x` registers under `KeyOf(x)`, the key the handler derives from a token carrying `x`; when an event first reports that token viewable, the key joins `ShownKeys`, and a callback the row registered while hidden becomes active when the list is on and every enclosing row is visible |
| Transitions.TransitKeepsRegistered | src/observe.tsx:283-383 | an event loses no callback and invents none; only the queued removals take callbacks away |
| Transitions.RepeatedEventSettles | src/observe.tsx:306-307 | reporting the same viewable keys again moves nothing |
| Transitions.DisableThenEnable | src/observe.tsx:211-271 | switching a visible list off and on again calls every registered callback of a viewable key afresh and leaves them all active |
| Transitions.EnableUnderHiddenRow | src/observe.tsx:243-259 | switching on while an enclosing row is hidden fires nothing |
| Observe.ObservableList.constructor | src/observe.tsx:63-71 | a mounted list has no viewable keys, both refs undefined and an empty queue |
| Observe.ObservableList.AddCallback | src/observe.tsx:86-114 | the new state is `AddedCallback` with the key's current visibility, and the callback was called exactly when visible |
| Observe.ObservableList.RemoveCallback | src/observe.tsx:118-146 | only the queue changes: the removal is appended at its end |
| Observe.ObservableList.UseInViewPort | src/observe.tsx:39-54 | registration happens exactly for a truthy key, the callback runs at once exactly when that key is visible, and the teardown is the removal of the same key and callback |
| Observe.ObservableList.RunRemoveTask | src/observe.tsx:119-141 | the new state is `Removed` of the old one |
| Observe.ObservableList.FlushRemoveCallbackTasks | src/observe.tsx:374-380 | the queued removals run first to last, giving `ApplyRemovals` of the old state, and the queue is emptied |
| Observe.ObservableList.ConsumePending | src/observe.tsx:311-337 | the new state is `Entered`, and each pending callback of the key was called exactly once when the gate held, none otherwise |
| Observe.ObservableList.FireEach | src/observe.tsx:312-331 | each callback of the key's pending set is called exactly once, its result stored, and the set is left empty |
| Observe.ObservableList.FireCallback | src/observe.tsx:313-329 | loop body of `FireEach`: one callback is called, its result stored and the callback deleted from the key's pending set |
| Observe.ObservableList.ReturnActive | src/observe.tsx:351-366 | each stored cleanup that is a function runs exactly once and every active callback of the key is pending again |
| Observe.ObservableList.StoreClean | src/observe.tsx:316-328 | performs `WithClean` on the active ref |
| Observe.ObservableList.PushPending | src/observe.tsx:357-365 | performs `WithCallback` on the pending ref |
| Observe.ObservableList.ExitKey | src/observe.tsx:348-371 | the new state is `Exited`, with each stored cleanup that is a function run exactly once |
| Observe.ObservableList.GiveBackKey | src/observe.tsx:215-235 | the new state is `GaveBack`, with each stored cleanup that is a function run exactly once |
| Observe.ObservableList.ReleaseKey | src/observe.tsx:183-206 | the new state is `ConsumedCleans`, with each stored cleanup that is a function run exactly once |
| Observe.ObservableList.GiveBackAll | src/observe.tsx:211-237 | every viewable key's slot is given back, every other slot is unchanged, and the cleanups run are exactly those owed by the viewable keys |
| Observe.ObservableList.OwnRowLeft | src/observe.tsx:182-208 | every viewable key's slot is given back, every other slot is unchanged, and the cleanups run are exactly those owed by the viewable keys |
| Observe.ObservableList.FireViewable | src/observe.tsx:239-269 | when the gate holds, every viewable key fires its pending callbacks and the calls made are exactly those owed; otherwise nothing changes and nothing is called |
| Observe.ObservableList.EnterAll | src/observe.tsx:290-343 | the viewable keys grow by the keys the event reports; only newly reported keys fire, and only when the list is on and visible through every enclosing row; the calls made are exactly those owed; the returned keys are those no longer reported |
| Observe.ObservableList.EnterNew | src/observe.tsx:306-339 | loop body of `EnterAll`: a newly reported key joins the viewable keys and, when the list is on and visible, fires its pending callbacks; the calls owed so far grow by exactly that key's |
| Observe.ObservableList.ExitAll | src/observe.tsx:345-372 | the given keys leave the viewable keys; when the list is on, each gives its active callbacks back and the cleanups run are exactly those owed; when off, nothing else changes |
| Observe.ObservableList.HideKey | src/observe.tsx:346-371 | one key leaves the viewable keys and, when the list is on, gives its active callbacks back, running each function cleanup once |
| Observe.ObservableList.HideNext | src/observe.tsx:345-372 | loop body of `ExitAll`: the keys hidden so far, extended by one, are given back and owe exactly their cleanups |
| Observe.ObservableList.OnViewableItemsChanged | src/observe.tsx:283-383 | the viewable keys become exactly the reported keys; each slot makes its `Transit` and then loses the callbacks queued for removal; the queue is emptied; the calls and cleanups made are exactly those owed by the entered and the departed keys; the event is forwarded exactly when a handler was given |
| Observe.ObservableList.SetEnabled | src/observe.tsx:211-271 | the switch becomes `Enabled(parent, own)`; every slot makes its `Toggled` transition; calls happen only when switching on and cleanups only when switching off, exactly those owed by the viewable keys |
| Observe.ObservableList.OwnRowEntered | src/observe.tsx:156-180 | when the list is on, every viewable key fires its pending callbacks with no visibility gate and a cleanup is handed back; when off, nothing happens |

Two behaviours of src/observe.tsx follow from the model and are reproduced
as written:

- Pending and active are not kept disjoint inside `observe()`. `addCallback`
  (src/observe.tsx:86-114) does not look at the switch. A disabled list gives
  a visible key's callbacks back to pending. Registering one of them again
  fires it and stores its cleanup, and it also stays pending
  (`Transitions.ReregisteredWhilePending`). `Registry.ConsumeKeepsExclusive`
  is a property of src/store.ts only.
- A deferred removal (src/observe.tsx:119-141) deletes a stored cleanup
  without running it (`Transitions.Removed`).

## Left out

- React itself is not modelled: contexts, refs, effect scheduling, `forwardRef`, the context provider the `renderItem` wrapper installs and the prop typings. The key that wrapper gives a row is modelled by `KeyOf` (`Transitions.RenderedRowEnters`). Each handler is a method that runs when React would run it. The enclosing lists are a parameter (`ancestors`) of every method that consults them. The parent's switch is a parameter of `SetEnabled`.
- The `enabledRef` copy (src/observe.tsx:150-153) is not modelled. The switch is a single field that `SetEnabled` updates at once.
- How a nested list's own-row callback is registered in, and removed from, its parent list is not modelled. That wiring spans two list objects. `OwnRowEntered` and `OwnRowLeft` model what the callback and its cleanup do to the nested list.
- Effects re-running on unmount are not modelled. This includes the re-enable cleanup that also runs when a disabled list unmounts.
- Re-entrant callbacks and exceptions thrown by callbacks or cleanups are not modelled. A callback's result is fixed per callback by the oracle, not per call.
- The iteration order of JavaScript Sets and Maps is not modelled. Loops pick any remaining element. Contracts state what happens, not in which order, except for the order of the removal queue.
- `Observe.ObservableList.EnterNew`: the source evaluates `isInViewPortRecursively` once per pending callback, and the model evaluates it once per key. Nothing changes visibility in between, so the result is the same.
- `Observe.ObservableList.ConsumePending`: when the gate is false, the source still iterates over the callbacks and changes nothing; the model returns early.
- Keys are modelled as integers, strings, booleans, `null`, `undefined` and objects by identity. Floating-point keys, NaN, `-0`, BigInt keys (`0n` is falsy at src/observe.tsx:46) and Symbol keys are not modelled; `Values.Value` has no case for BigInt or Symbol.
- A removal queue that is `undefined` and one that is empty are both the empty sequence.
- First-item tracking (`useIsFirst`) is not modelled; src/observe.tsx does not define it.
- src/utils.ts, src/types.ts, src/index.tsx and the example app are not part of this model.
