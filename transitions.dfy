/**
 * What the code inside `observe()` (src/observe.tsx) does to one list's two
 * refs, as functions of their value. src/observe.tsx does not use
 * src/store.ts: it repeats the same map code inline, with small differences
 * in how each copy tidies up afterwards, and each copy is given its own
 * function here. The class in observe.dfy performs them in place.
 */
module Transitions {
  import opened Values
  import opened Registry

  /** What the refs of `observe()` always satisfy: no empty pending set and
      no undefined-worthy empty pending map, and no empty active map for a
      key. The active ref itself may be an empty Map: disabling a list
      deletes keys from it without resetting it to `undefined`. */
  predicate Sound(s: Ledger)
  {
    TidyCallbacks(s.callbacksMap) && TidyCleanEntries(s.cleansMap)
  }

  /** A key's slot with the callbacks `cbs` gone from both sides. */
  function Strip(slot: Slot, cbs: set<Callback>): Slot
  {
    Slot(slot.pending - cbs, slot.active - cbs)
  }

  // ---------------------------------------------------------------------
  // addCallback (src/observe.tsx:86-114).
  // ---------------------------------------------------------------------

  /** Registration: a callback for a key that is visible right now is called
      at once and kept, as active, only when it returned a cleanup; any other
      callback waits among the pending ones. */
  function AddedCallback(s: Ledger, k: Key, cb: Callback, visible: bool, respond: Callback -> Option<Clean>): (t: Ledger)
    ensures !visible ==> At(t, k) == Slot(At(s, k).pending + {cb}, At(s, k).active)
    ensures visible && respond(cb).Some? ==> At(t, k) == Slot(At(s, k).pending, At(s, k).active[cb := respond(cb)])
    ensures visible && respond(cb).None? ==> t == s
    ensures forall j :: j != k ==> At(t, j) == At(s, j)
    ensures Sound(s) ==> Sound(t)
  {
    if visible then
      var clean := respond(cb);
      if clean.Some? then Ledger(s.callbacksMap, WithClean(s.cleansMap, k, cb, clean)) else s
    else Ledger(WithCallback(s.callbacksMap, k, cb), s.cleansMap)
  }

  /** A callback registered while its key is visible that returns no cleanup
      is kept nowhere: it will not fire again when the key comes back into
      view (unlike one that fired on entry, lines 328 and 257). */
  lemma ForgottenWithoutCleanup(s: Ledger, k: Key, cb: Callback, respond: Callback -> Option<Clean>)
    requires cb !in Registered(At(s, k)) && respond(cb).None?
    ensures cb !in Registered(At(AddedCallback(s, k, cb, true, respond), k))
  {
  }

  /** `addCallback` does not consult the switch: once a disabled list has
      given a visible key's callbacks back, registering one of them again
      fires it and stores its cleanup while it also stays pending, so the
      pending and active sides of that key are no longer disjoint. */
  lemma ReregisteredWhilePending(s: Ledger, k: Key, cb: Callback, respond: Callback -> Option<Clean>)
    requires cb in At(s, k).pending && respond(cb).Some?
    ensures var slot := At(AddedCallback(s, k, cb, true, respond), k);
            cb in slot.pending && cb in slot.active
  {
  }

  // ---------------------------------------------------------------------
  // The deferred removeCallback tasks (src/observe.tsx:118-146, 374-380).
  // ---------------------------------------------------------------------

  /** One queued `removeCallback(itemKey, callback)`. */
  datatype RemoveTask = RemoveTask(itemKey: Key, callback: Callback)

  /** Running one task: the callback leaves both sides of its key, each side
      collapsing as it empties; its cleanup, if any, is not run. */
  function Removed(s: Ledger, task: RemoveTask): (t: Ledger)
    ensures At(t, task.itemKey) == Strip(At(s, task.itemKey), {task.callback})
    ensures forall j :: j != task.itemKey ==> At(t, j) == At(s, j)
    ensures Sound(s) ==> Sound(t)
  {
    Ledger(WithoutCallback(s.callbacksMap, task.itemKey, task.callback),
           WithoutClean(s.cleansMap, task.itemKey, task.callback))
  }

  /** Running a queue of tasks from the first to the last. */
  function ApplyRemovals(s: Ledger, tasks: seq<RemoveTask>): (t: Ledger)
    ensures Sound(s) ==> Sound(t)
    decreases |tasks|
  {
    if tasks == [] then s
    else Removed(ApplyRemovals(s, tasks[..|tasks| - 1]), tasks[|tasks| - 1])
  }

  /** The callbacks the queue removes from key `k`. */
  function RemovedFor(tasks: seq<RemoveTask>, k: Key): set<Callback>
  {
    set i | 0 <= i < |tasks| && tasks[i].itemKey == k :: tasks[i].callback
  }

  lemma RemovedForStep(tasks: seq<RemoveTask>, k: Key)
    requires tasks != []
    ensures var last := tasks[|tasks| - 1];
            RemovedFor(tasks, k)
              == RemovedFor(tasks[..|tasks| - 1], k) + (if last.itemKey == k then {last.callback} else {})
  {
  }

  lemma StripTwice(slot: Slot, a: set<Callback>, b: set<Callback>)
    ensures Strip(Strip(slot, a), b) == Strip(slot, a + b)
  {
  }

  /** Each key ends up without exactly the callbacks queued for it, so the
      order of the queue does not matter. */
  lemma {:induction false} RemovalsPointwise(s: Ledger, tasks: seq<RemoveTask>, k: Key)
    ensures At(ApplyRemovals(s, tasks), k) == Strip(At(s, k), RemovedFor(tasks, k))
    decreases |tasks|
  {
    if tasks == [] {
      assert RemovedFor(tasks, k) == {};
      assert Strip(At(s, k), {}).active == At(s, k).active;
    } else {
      var init := tasks[..|tasks| - 1];
      var last := tasks[|tasks| - 1];
      RemovalsPointwise(s, init, k);
      RemovedForStep(tasks, k);
      if last.itemKey == k {
        StripTwice(At(s, k), RemovedFor(init, k), {last.callback});
      }
    }
  }

  // ---------------------------------------------------------------------
  // Moving one key's callbacks between the two refs.
  // ---------------------------------------------------------------------

  /** The entry path (lines 311-337), the re-enable path (lines 244-266) and
      the own-row entry (lines 160-179): when the gate holds, every pending
      callback of `k` is called and becomes active with what it returned;
      otherwise nothing moves. */
  function Entered(s: Ledger, k: Key, gate: bool, respond: Callback -> Option<Clean>): (t: Ledger)
    ensures At(t, k) == (if gate then Fire(At(s, k), respond) else At(s, k))
    ensures forall j :: j != k ==> At(t, j) == At(s, j)
    ensures Sound(s) ==> Sound(t)
  {
    if gate then ConsumedCallbacks(s, k, respond) else s
  }

  /** The exit path (lines 349-369), run only while the active ref is
      defined: every active callback of `k` is pending again, `k` leaves the
      active ref and an emptied active ref becomes undefined. */
  function Exited(s: Ledger, k: Key): (t: Ledger)
    requires s.cleansMap.Some?
    ensures At(t, k) == Retire(At(s, k))
    ensures forall j :: j != k ==> At(t, j) == At(s, j)
    ensures Sound(s) ==> Sound(t)
    ensures t.cleansMap != Some(map[])
  {
    Ledger(WithCallbacks(s.callbacksMap, k, CleansAt(s.cleansMap, k).Keys), Drop(s.cleansMap.value, k))
  }

  /** The disable path (lines 216-235): every active callback of `k` is
      pending again and `k` leaves the active ref, which is never reset to
      undefined there (line 233 tests the pending ref's size instead). */
  function GaveBack(s: Ledger, k: Key): (t: Ledger)
    ensures At(t, k) == Retire(At(s, k))
    ensures forall j :: j != k ==> At(t, j) == At(s, j)
    ensures Sound(s) ==> Sound(t)
    ensures t.cleansMap.Some? <==> s.cleansMap.Some?
  {
    var callbacks := WithCallbacks(s.callbacksMap, k, CleansAt(s.cleansMap, k).Keys);
    Ledger(if callbacks == Some(map[]) then None else callbacks,
           if s.cleansMap.Some? then Some(s.cleansMap.value - {k}) else None)
  }

  /** Disabling can leave the active ref an empty Map where every other path
      would have made it undefined. */
  lemma GaveBackLeavesEmptyMap(k: Key, cb: Callback)
    ensures var s := Ledger(None, Some(map[k := map[cb := None]]));
            Sound(s) && GaveBack(s, k) == Ledger(Some(map[k := {cb}]), Some(map[]))
  {
    var s := Ledger(None, Some(map[k := map[cb := None]]));
    assert s.cleansMap.value - {k} == map[];
    assert CleansAt(s.cleansMap, k).Keys == {cb};
    assert WithCallbacks(None, k, {cb}) == Some(map[k := {cb}]) by {
      assert CallbacksAt(None, k) + {cb} == {cb};
      assert Entries<set<Callback>>(None) == map[];
    }
  }

  // ---------------------------------------------------------------------
  // Slot-level consequences.
  // ---------------------------------------------------------------------

  /** Disabling and then re-enabling a visible key calls every callback
      registered for it afresh, and leaves all of them active. */
  lemma ToggleRefires(slot: Slot, respond: Callback -> Option<Clean>)
    ensures Fire(Retire(slot), respond) == Slot({}, Responses(Registered(slot), respond))
  {
  }

  /** Entering and then leaving a key with nothing active gives back the
      slot it started from. */
  lemma EnterThenExit(s: Ledger, k: Key, respond: Callback -> Option<Clean>)
    requires CleansAt(s.cleansMap, k) == map[]
    ensures var t := Entered(s, k, true, respond);
            t.cleansMap.Some? ==> At(Exited(t, k), k) == At(s, k)
  {
  }

  // ---------------------------------------------------------------------
  // Effects owed by a whole set of keys.
  // ---------------------------------------------------------------------

  /** The calls owed when the pending callbacks of all `keys` fire. */
  function CallsFor(s: Ledger, keys: set<Key>): set<(Key, Callback)>
  {
    set k, cb | k in keys && cb in CallbacksAt(s.callbacksMap, k) :: (k, cb)
  }

  /** The cleanups owed when the active callbacks of all `keys` go back. */
  function CleanupsFor(s: Ledger, keys: set<Key>): set<(Key, Callback, Clean)>
  {
    set k, cb | k in keys && cb in CleansAt(s.cleansMap, k) && CleansAt(s.cleansMap, k)[cb].Some?
      :: (k, cb, CleansAt(s.cleansMap, k)[cb].value)
  }

  lemma CallsForStep(s: Ledger, keys: set<Key>, k: Key)
    requires k !in keys
    ensures var cbs := CallbacksAt(s.callbacksMap, k);
            CallsFor(s, keys) !! Invocations(k, cbs)
            && CallsFor(s, keys + {k}) == CallsFor(s, keys) + Invocations(k, cbs)
  {
  }

  lemma CleanupsForStep(s: Ledger, keys: set<Key>, k: Key)
    requires k !in keys
    ensures var cleans := CleansAt(s.cleansMap, k);
            CleanupsFor(s, keys) !! CleanupsDue(k, cleans, cleans.Keys)
            && CleanupsFor(s, keys + {k}) == CleanupsFor(s, keys) + CleanupsDue(k, cleans, cleans.Keys)
  {
  }

  /** The active callbacks of keys that agree on their active side owe the
      same cleanups. */
  lemma CleanupsForFrame(s: Ledger, t: Ledger, keys: set<Key>)
    requires forall k :: k in keys ==> CleansAt(s.cleansMap, k) == CleansAt(t.cleansMap, k)
    ensures CleanupsFor(s, keys) == CleanupsFor(t, keys)
  {
  }

  /** Giving back a slot with nothing active changes nothing: an exit that
      finds the active ref undefined (line 348) loses nothing. */
  lemma RetireIdle(slot: Slot)
    requires slot.active == map[]
    ensures Retire(slot) == slot
  {
  }

  // ---------------------------------------------------------------------
  // One viewable-items event (lines 283-383).
  // ---------------------------------------------------------------------

  /** The keys of the tokens an event reports viewable: null tokens and
      tokens with `isViewable` false count for nothing. */
  function ShownKeys(items: seq<Option<ViewToken>>, keyExtractor: Option<Value -> Value>): set<Key>
  {
    set i | 0 <= i < |items| && items[i].Some? && items[i].value.isViewable :: KeyOf(items[i].value.item, keyExtractor)
  }

  lemma ShownKeysStep(items: seq<Option<ViewToken>>, keyExtractor: Option<Value -> Value>, i: nat)
    requires i < |items|
    ensures var token := items[i];
            ShownKeys(items[..i + 1], keyExtractor)
              == ShownKeys(items[..i], keyExtractor)
                 + (if token.Some? && token.value.isViewable then {KeyOf(token.value.item, keyExtractor)} else {})
  {
  }

  /** The slot of `k` after an event that changes the viewable keys from
      `before` to `after`, before the queued removals run: a key that became
      viewable fires when the list is on and every enclosing row is
      visible; a key that stopped being viewable gives its active callbacks
      back when the list is on; any other key is untouched. */
  function Transit(slot: Slot, k: Key, before: set<Key>, after: set<Key>, on: bool, rowsVisible: bool,
                   respond: Callback -> Option<Clean>): Slot
  {
    if k in after && k !in before && on && rowsVisible then Fire(slot, respond)
    else if k in before && k !in after && on then Retire(slot)
    else slot
  }

  /** A row rendered for item `x` gets the key `KeyOf(x, keyExtractor)`
      (lines 393-395), the same key the event handler derives from a token
      carrying `x` (lines 301-304). So when an event first reports that token
      viewable, the row's key joins the viewable keys, and a callback the row
      registered under it while hidden becomes active once the list is on
      and every enclosing row is visible. */
  lemma {:induction false} RenderedRowEnters(s: Ledger, items: seq<Option<ViewToken>>, keyExtractor: Option<Value -> Value>,
                                             i: nat, x: Value, cb: Callback, before: set<Key>,
                                             respond: Callback -> Option<Clean>)
    requires i < |items| && items[i] == Some(ViewToken(x, true))
    requires KeyOf(x, keyExtractor) !in before
    ensures var rowKey := KeyOf(x, keyExtractor);
            var after := ShownKeys(items, keyExtractor);
            rowKey in after
            && cb in Transit(At(AddedCallback(s, rowKey, cb, false, respond), rowKey), rowKey,
                             before, after, true, true, respond).active
  {
    var rowKey := KeyOf(x, keyExtractor);
    var after := ShownKeys(items, keyExtractor);
    assert rowKey in after by {
      assert items[i].Some? && items[i].value.isViewable && KeyOf(items[i].value.item, keyExtractor) == rowKey;
    }
    var slot := At(AddedCallback(s, rowKey, cb, false, respond), rowKey);
    assert cb in slot.pending;
    assert cb in Responses(slot.pending, respond);
  }

  /** An event moves callbacks between the two sides but loses none and
      invents none; only the queued removals take callbacks away. */
  lemma TransitKeepsRegistered(slot: Slot, k: Key, before: set<Key>, after: set<Key>, on: bool, rowsVisible: bool,
                               respond: Callback -> Option<Clean>, removed: set<Callback>)
    ensures Registered(Strip(Transit(slot, k, before, after, on, rowsVisible, respond), removed))
         == Registered(slot) - removed
  {
  }

  /** Reporting the same viewable keys again moves nothing. */
  lemma RepeatedEventSettles(slot: Slot, k: Key, before: set<Key>, after: set<Key>, on: bool, rowsVisible: bool,
                             respond: Callback -> Option<Clean>)
    ensures var t := Transit(slot, k, before, after, on, rowsVisible, respond);
            Transit(t, k, after, after, on, rowsVisible, respond) == t
  {
  }

  // ---------------------------------------------------------------------
  // The enable/disable effects (lines 148-153, 211-271).
  // ---------------------------------------------------------------------

  /** The slot of `k` after the switch goes from `was` to `now`: switching
      off gives back the active callbacks of a viewable key; switching on
      fires the pending callbacks of a viewable key that is visible through
      every enclosing row; anything else is untouched. */
  function Toggled(slot: Slot, viewable: bool, was: bool, now: bool, rowsVisible: bool,
                   respond: Callback -> Option<Clean>): Slot
  {
    if viewable && was && !now then Retire(slot)
    else if viewable && !was && now && rowsVisible then Fire(slot, respond)
    else slot
  }

  /** Switching a visible list off and on again calls every callback
      registered for a viewable key afresh and leaves all of them active. */
  lemma DisableThenEnable(slot: Slot, rowsVisible: bool, respond: Callback -> Option<Clean>)
    requires rowsVisible
    ensures Toggled(Toggled(slot, true, true, false, rowsVisible, respond), true, false, true, rowsVisible, respond)
         == Slot({}, Responses(Registered(slot), respond))
  {
  }

  /** Switching on when some enclosing row is hidden fires nothing: the
      callbacks wait until the row enters view. */
  lemma EnableUnderHiddenRow(slot: Slot, viewable: bool, respond: Callback -> Option<Clean>)
    ensures Toggled(slot, viewable, false, true, false, respond) == slot
  {
  }
}
