/**
 * The state `observe()` (src/observe.tsx) keeps for one list, and every
 * handler that changes it in place: registration and deferred removal,
 * the viewable-items event, the enable/disable effects and the effect that
 * reacts to the list's own row entering or leaving its parent list.
 *
 * The enclosing lists are read, never written: every operation that
 * consults them takes the chain `ancestors` as it stands at that moment.
 */
module Observe {
  import opened Values
  import opened Registry
  import opened Host
  import opened Visibility
  import opened Transitions

  class ObservableList {
    /** `viewableKeys`: the keys the list last reported viewable. */
    var viewableKeys: set<Key>
    /** `callbacksMap.current` */
    var callbacksMap: Option<Pending>
    /** `cleansMap.current` */
    var cleansMap: Option<Active>
    /** `removeCallbackTasks.current`, undefined and empty alike. */
    var removeCallbackTasks: seq<RemoveTask>
    /** `enabledRef.current` */
    var enabled: bool

    /** A freshly mounted list: nothing viewable, both refs undefined. */
    constructor (enabled: bool)
      ensures viewableKeys == {} && callbacksMap == None && cleansMap == None
      ensures removeCallbackTasks == [] && this.enabled == enabled
    {
      viewableKeys, callbacksMap, cleansMap := {}, None, None;
      removeCallbackTasks := [];
      this.enabled := enabled;
    }

    function Contents(): Ledger
      reads this
    {
      Ledger(callbacksMap, cleansMap)
    }

    predicate Valid()
      reads this
    {
      Sound(Contents())
    }

    // -------------------------------------------------------------------
    // Registration (lines 86-146) and the `useInViewPort` hook (39-54).
    // -------------------------------------------------------------------

    /** `addCallback(itemKey, callback)`: a callback for a key visible right
        now is called at once; otherwise it waits among the pending ones.
        The `enabled` switch is not consulted. */
    method AddCallback(itemKey: Key, callback: Callback, ancestors: seq<Frame>, fx: Effects)
      modifies this, fx
      ensures var visible := itemKey in old(viewableKeys) && RowsVisible(ancestors);
              Contents() == AddedCallback(old(Contents()), itemKey, callback, visible, fx.respond)
              && fx.calls == old(fx.calls) + (if visible then [(itemKey, callback)] else [])
      ensures viewableKeys == old(viewableKeys) && enabled == old(enabled)
      ensures removeCallbackTasks == old(removeCallbackTasks)
      ensures fx.cleanups == old(fx.cleanups) && fx.forwarded == old(fx.forwarded)
    {
      if InViewPortRecursively(viewableKeys, ancestors, itemKey) {
        var clean := fx.Call(itemKey, callback);
        if clean.Some? {
          if cleansMap.None? {
            cleansMap := Some(map[]);
          }
          var cleansWithCallback := if itemKey in cleansMap.value then cleansMap.value[itemKey] else map[];
          cleansMap := Some(cleansMap.value[itemKey := cleansWithCallback[callback := clean]]);
        }
      } else {
        if callbacksMap.None? {
          callbacksMap := Some(map[]);
        }
        var callbacks := if itemKey in callbacksMap.value then callbacksMap.value[itemKey] else {};
        callbacksMap := Some(callbacksMap.value[itemKey := callbacks + {callback}]);
      }
    }

    /** `removeCallback(itemKey, callback)`: nothing changes now; the removal
        is queued behind the earlier ones. */
    method RemoveCallback(itemKey: Key, callback: Callback)
      modifies this
      ensures removeCallbackTasks == old(removeCallbackTasks) + [RemoveTask(itemKey, callback)]
      ensures Contents() == old(Contents()) && viewableKeys == old(viewableKeys) && enabled == old(enabled)
    {
      removeCallbackTasks := removeCallbackTasks + [RemoveTask(itemKey, callback)];
    }

    /** `useInViewPort(callback)` rendered under an item whose key is
        `itemKey`: registers only for a truthy key, and hands back the
        removal its teardown requests. */
    method UseInViewPort(itemKey: Key, callback: Callback, ancestors: seq<Frame>, fx: Effects)
      returns (teardown: Option<RemoveTask>)
      modifies this, fx
      ensures teardown.Some? <==> Truthy(itemKey)
      ensures teardown.Some? ==> teardown.value == RemoveTask(itemKey, callback)
      ensures var visible := itemKey in old(viewableKeys) && RowsVisible(ancestors);
              Contents() == (if Truthy(itemKey) then AddedCallback(old(Contents()), itemKey, callback, visible, fx.respond)
                             else old(Contents()))
      ensures var visible := itemKey in old(viewableKeys) && RowsVisible(ancestors);
              fx.calls == old(fx.calls) + (if Truthy(itemKey) && visible then [(itemKey, callback)] else [])
      ensures viewableKeys == old(viewableKeys) && enabled == old(enabled)
      ensures removeCallbackTasks == old(removeCallbackTasks)
      ensures fx.cleanups == old(fx.cleanups) && fx.forwarded == old(fx.forwarded)
    {
      if !Truthy(itemKey) {
        return None;
      }
      AddCallback(itemKey, callback, ancestors, fx);
      teardown := Some(RemoveTask(itemKey, callback));
    }

    /** One queued task (lines 119-141). */
    method RunRemoveTask(task: RemoveTask)
      modifies this
      ensures Contents() == Removed(old(Contents()), task)
      ensures viewableKeys == old(viewableKeys) && enabled == old(enabled)
      ensures removeCallbackTasks == old(removeCallbackTasks)
    {
      var itemKey, callback := task.itemKey, task.callback;
      if callbacksMap.Some? && itemKey in callbacksMap.value {
        var callbacks := callbacksMap.value[itemKey] - {callback};
        if callbacks == {} {
          callbacksMap := Some(callbacksMap.value - {itemKey});
          if callbacksMap.value == map[] {
            callbacksMap := None;
          }
        } else {
          callbacksMap := Some(callbacksMap.value[itemKey := callbacks]);
        }
      }
      if cleansMap.Some? && itemKey in cleansMap.value {
        var cleansWithCallback := cleansMap.value[itemKey] - {callback};
        if cleansWithCallback == map[] {
          cleansMap := Some(cleansMap.value - {itemKey});
          if cleansMap.value == map[] {
            cleansMap := None;
          }
        } else {
          cleansMap := Some(cleansMap.value[itemKey := cleansWithCallback]);
        }
      }
    }

    /** The flush at the end of an event (lines 375-380): every queued task
        runs, first queued first, and the queue is emptied. */
    method FlushRemoveCallbackTasks()
      modifies this
      ensures Contents() == ApplyRemovals(old(Contents()), old(removeCallbackTasks))
      ensures removeCallbackTasks == []
      ensures viewableKeys == old(viewableKeys) && enabled == old(enabled)
    {
      var i := 0;
      while i < |removeCallbackTasks|
        invariant 0 <= i <= |removeCallbackTasks|
        invariant removeCallbackTasks == old(removeCallbackTasks)
        invariant viewableKeys == old(viewableKeys) && enabled == old(enabled)
        invariant Contents() == ApplyRemovals(old(Contents()), removeCallbackTasks[..i])
      {
        assert removeCallbackTasks[..i + 1][..i] == removeCallbackTasks[..i];
        RunRemoveTask(removeCallbackTasks[i]);
        i := i + 1;
      }
      assert removeCallbackTasks[..i] == removeCallbackTasks;
      removeCallbackTasks := [];
    }

    // -------------------------------------------------------------------
    // Moving one key's callbacks.
    // -------------------------------------------------------------------

    /** The pending callbacks of `itemKey`, each called when `inViewPort`
        holds (lines 311-337, 244-266, 160-179): a called callback is
        recorded with its result, even none, and leaves the pending set; the
        key leaves the pending ref once its set is empty. */
    method ConsumePending(itemKey: Key, inViewPort: bool, fx: Effects)
      requires Valid()
      modifies this, fx
      ensures Contents() == Entered(old(Contents()), itemKey, inViewPort, fx.respond)
      ensures Appended(old(fx.calls), fx.calls,
                       if inViewPort then Invocations(itemKey, CallbacksAt(old(callbacksMap), itemKey)) else {})
      ensures viewableKeys == old(viewableKeys) && enabled == old(enabled)
      ensures removeCallbackTasks == old(removeCallbackTasks)
      ensures fx.cleanups == old(fx.cleanups) && fx.forwarded == old(fx.forwarded)
    {
      if callbacksMap.None? || itemKey !in callbacksMap.value {
        AppendedIntro(fx.calls, [], {});
        return;
      }
      if !inViewPort {
        AppendedIntro(fx.calls, [], {});
        return;
      }
      var callbacks := callbacksMap.value[itemKey];
      ghost var pending := callbacksMap.value;
      FireEach(itemKey, callbacks, fx);
      if callbacksMap.value[itemKey] == {} {
        assert callbacksMap.value - {itemKey} == pending - {itemKey};
        callbacksMap := Some(callbacksMap.value - {itemKey});
        if callbacksMap.value == map[] {
          callbacksMap := None;
        }
      }
    }

    /** The pending `forEach` of a visible key: each callback is called once,
        its result recorded, and it leaves the (shared, mutated) pending set. */
    method FireEach(itemKey: Key, callbacks: set<Callback>, fx: Effects)
      requires callbacksMap.Some? && itemKey in callbacksMap.value && callbacksMap.value[itemKey] == callbacks
      modifies this, fx
      ensures callbacksMap == Some(old(callbacksMap).value[itemKey := {}])
      ensures cleansMap == WithCleans(old(cleansMap), itemKey, Responses(callbacks, fx.respond))
      ensures Appended(old(fx.calls), fx.calls, Invocations(itemKey, callbacks))
      ensures viewableKeys == old(viewableKeys) && enabled == old(enabled)
      ensures removeCallbackTasks == old(removeCallbackTasks)
      ensures fx.cleanups == old(fx.cleanups) && fx.forwarded == old(fx.forwarded)
    {
      ghost var pending := callbacksMap.value;
      var todo := callbacks;
      ghost var done: set<Callback> := {};
      ghost var fired: map<Callback, Option<Clean>> := map[];
      ghost var log: seq<(Key, Callback)> := [];
      UpdateSame(pending, itemKey, callbacks);
      while todo != {}
        invariant todo + done == callbacks && todo !! done && fired.Keys == done
        invariant forall cb :: cb in fired ==> fired[cb] == fx.respond(cb)
        invariant callbacksMap == Some(pending[itemKey := todo])
        invariant cleansMap == WithCleans(old(cleansMap), itemKey, fired)
        invariant fx.calls == old(fx.calls) + log
        invariant Enumerates(log, Invocations(itemKey, done))
        invariant viewableKeys == old(viewableKeys) && enabled == old(enabled)
        invariant removeCallbackTasks == old(removeCallbackTasks)
        invariant fx.cleanups == old(fx.cleanups) && fx.forwarded == old(fx.forwarded)
        decreases todo
      {
        var callback :| callback in todo;
        var clean := FireCallback(itemKey, callback, fx, pending, todo, old(cleansMap), fired);
        InvocationsStep(itemKey, done, callback);
        EnumeratesSnoc(log, Invocations(itemKey, done), (itemKey, callback));
        fired := fired[callback := clean];
        log := log + [(itemKey, callback)];
        todo := todo - {callback};
        done := done + {callback};
      }
      assert fired == Responses(callbacks, fx.respond);
      AppendedIntro(old(fx.calls), log, Invocations(itemKey, done));
    }

    /** `cleansWithCallback.forEach(...)` when a key leaves view (lines
        186-201, 217-231, 351-366): each cleanup that is a function runs
        once, and every callback goes back to the pending set of the key. */
    method ReturnActive(itemKey: Key, cleansWithCallback: map<Callback, Option<Clean>>, fx: Effects)
      modifies this, fx
      ensures callbacksMap == WithCallbacks(old(callbacksMap), itemKey, cleansWithCallback.Keys)
      ensures Appended(old(fx.cleanups), fx.cleanups,
                       CleanupsDue(itemKey, cleansWithCallback, cleansWithCallback.Keys))
      ensures cleansMap == old(cleansMap)
      ensures viewableKeys == old(viewableKeys) && enabled == old(enabled)
      ensures removeCallbackTasks == old(removeCallbackTasks)
      ensures fx.calls == old(fx.calls) && fx.forwarded == old(fx.forwarded)
    {
      var todo := cleansWithCallback.Keys;
      ghost var done: set<Callback> := {};
      ghost var log: seq<(Key, Callback, Clean)> := [];
      while todo != {}
        invariant todo + done == cleansWithCallback.Keys && todo !! done
        invariant callbacksMap == WithCallbacks(old(callbacksMap), itemKey, done)
        invariant fx.cleanups == old(fx.cleanups) + log
        invariant Enumerates(log, CleanupsDue(itemKey, cleansWithCallback, done))
        invariant cleansMap == old(cleansMap)
        invariant viewableKeys == old(viewableKeys) && enabled == old(enabled)
        invariant removeCallbackTasks == old(removeCallbackTasks)
        invariant fx.calls == old(fx.calls) && fx.forwarded == old(fx.forwarded)
        decreases todo
      {
        var callback :| callback in todo;
        var clean := cleansWithCallback[callback];
        CleanupsDueStep(itemKey, cleansWithCallback, done, callback);
        if clean.Some? {
          fx.RunClean(itemKey, callback, clean.value);
          EnumeratesSnoc(log, CleanupsDue(itemKey, cleansWithCallback, done), (itemKey, callback, clean.value));
          log := log + [(itemKey, callback, clean.value)];
        } else {
          assert CleanupsDue(itemKey, cleansWithCallback, done + {callback})
              == CleanupsDue(itemKey, cleansWithCallback, done);
        }
        PushPending(itemKey, callback);
        WithCallbacksStep(old(callbacksMap), itemKey, done, callback);
        todo := todo - {callback};
        done := done + {callback};
      }
      AppendedIntro(old(fx.cleanups), log, CleanupsDue(itemKey, cleansWithCallback, done));
    }

    /** The loop body of FireEach, not a function of its own in the source:
        one turn of the pending `forEach` once the key is known visible
        (call, record the result, `callbacks.delete(callback)`). The ghost
        parameters restate FireEach's loop invariant. */
    method FireCallback(itemKey: Key, callback: Callback, fx: Effects,
                        ghost pending: Pending, ghost todo: set<Callback>,
                        ghost base: Option<Active>, ghost fired: map<Callback, Option<Clean>>)
        returns (clean: Option<Clean>)
      requires callbacksMap == Some(pending[itemKey := todo])
      requires cleansMap == WithCleans(base, itemKey, fired) && callback !in fired
      modifies this, fx
      ensures clean == fx.respond(callback)
      ensures fx.calls == old(fx.calls) + [(itemKey, callback)]
      ensures cleansMap == WithCleans(base, itemKey, fired[callback := clean])
      ensures callbacksMap == Some(pending[itemKey := todo - {callback}])
      ensures viewableKeys == old(viewableKeys) && enabled == old(enabled)
      ensures removeCallbackTasks == old(removeCallbackTasks)
      ensures fx.cleanups == old(fx.cleanups) && fx.forwarded == old(fx.forwarded)
    {
      clean := fx.Call(itemKey, callback);
      StoreClean(itemKey, callback, clean);
      WithCleansStep(base, itemKey, fired, callback, clean);
      callbacksMap := Some(callbacksMap.value[itemKey := callbacksMap.value[itemKey] - {callback}]);
      assert pending[itemKey := todo][itemKey := todo - {callback}] == pending[itemKey := todo - {callback}];
    }

    /** `cleansMap.current[itemKey].set(callback, clean)`, creating the
        outer and inner maps as needed (lines 164-172, 249-257, 316-328). */
    method StoreClean(itemKey: Key, callback: Callback, clean: Option<Clean>)
      modifies this
      ensures cleansMap == WithClean(old(cleansMap), itemKey, callback, clean)
      ensures callbacksMap == old(callbacksMap) && viewableKeys == old(viewableKeys) && enabled == old(enabled)
      ensures removeCallbackTasks == old(removeCallbackTasks)
    {
      if cleansMap.None? {
        cleansMap := Some(map[]);
      }
      var cleansWithCallback := if itemKey in cleansMap.value then cleansMap.value[itemKey] else map[];
      cleansMap := Some(cleansMap.value[itemKey := cleansWithCallback[callback := clean]]);
    }

    /** "give back again": `callbacksMap.current[itemKey].add(callback)`,
        creating the outer map and inner set as needed (lines 192-200,
        222-230, 357-365). */
    method PushPending(itemKey: Key, callback: Callback)
      modifies this
      ensures callbacksMap == WithCallback(old(callbacksMap), itemKey, callback)
      ensures cleansMap == old(cleansMap) && viewableKeys == old(viewableKeys) && enabled == old(enabled)
      ensures removeCallbackTasks == old(removeCallbackTasks)
    {
      if callbacksMap.None? {
        callbacksMap := Some(map[]);
      }
      var callbacks := if itemKey in callbacksMap.value then callbacksMap.value[itemKey] else {};
      callbacksMap := Some(callbacksMap.value[itemKey := callbacks + {callback}]);
    }

    /** A key leaving view while enabled and with the active ref defined
        (lines 349-369). */
    method ExitKey(itemKey: Key, fx: Effects)
      requires cleansMap.Some?
      modifies this, fx
      ensures Contents() == Exited(old(Contents()), itemKey)
      ensures var cleans := CleansAt(old(cleansMap), itemKey);
              Appended(old(fx.cleanups), fx.cleanups, CleanupsDue(itemKey, cleans, cleans.Keys))
      ensures viewableKeys == old(viewableKeys) && enabled == old(enabled)
      ensures removeCallbackTasks == old(removeCallbackTasks)
      ensures fx.calls == old(fx.calls) && fx.forwarded == old(fx.forwarded)
    {
      var cleansWithCallback := if itemKey in cleansMap.value then cleansMap.value[itemKey] else map[];
      ReturnActive(itemKey, cleansWithCallback, fx);
      cleansMap := Some(cleansMap.value - {itemKey});
      if cleansMap.value == map[] {
        cleansMap := None;
      }
    }

    /** A viewable key when the list is switched off (lines 216-235). */
    method GiveBackKey(itemKey: Key, fx: Effects)
      modifies this, fx
      ensures Contents() == GaveBack(old(Contents()), itemKey)
      ensures var cleans := CleansAt(old(cleansMap), itemKey);
              Appended(old(fx.cleanups), fx.cleanups, CleanupsDue(itemKey, cleans, cleans.Keys))
      ensures viewableKeys == old(viewableKeys) && enabled == old(enabled)
      ensures removeCallbackTasks == old(removeCallbackTasks)
      ensures fx.calls == old(fx.calls) && fx.forwarded == old(fx.forwarded)
    {
      var cleansWithCallback := CleansAt(cleansMap, itemKey);
      ReturnActive(itemKey, cleansWithCallback, fx);
      if cleansMap.Some? {
        cleansMap := Some(cleansMap.value - {itemKey});
      }
      if callbacksMap.Some? && callbacksMap.value == map[] {
        callbacksMap := None;
      }
    }

    /** A viewable key when the list's own row leaves its parent's view
        (lines 184-205). */
    method ReleaseKey(itemKey: Key, fx: Effects)
      modifies this, fx
      ensures Contents() == ConsumedCleans(old(Contents()), itemKey)
      ensures var cleans := CleansAt(old(cleansMap), itemKey);
              Appended(old(fx.cleanups), fx.cleanups, CleanupsDue(itemKey, cleans, cleans.Keys))
      ensures viewableKeys == old(viewableKeys) && enabled == old(enabled)
      ensures removeCallbackTasks == old(removeCallbackTasks)
      ensures fx.calls == old(fx.calls) && fx.forwarded == old(fx.forwarded)
    {
      if cleansMap.None? || itemKey !in cleansMap.value {
        AppendedIntro(fx.cleanups, [], {});
        return;
      }
      ReturnActive(itemKey, cleansMap.value[itemKey], fx);
      cleansMap := Some(cleansMap.value - {itemKey});
      if cleansMap.value == map[] {
        cleansMap := None;
      }
    }
  
    // -------------------------------------------------------------------
    // Every viewable key at once.
    // -------------------------------------------------------------------

    /** The disable effect (lines 211-237): every viewable key gives its
        active callbacks back, running each cleanup that is a function;
        the active ref stays defined, possibly empty. */
    method GiveBackAll(fx: Effects)
      requires Valid()
      modifies this, fx
      ensures Valid()
      ensures forall k :: At(Contents(), k) == (if k in viewableKeys then Retire(At(old(Contents()), k)) else At(old(Contents()), k))
      ensures cleansMap.Some? <==> old(cleansMap).Some?
      ensures Appended(old(fx.cleanups), fx.cleanups, CleanupsFor(old(Contents()), viewableKeys))
      ensures viewableKeys == old(viewableKeys) && enabled == old(enabled)
      ensures removeCallbackTasks == old(removeCallbackTasks)
      ensures fx.calls == old(fx.calls) && fx.forwarded == old(fx.forwarded)
    {
      ghost var s0 := Contents();
      var todo := viewableKeys;
      ghost var done: set<Key> := {};
      assert CleanupsFor(s0, done) == {};
      AppendedIntro(fx.cleanups, [], {});
      while todo != {}
        invariant todo + done == viewableKeys && todo !! done
        invariant Valid()
        invariant forall k :: At(Contents(), k) == (if k in done then Retire(At(s0, k)) else At(s0, k))
        invariant cleansMap.Some? <==> s0.cleansMap.Some?
        invariant Appended(old(fx.cleanups), fx.cleanups, CleanupsFor(s0, done))
        invariant viewableKeys == old(viewableKeys) && enabled == old(enabled)
        invariant removeCallbackTasks == old(removeCallbackTasks)
        invariant fx.calls == old(fx.calls) && fx.forwarded == old(fx.forwarded)
        decreases todo
      {
        var itemKey :| itemKey in todo;
        assert At(Contents(), itemKey) == At(s0, itemKey);
        ghost var before := fx.cleanups;
        GiveBackKey(itemKey, fx);
        CleanupsForStep(s0, done, itemKey);
        ghost var cleans := CleansAt(s0.cleansMap, itemKey);
        AppendedTrans(old(fx.cleanups), before, fx.cleanups, CleanupsFor(s0, done), CleanupsDue(itemKey, cleans, cleans.Keys));
        todo := todo - {itemKey};
        done := done + {itemKey};
      }
    }
  
    /** The cleanup the own-row callback returns (lines 182-208), run when
        the list's own row leaves its parent's view: every viewable key
        gives its active callbacks back and leaves the active ref. */
    method OwnRowLeft(fx: Effects)
      requires Valid()
      modifies this, fx
      ensures Valid()
      ensures forall k :: At(Contents(), k) == (if k in viewableKeys then Retire(At(old(Contents()), k)) else At(old(Contents()), k))
      ensures Appended(old(fx.cleanups), fx.cleanups, CleanupsFor(old(Contents()), viewableKeys))
      ensures viewableKeys == old(viewableKeys) && enabled == old(enabled)
      ensures removeCallbackTasks == old(removeCallbackTasks)
      ensures fx.calls == old(fx.calls) && fx.forwarded == old(fx.forwarded)
    {
      ghost var s0 := Contents();
      var todo := viewableKeys;
      ghost var done: set<Key> := {};
      assert CleanupsFor(s0, done) == {};
      AppendedIntro(fx.cleanups, [], {});
      while todo != {}
        invariant todo + done == viewableKeys && todo !! done
        invariant Valid()
        invariant forall k :: At(Contents(), k) == (if k in done then Retire(At(s0, k)) else At(s0, k))
        invariant Appended(old(fx.cleanups), fx.cleanups, CleanupsFor(s0, done))
        invariant viewableKeys == old(viewableKeys) && enabled == old(enabled)
        invariant removeCallbackTasks == old(removeCallbackTasks)
        invariant fx.calls == old(fx.calls) && fx.forwarded == old(fx.forwarded)
        decreases todo
      {
        var itemKey :| itemKey in todo;
        assert At(Contents(), itemKey) == At(s0, itemKey);
        ghost var before := fx.cleanups;
        ReleaseKey(itemKey, fx);
        CleanupsForStep(s0, done, itemKey);
        ghost var cleans := CleansAt(s0.cleansMap, itemKey);
        AppendedTrans(old(fx.cleanups), before, fx.cleanups, CleanupsFor(s0, done), CleanupsDue(itemKey, cleans, cleans.Keys));
        todo := todo - {itemKey};
        done := done + {itemKey};
      }
    }

    /** The pending callbacks of every viewable key, each key gated by
        `isInViewPortRecursively` when `gated` holds: the re-enable cleanup
        (lines 239-269) is gated, the own-row callback (lines 159-180) is
        not. Every viewable key counts as visible here exactly when every
        enclosing row is. */
    method FireViewable(gated: bool, ancestors: seq<Frame>, fx: Effects)
      requires Valid()
      modifies this, fx
      ensures Valid()
      ensures var gate := !gated || RowsVisible(ancestors);
              forall k :: At(Contents(), k) == (if gate && k in viewableKeys then Fire(At(old(Contents()), k), fx.respond)
                                                else At(old(Contents()), k))
      ensures Appended(old(fx.calls), fx.calls,
                       if !gated || RowsVisible(ancestors) then CallsFor(old(Contents()), viewableKeys) else {})
      ensures viewableKeys == old(viewableKeys) && enabled == old(enabled)
      ensures removeCallbackTasks == old(removeCallbackTasks)
      ensures fx.cleanups == old(fx.cleanups) && fx.forwarded == old(fx.forwarded)
    {
      ghost var s0 := Contents();
      ghost var gate := !gated || RowsVisible(ancestors);
      var todo := viewableKeys;
      ghost var done: set<Key> := {};
      assert CallsFor(s0, done) == {};
      AppendedIntro(fx.calls, [], {});
      while todo != {}
        invariant todo + done == viewableKeys && todo !! done
        invariant Valid()
        invariant forall k :: At(Contents(), k) == (if gate && k in done then Fire(At(s0, k), fx.respond) else At(s0, k))
        invariant Appended(old(fx.calls), fx.calls, if gate then CallsFor(s0, done) else {})
        invariant viewableKeys == old(viewableKeys) && enabled == old(enabled)
        invariant removeCallbackTasks == old(removeCallbackTasks)
        invariant fx.cleanups == old(fx.cleanups) && fx.forwarded == old(fx.forwarded)
        decreases todo
      {
        var itemKey :| itemKey in todo;
        assert At(Contents(), itemKey) == At(s0, itemKey);
        var inViewPort := !gated || InViewPortRecursively(viewableKeys, ancestors, itemKey);
        ghost var before := fx.calls;
        ConsumePending(itemKey, inViewPort, fx);
        CallsForStep(s0, done, itemKey);
        ghost var due := if gate then Invocations(itemKey, CallbacksAt(s0.callbacksMap, itemKey)) else {};
        AppendedTrans(old(fx.calls), before, fx.calls, if gate then CallsFor(s0, done) else {}, due);
        todo := todo - {itemKey};
        done := done + {itemKey};
      }
    }
  
    // -------------------------------------------------------------------
    // onViewableItemsChanged (lines 283-383).
    // -------------------------------------------------------------------

    /** The `for` loop over `viewableItems` (lines 290-343): every viewable
        token's key joins `viewableKeys`; a key that was not there before
        fires its pending callbacks when the list is on and every enclosing
        row is visible. Returns the previously viewable keys the event no
        longer reports. */
    method EnterAll(items: seq<Option<ViewToken>>, keyExtractor: Option<Value -> Value>, ancestors: seq<Frame>, fx: Effects)
      returns (willHideKeys: set<Key>)
      requires Valid()
      modifies this, fx
      ensures Valid()
      ensures viewableKeys == old(viewableKeys) + ShownKeys(items, keyExtractor)
      ensures willHideKeys == old(viewableKeys) - ShownKeys(items, keyExtractor)
      ensures var gate := enabled && RowsVisible(ancestors);
              var entered := ShownKeys(items, keyExtractor) - old(viewableKeys);
              forall k :: At(Contents(), k) == (if gate && k in entered then Fire(At(old(Contents()), k), fx.respond)
                                                else At(old(Contents()), k))
      ensures Appended(old(fx.calls), fx.calls,
                       if enabled && RowsVisible(ancestors)
                       then CallsFor(old(Contents()), ShownKeys(items, keyExtractor) - old(viewableKeys)) else {})
      ensures enabled == old(enabled) && removeCallbackTasks == old(removeCallbackTasks)
      ensures fx.cleanups == old(fx.cleanups) && fx.forwarded == old(fx.forwarded)
    {
      ghost var s0 := Contents();
      ghost var gate := enabled && RowsVisible(ancestors);
      willHideKeys := viewableKeys;
      ghost var entered: set<Key> := {};
      assert CallsFor(s0, entered) == {};
      AppendedIntro(fx.calls, [], {});
      for i := 0 to |items|
        invariant viewableKeys == old(viewableKeys) + ShownKeys(items[..i], keyExtractor)
        invariant willHideKeys == old(viewableKeys) - ShownKeys(items[..i], keyExtractor)
        invariant entered == ShownKeys(items[..i], keyExtractor) - old(viewableKeys)
        invariant Valid()
        invariant forall k :: At(Contents(), k) == (if gate && k in entered then Fire(At(s0, k), fx.respond) else At(s0, k))
        invariant Appended(old(fx.calls), fx.calls, if gate then CallsFor(s0, entered) else {})
        invariant enabled == old(enabled) && removeCallbackTasks == old(removeCallbackTasks)
        invariant fx.cleanups == old(fx.cleanups) && fx.forwarded == old(fx.forwarded)
      {
        ShownKeysStep(items, keyExtractor, i);
        var viewableItem := items[i];
        if viewableItem.None? {
          continue;
        }
        if viewableItem.value.isViewable {
          var itemKey := KeyOf(viewableItem.value.item, keyExtractor);
          var isNew := itemKey !in viewableKeys;
          if isNew {
            EnterNew(itemKey, ancestors, fx, gate, s0, entered, old(fx.calls));
            entered := entered + {itemKey};
          }
          willHideKeys := willHideKeys - {itemKey};
        }
      }
      assert items[..|items|] == items;
    }
  
    /** The `willHideKeys.forEach` (lines 345-372): each key leaves
        `viewableKeys`; while the list is on and the active ref is defined,
        it also gives its active callbacks back. */
    method ExitAll(willHideKeys: set<Key>, fx: Effects)
      requires Valid()
      modifies this, fx
      ensures Valid()
      ensures viewableKeys == old(viewableKeys) - willHideKeys
      ensures forall k :: At(Contents(), k) == (if enabled && k in willHideKeys then Retire(At(old(Contents()), k))
                                                else At(old(Contents()), k))
      ensures Appended(old(fx.cleanups), fx.cleanups,
                       if enabled then CleanupsFor(old(Contents()), willHideKeys) else {})
      ensures enabled == old(enabled) && removeCallbackTasks == old(removeCallbackTasks)
      ensures fx.calls == old(fx.calls) && fx.forwarded == old(fx.forwarded)
    {
      ghost var s0 := Contents();
      var todo := willHideKeys;
      ghost var done: set<Key> := {};
      assert CleanupsFor(s0, done) == {};
      AppendedIntro(fx.cleanups, [], {});
      while todo != {}
        invariant todo + done == willHideKeys && todo !! done
        invariant viewableKeys == old(viewableKeys) - done
        invariant Valid()
        invariant forall k :: At(Contents(), k) == (if enabled && k in done then Retire(At(s0, k)) else At(s0, k))
        invariant Appended(old(fx.cleanups), fx.cleanups, if enabled then CleanupsFor(s0, done) else {})
        invariant enabled == old(enabled) && removeCallbackTasks == old(removeCallbackTasks)
        invariant fx.calls == old(fx.calls) && fx.forwarded == old(fx.forwarded)
        decreases todo
      {
        var itemKey :| itemKey in todo;
        HideNext(itemKey, fx, s0, done, old(fx.cleanups));
        todo := todo - {itemKey};
        done := done + {itemKey};
      }
    }
  
    /** What the loop body of ExitAll does to one key (lines 346-371). */
    method HideKey(itemKey: Key, fx: Effects)
      requires Valid()
      modifies this, fx
      ensures Valid()
      ensures viewableKeys == old(viewableKeys) - {itemKey}
      ensures At(Contents(), itemKey) == (if enabled then Retire(At(old(Contents()), itemKey)) else At(old(Contents()), itemKey))
      ensures forall j :: j != itemKey ==> At(Contents(), j) == At(old(Contents()), j)
      ensures var cleans := CleansAt(old(cleansMap), itemKey);
              enabled ==> Appended(old(fx.cleanups), fx.cleanups, CleanupsDue(itemKey, cleans, cleans.Keys))
      ensures !enabled ==> fx.cleanups == old(fx.cleanups)
      ensures enabled == old(enabled) && removeCallbackTasks == old(removeCallbackTasks)
      ensures fx.calls == old(fx.calls) && fx.forwarded == old(fx.forwarded)
    {
      viewableKeys := viewableKeys - {itemKey};
      if enabled && cleansMap.Some? {
        ExitKey(itemKey, fx);
      } else {
        if enabled {
          RetireIdle(At(Contents(), itemKey));
          AppendedIntro(fx.cleanups, [], {});
        }
      }
    }
  
    /** The loop body of ExitAll, not a function of its own in the source:
        one more key of the `willHideKeys.forEach`. The ghost parameters
        restate ExitAll's loop invariant for the keys hidden so far, and the
        postcondition is that invariant extended by `itemKey`. */
    method HideNext(itemKey: Key, fx: Effects, ghost s0: Ledger, ghost done: set<Key>, ghost start: seq<(Key, Callback, Clean)>)
      requires itemKey !in done && Valid()
      requires forall k :: At(Contents(), k) == (if enabled && k in done then Retire(At(s0, k)) else At(s0, k))
      requires Appended(start, fx.cleanups, if enabled then CleanupsFor(s0, done) else {})
      modifies this, fx
      ensures Valid()
      ensures viewableKeys == old(viewableKeys) - {itemKey}
      ensures forall k :: At(Contents(), k) == (if enabled && k in done + {itemKey} then Retire(At(s0, k)) else At(s0, k))
      ensures Appended(start, fx.cleanups, if enabled then CleanupsFor(s0, done + {itemKey}) else {})
      ensures enabled == old(enabled) && removeCallbackTasks == old(removeCallbackTasks)
      ensures fx.calls == old(fx.calls) && fx.forwarded == old(fx.forwarded)
    {
      assert At(Contents(), itemKey) == At(s0, itemKey);
      ghost var before := fx.cleanups;
      HideKey(itemKey, fx);
      if enabled {
        CleanupsForStep(s0, done, itemKey);
        ghost var cleans := CleansAt(s0.cleansMap, itemKey);
        AppendedTrans(start, before, fx.cleanups, CleanupsFor(s0, done), CleanupsDue(itemKey, cleans, cleans.Keys));
      }
    }
  
    /** A key the event reports for the first time (lines 306-339): it
        joins `viewableKeys` and, while the list is on, its pending
        callbacks fire if it is visible through every enclosing row. This is
        the loop body of EnterAll, not a function of its own in the source:
        the ghost parameters restate EnterAll's loop invariant for the keys
        entered so far. */
    method EnterNew(itemKey: Key, ancestors: seq<Frame>, fx: Effects,
                    ghost gate: bool, ghost s0: Ledger, ghost entered: set<Key>, ghost start: seq<(Key, Callback)>)
      requires gate == (enabled && RowsVisible(ancestors))
      requires itemKey !in entered && Valid()
      requires forall k :: At(Contents(), k) == (if gate && k in entered then Fire(At(s0, k), fx.respond) else At(s0, k))
      requires Appended(start, fx.calls, if gate then CallsFor(s0, entered) else {})
      modifies this, fx
      ensures Valid()
      ensures viewableKeys == old(viewableKeys) + {itemKey}
      ensures forall k :: At(Contents(), k) == (if gate && k in entered + {itemKey} then Fire(At(s0, k), fx.respond) else At(s0, k))
      ensures Appended(start, fx.calls, if gate then CallsFor(s0, entered + {itemKey}) else {})
      ensures enabled == old(enabled) && removeCallbackTasks == old(removeCallbackTasks)
      ensures fx.cleanups == old(fx.cleanups) && fx.forwarded == old(fx.forwarded)
    {
      viewableKeys := viewableKeys + {itemKey};
      if enabled {
        assert At(Contents(), itemKey) == At(s0, itemKey);
        ghost var before := fx.calls;
        ConsumePending(itemKey, InViewPortRecursively(viewableKeys, ancestors, itemKey), fx);
        CallsForStep(s0, entered, itemKey);
        ghost var due := if gate then Invocations(itemKey, CallbacksAt(s0.callbacksMap, itemKey)) else {};
        AppendedTrans(start, before, fx.calls, if gate then CallsFor(s0, entered) else {}, due);
      }
    }
  
    /** The whole handler: entries, then exits, then the queued removals in
        the order they were requested, then the event is passed on to the
        list's own `onViewableItemsChanged` when one was given. Afterwards
        the viewable keys are exactly those the event reports, each key's
        slot has made its transition with the queued removals applied, the
        calls made are exactly those owed by the keys that entered and the
        cleanups run exactly those owed by the keys that left. */
    method OnViewableItemsChanged(event: ViewableItemsChanged, keyExtractor: Option<Value -> Value>,
                                  ancestors: seq<Frame>, hasHandler: bool, fx: Effects)
      requires Valid()
      modifies this, fx
      ensures Valid()
      ensures viewableKeys == ShownKeys(event.viewableItems, keyExtractor)
      ensures removeCallbackTasks == [] && enabled == old(enabled)
      ensures forall k :: At(Contents(), k)
                == Strip(Transit(At(old(Contents()), k), k, old(viewableKeys), viewableKeys, enabled, RowsVisible(ancestors), fx.respond),
                         RemovedFor(old(removeCallbackTasks), k))
      ensures Appended(old(fx.calls), fx.calls,
                       if enabled && RowsVisible(ancestors) then CallsFor(old(Contents()), viewableKeys - old(viewableKeys)) else {})
      ensures Appended(old(fx.cleanups), fx.cleanups,
                       if enabled then CleanupsFor(old(Contents()), old(viewableKeys) - viewableKeys) else {})
      ensures fx.forwarded == old(fx.forwarded) + (if hasHandler then [event] else [])
    {
      ghost var s0 := Contents();
      var willHideKeys := EnterAll(event.viewableItems, keyExtractor, ancestors, fx);
      ghost var s1 := Contents();
      ExitAll(willHideKeys, fx);
      ghost var s2 := Contents();
      CleanupsForFrame(s1, s0, willHideKeys);
      ghost var tasks := removeCallbackTasks;
      FlushRemoveCallbackTasks();
      forall k
        ensures At(Contents(), k)
                == Strip(Transit(At(s0, k), k, old(viewableKeys), viewableKeys, enabled, RowsVisible(ancestors), fx.respond),
                         RemovedFor(tasks, k))
      {
        RemovalsPointwise(s2, tasks, k);
      }
      if hasHandler {
        fx.Forward(event);
      }
    }
  
    // -------------------------------------------------------------------
    // The enable/disable effects and the list's own row (lines 148-271).
    // -------------------------------------------------------------------

    /** A render with new contexts: the switch becomes
        `parentEnabled && $$enabled !== false`; when it changed, the effect
        keyed on it re-runs: going on, the previous run's cleanup fires the
        pending callbacks of the viewable keys (gated); going off, the new
        run gives back their active callbacks. */
    method SetEnabled(parentEnabled: bool, localEnabled: Option<bool>, ancestors: seq<Frame>, fx: Effects)
      requires Valid()
      modifies this, fx
      ensures Valid()
      ensures enabled == Enabled(parentEnabled, localEnabled)
      ensures forall k :: At(Contents(), k)
                == Toggled(At(old(Contents()), k), k in viewableKeys, old(enabled), enabled, RowsVisible(ancestors), fx.respond)
      ensures Appended(old(fx.calls), fx.calls,
                       if !old(enabled) && enabled && RowsVisible(ancestors) then CallsFor(old(Contents()), viewableKeys) else {})
      ensures Appended(old(fx.cleanups), fx.cleanups,
                       if old(enabled) && !enabled then CleanupsFor(old(Contents()), viewableKeys) else {})
      ensures viewableKeys == old(viewableKeys) && removeCallbackTasks == old(removeCallbackTasks)
      ensures fx.forwarded == old(fx.forwarded)
    {
      var next := Enabled(parentEnabled, localEnabled);
      if next == enabled {
        AppendedIntro(fx.calls, [], {});
        AppendedIntro(fx.cleanups, [], {});
        return;
      }
      if !enabled {
        FireViewable(true, ancestors, fx);
        AppendedIntro(fx.cleanups, [], {});
      }
      enabled := next;
      if !next {
        GiveBackAll(fx);
        AppendedIntro(fx.calls, [], {});
      }
    }

    /** The callback this list registers in its parent list (lines
        156-180), run when the list's own row enters the parent's view:
        unless the list is off, every viewable key fires its pending
        callbacks, with no visibility gate, and a cleanup is handed back. */
    method OwnRowEntered(fx: Effects) returns (cleanupReturned: bool)
      requires Valid()
      modifies this, fx
      ensures Valid()
      ensures cleanupReturned == enabled
      ensures forall k :: At(Contents(), k) == (if enabled && k in viewableKeys then Fire(At(old(Contents()), k), fx.respond)
                                                else At(old(Contents()), k))
      ensures Appended(old(fx.calls), fx.calls, if enabled then CallsFor(old(Contents()), viewableKeys) else {})
      ensures viewableKeys == old(viewableKeys) && enabled == old(enabled)
      ensures removeCallbackTasks == old(removeCallbackTasks)
      ensures fx.cleanups == old(fx.cleanups) && fx.forwarded == old(fx.forwarded)
    {
      if !enabled {
        AppendedIntro(fx.calls, [], {});
        return false;
      }
      FireViewable(false, [], fx);
      return true;
    }
  }
}
