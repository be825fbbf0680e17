/**
 * src/store.ts: a store holding the pending and active refs of one list,
 * and the operations that change them in place. Each method is specified by
 * the value-level function of module Registry it performs.
 */
module Store {
  import opened Values
  import opened Registry
  import opened Host

  class Store {
    var callbacksMap: Option<Pending>
    var cleansMap: Option<Active>

    /** useStore: both refs start out undefined. */
    constructor ()
      ensures callbacksMap == None && cleansMap == None
    {
      callbacksMap, cleansMap := None, None;
    }

    function Contents(): Ledger
      reads this
    {
      Ledger(callbacksMap, cleansMap)
    }

    method AddCallback(itemKey: Key, callback: Callback)
      modifies this
      ensures callbacksMap == WithCallback(old(callbacksMap), itemKey, callback)
      ensures cleansMap == old(cleansMap)
    {
      if callbacksMap.None? {
        callbacksMap := Some(map[]);
      }
      var callbacks := if itemKey in callbacksMap.value then callbacksMap.value[itemKey] else {};
      callbacksMap := Some(callbacksMap.value[itemKey := callbacks + {callback}]);
    }

    method RemoveCallback(itemKey: Key, callback: Callback)
      modifies this
      ensures callbacksMap == WithoutCallback(old(callbacksMap), itemKey, callback)
      ensures cleansMap == old(cleansMap)
    {
      if callbacksMap.None? {
        return;
      }
      if itemKey in callbacksMap.value {
        var callbacks := callbacksMap.value[itemKey] - {callback};
        if callbacks == {} {
          callbacksMap := Some(callbacksMap.value - {itemKey});
          if callbacksMap.value == map[] {
            callbacksMap := None;
          }
        } else {
          callbacksMap := Some(callbacksMap.value[itemKey := callbacks]);
        }
      }
    }

    method RemoveCallbacks(itemKey: Key)
      modifies this
      ensures callbacksMap == WithoutCallbacks(old(callbacksMap), itemKey)
      ensures cleansMap == old(cleansMap)
    {
      if callbacksMap.None? {
        return;
      }
      callbacksMap := Some(callbacksMap.value - {itemKey});
      if callbacksMap.value == map[] {
        callbacksMap := None;
      }
    }

    method AddClean(itemKey: Key, callback: Callback, clean: Option<Clean>)
      modifies this
      ensures cleansMap == WithClean(old(cleansMap), itemKey, callback, clean)
      ensures callbacksMap == old(callbacksMap)
    {
      if cleansMap.None? {
        cleansMap := Some(map[]);
      }
      var cleansWithCallback := if itemKey in cleansMap.value then cleansMap.value[itemKey] else map[];
      cleansMap := Some(cleansMap.value[itemKey := cleansWithCallback[callback := clean]]);
    }

    method RemoveClean(itemKey: Key, callback: Callback)
      modifies this
      ensures cleansMap == WithoutClean(old(cleansMap), itemKey, callback)
      ensures callbacksMap == old(callbacksMap)
    {
      if cleansMap.None? {
        return;
      }
      if itemKey in cleansMap.value {
        var cleansWithCallback := cleansMap.value[itemKey] - {callback};
        if cleansWithCallback == map[] {
          cleansMap := Some(cleansMap.value - {itemKey});
          if cleansMap.value == map[] {
            cleansMap := None;
          }
        } else {
          cleansMap := Some(cleansMap.value[itemKey := cleansWithCallback]);
        }
      }
    }

    method RemoveCleans(itemKey: Key)
      modifies this
      ensures cleansMap == WithoutCleans(old(cleansMap), itemKey)
      ensures callbacksMap == old(callbacksMap)
    {
      if cleansMap.None? {
        return;
      }
      cleansMap := Some(cleansMap.value - {itemKey});
      if cleansMap.value == map[] {
        cleansMap := None;
      }
    }

    /** Calls every callback pending for `itemKey` once, records each result
        as its cleanup and removes the key from the pending side. */
    method ConsumeCallbacks(itemKey: Key, fx: Effects)
      modifies this, fx
      ensures Contents() == ConsumedCallbacks(old(Contents()), itemKey, fx.respond)
      ensures Appended(old(fx.calls), fx.calls, Invocations(itemKey, CallbacksAt(old(callbacksMap), itemKey)))
      ensures fx.cleanups == old(fx.cleanups) && fx.forwarded == old(fx.forwarded)
    {
      if callbacksMap.None? || itemKey !in callbacksMap.value {
        AppendedIntro(fx.calls, [], {});
        return;
      }
      var callbacks := callbacksMap.value[itemKey];
      FireAll(itemKey, callbacks, fx);
      RemoveCallbacks(itemKey);
    }

    /** The `callbacks.forEach` of consumeCallbacks: calls each callback once
        and stores what it returned as its cleanup. */
    method FireAll(itemKey: Key, callbacks: set<Callback>, fx: Effects)
      modifies this, fx
      ensures callbacksMap == old(callbacksMap)
      ensures cleansMap == WithCleans(old(cleansMap), itemKey, Responses(callbacks, fx.respond))
      ensures Appended(old(fx.calls), fx.calls, Invocations(itemKey, callbacks))
      ensures fx.cleanups == old(fx.cleanups) && fx.forwarded == old(fx.forwarded)
    {
      var todo := callbacks;
      ghost var done: set<Callback> := {};
      ghost var fired: map<Callback, Option<Clean>> := map[];
      AppendedIntro(fx.calls, [], {});
      assert fx.calls + [] == fx.calls;
      while todo != {}
        invariant todo + done == callbacks && todo !! done && fired.Keys == done
        invariant forall cb :: cb in fired ==> fired[cb] == fx.respond(cb)
        invariant callbacksMap == old(callbacksMap)
        invariant cleansMap == WithCleans(old(cleansMap), itemKey, fired)
        invariant Appended(old(fx.calls), fx.calls, Invocations(itemKey, done))
        invariant fx.cleanups == old(fx.cleanups) && fx.forwarded == old(fx.forwarded)
        decreases todo
      {
        var callback :| callback in todo;
        var clean := FireNext(itemKey, callback, fx, old(cleansMap), old(fx.calls), done, fired);
        fired := fired[callback := clean];
        done := done + {callback};
        todo := todo - {callback};
      }
      assert fired == Responses(callbacks, fx.respond);
    }

    /** One turn of the `callbacks.forEach` in FireAll, not a function of
        its own in store.ts: calls `callback`, records what it returned on
        top of the results `fired` of the callbacks `done` so far, and
        extends the call trace begun at `start` by this one call. */
    method FireNext(itemKey: Key, callback: Callback, fx: Effects, ghost base: Option<Active>,
                    ghost start: seq<(Key, Callback)>, ghost done: set<Callback>,
                    ghost fired: map<Callback, Option<Clean>>)
        returns (clean: Option<Clean>)
      requires callback !in done && fired.Keys == done
      requires forall cb :: cb in fired ==> fired[cb] == fx.respond(cb)
      requires cleansMap == WithCleans(base, itemKey, fired)
      requires Appended(start, fx.calls, Invocations(itemKey, done))
      modifies this, fx
      ensures clean == fx.respond(callback)
      ensures forall cb :: cb in fired[callback := clean] ==> fired[callback := clean][cb] == fx.respond(cb)
      ensures cleansMap == WithCleans(base, itemKey, fired[callback := clean])
      ensures Appended(start, fx.calls, Invocations(itemKey, done + {callback}))
      ensures callbacksMap == old(callbacksMap)
      ensures fx.cleanups == old(fx.cleanups) && fx.forwarded == old(fx.forwarded)
    {
      InvocationsStep(itemKey, done, callback);
      AppendedSnoc(start, fx.calls, Invocations(itemKey, done), (itemKey, callback));
      clean := fx.Call(itemKey, callback);
      AddClean(itemKey, callback, clean);
      WithCleansStep(base, itemKey, fired, callback, clean);
    }

    /** Runs every cleanup stored for `itemKey` once, gives each callback
        back to the pending side and removes the key from the active side. */
    method ConsumeCleans(itemKey: Key, fx: Effects)
      modifies this, fx
      ensures Contents() == ConsumedCleans(old(Contents()), itemKey)
      ensures var cleans := CleansAt(old(cleansMap), itemKey);
              Appended(old(fx.cleanups), fx.cleanups, CleanupsDue(itemKey, cleans, cleans.Keys))
      ensures fx.calls == old(fx.calls) && fx.forwarded == old(fx.forwarded)
    {
      if cleansMap.None? || itemKey !in cleansMap.value {
        AppendedIntro(fx.cleanups, [], {});
        return;
      }
      var cleansWithCallback := cleansMap.value[itemKey];
      RetireAll(itemKey, cleansWithCallback, fx);
      RemoveCleans(itemKey);
    }

    /** The `cleansWithCallback.forEach` of consumeCleans: runs each stored
        cleanup once and puts its callback back among the pending ones. */
    method RetireAll(itemKey: Key, cleansWithCallback: map<Callback, Option<Clean>>, fx: Effects)
      modifies this, fx
      ensures cleansMap == old(cleansMap)
      ensures callbacksMap == WithCallbacks(old(callbacksMap), itemKey, cleansWithCallback.Keys)
      ensures Appended(old(fx.cleanups), fx.cleanups,
                       CleanupsDue(itemKey, cleansWithCallback, cleansWithCallback.Keys))
      ensures fx.calls == old(fx.calls) && fx.forwarded == old(fx.forwarded)
    {
      var todo := cleansWithCallback.Keys;
      ghost var done: set<Callback> := {};
      ghost var log: seq<(Key, Callback, Clean)> := [];
      while todo != {}
        invariant todo + done == cleansWithCallback.Keys && todo !! done
        invariant cleansMap == old(cleansMap)
        invariant callbacksMap == WithCallbacks(old(callbacksMap), itemKey, done)
        invariant fx.cleanups == old(fx.cleanups) + log
        invariant Enumerates(log, CleanupsDue(itemKey, cleansWithCallback, done))
        invariant fx.calls == old(fx.calls) && fx.forwarded == old(fx.forwarded)
        decreases todo
      {
        var callback :| callback in todo;
        var clean := cleansWithCallback[callback];
        CleanupsDueStep(itemKey, cleansWithCallback, done, callback);
        if clean.Some? {
          fx.RunClean(itemKey, callback, clean.value);
          EnumeratesSnoc(log, CleanupsDue(itemKey, cleansWithCallback, done), (itemKey, callback, clean.value));
          log := log + [(itemKey, callback, clean.value)];
        } else {
          assert CleanupsDue(itemKey, cleansWithCallback, done + {callback})
              == CleanupsDue(itemKey, cleansWithCallback, done);
        }
        AddCallback(itemKey, callback);
        WithCallbacksStep(old(callbacksMap), itemKey, done, callback);
        todo := todo - {callback};
        done := done + {callback};
      }
      AppendedIntro(old(fx.cleanups), log, CleanupsDue(itemKey, cleansWithCallback, done));
    }
  }
}
