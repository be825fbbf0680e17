/**
 * The callback registry of one list: the pending map `callbacksMap`
 * (key -> callbacks waiting for the key to become visible) and the active map
 * `cleansMap` (key -> callback -> the cleanup it returned), each held in a ref
 * whose `current` is `undefined` until first used and again once emptied.
 *
 * This module gives the value-level meaning of every operation of
 * src/store.ts; the class in store.dfy performs them in place.
 */
module Registry {
  import opened Values

  type Pending = map<Key, set<Callback>>
  type Active = map<Key, map<Callback, Option<Clean>>>

  /** The pair of refs; `None` is `current === undefined`. */
  datatype Ledger = Ledger(callbacksMap: Option<Pending>, cleansMap: Option<Active>)

  function Entries<V>(m: Option<map<Key, V>>): map<Key, V>
  {
    if m.Some? then m.value else map[]
  }

  /** `if (map.size === 0) current = undefined`. Collapsing loses no entry;
      that a ref never holds an empty outer map is carried by Drop and by
      the tidiness clauses of the With/Without functions below. */
  function Collapse<V(==)>(m: map<Key, V>): (r: Option<map<Key, V>>)
    ensures r.None? <==> m == map[]
    ensures Entries(r) == m
  {
    if m == map[] then None else Some(m)
  }

  /** `map.delete(k)` followed by the collapse of an emptied map. */
  function Drop<V(==)>(m: map<Key, V>, k: Key): (r: Option<map<Key, V>>)
    ensures r.Some? ==> k !in r.value && r.value != map[]
    ensures forall j :: j != k && j in m ==> r.Some? && j in r.value && r.value[j] == m[j]
    ensures r.Some? ==> forall j :: j in r.value ==> j in m
  {
    var rest := m - {k};
    assert forall j :: j != k && j in m ==> j in rest;
    Collapse(rest)
  }

  lemma UpdateSame<V>(m: map<Key, V>, k: Key, v: V)
    ensures k in m && m[k] == v ==> m[k := v] == m
  {
  }

  /** The callbacks pending for `k` (none when the map or the key is absent). */
  function CallbacksAt(m: Option<Pending>, k: Key): set<Callback>
  {
    if m.Some? && k in m.value then m.value[k] else {}
  }

  /** The active callbacks of `k` with their cleanups. */
  function CleansAt(m: Option<Active>, k: Key): map<Callback, Option<Clean>>
  {
    if m.Some? && k in m.value then m.value[k] else map[]
  }

  /** Everything the registry holds for one key. */
  datatype Slot = Slot(pending: set<Callback>, active: map<Callback, Option<Clean>>)

  function At(s: Ledger, k: Key): Slot
  {
    Slot(CallbacksAt(s.callbacksMap, k), CleansAt(s.cleansMap, k))
  }

  /** The callbacks registered for a key, whichever side they are on. */
  function Registered(slot: Slot): set<Callback>
  {
    slot.pending + slot.active.Keys
  }

  /** No callback is both pending and active. */
  predicate Exclusive(slot: Slot)
  {
    slot.pending !! slot.active.Keys
  }

  /** Representation invariant of the pending ref: no empty inner set, and
      an outer map that would be empty is `undefined` instead. */
  predicate TidyCallbacks(m: Option<Pending>)
  {
    m != Some(map[]) && (m.Some? ==> forall k :: k in m.value ==> m.value[k] != {})
  }

  /** No empty inner map in the active ref. */
  predicate TidyCleanEntries(m: Option<Active>)
  {
    m.Some? ==> forall k :: k in m.value ==> m.value[k] != map[]
  }

  predicate TidyCleans(m: Option<Active>)
  {
    m != Some(map[]) && TidyCleanEntries(m)
  }

  predicate Tidy(s: Ledger)
  {
    TidyCallbacks(s.callbacksMap) && TidyCleans(s.cleansMap)
  }

  // ---------------------------------------------------------------------
  // The small operations of src/store.ts, as functions of the ref's value.
  // ---------------------------------------------------------------------

  /** addCallback: `callback` joins the pending set of `k`. */
  function WithCallback(m: Option<Pending>, k: Key, cb: Callback): (r: Option<Pending>)
    ensures r.Some? && r.value.Keys == Entries(m).Keys + {k}
    ensures CallbacksAt(r, k) == CallbacksAt(m, k) + {cb}
    ensures forall j :: j != k ==> CallbacksAt(r, j) == CallbacksAt(m, j)
    ensures TidyCallbacks(m) ==> TidyCallbacks(r)
  {
    var outer := Entries(m);
    var callbacks := if k in outer then outer[k] else {};
    Some(outer[k := callbacks + {cb}])
  }

  /** removeCallback: only `cb` leaves the pending set of `k`; an emptied set
      loses its key and an emptied map becomes undefined. */
  function WithoutCallback(m: Option<Pending>, k: Key, cb: Callback): (r: Option<Pending>)
    ensures CallbacksAt(r, k) == CallbacksAt(m, k) - {cb}
    ensures forall j :: j != k ==> CallbacksAt(r, j) == CallbacksAt(m, j)
    ensures m.None? ==> r.None?
    ensures TidyCallbacks(m) ==> TidyCallbacks(r)
    ensures TidyCallbacks(m) && cb !in CallbacksAt(m, k) ==> r == m
  {
    if m.None? || k !in m.value then m
    else
      var callbacks := m.value[k] - {cb};
      if callbacks == {} then Drop(m.value, k)
      else
        assert cb !in m.value[k] ==> callbacks == m.value[k];
        UpdateSame(m.value, k, callbacks);
        Some(m.value[k := callbacks])
  }

  /** removeCallbacks: the whole pending set of `k` goes. */
  function WithoutCallbacks(m: Option<Pending>, k: Key): (r: Option<Pending>)
    ensures CallbacksAt(r, k) == {}
    ensures forall j :: j != k ==> CallbacksAt(r, j) == CallbacksAt(m, j)
    ensures m.None? ==> r.None?
    ensures TidyCallbacks(m) ==> TidyCallbacks(r)
  {
    if m.None? then m else Drop(m.value, k)
  }

  /** addClean: `cleansMap[k][cb] = clean`, overwriting, even for no cleanup. */
  function WithClean(m: Option<Active>, k: Key, cb: Callback, clean: Option<Clean>): (r: Option<Active>)
    ensures r.Some? && r.value.Keys == Entries(m).Keys + {k}
    ensures CleansAt(r, k) == CleansAt(m, k)[cb := clean]
    ensures forall j :: j != k ==> CleansAt(r, j) == CleansAt(m, j)
    ensures TidyCleanEntries(m) ==> TidyCleans(r)
  {
    var outer := Entries(m);
    var cleans := if k in outer then outer[k] else map[];
    assert cb in cleans[cb := clean];
    Some(outer[k := cleans[cb := clean]])
  }

  /** removeClean: only `cb` leaves the active map of `k`, collapsing as
      removeCallback does. */
  function WithoutClean(m: Option<Active>, k: Key, cb: Callback): (r: Option<Active>)
    ensures CleansAt(r, k) == CleansAt(m, k) - {cb}
    ensures forall j :: j != k ==> CleansAt(r, j) == CleansAt(m, j)
    ensures m.None? ==> r.None?
    ensures TidyCleanEntries(m) ==> TidyCleanEntries(r)
    ensures TidyCleans(m) ==> TidyCleans(r)
    ensures TidyCleans(m) && cb !in CleansAt(m, k) ==> r == m
  {
    if m.None? || k !in m.value then m
    else
      var cleans := m.value[k] - {cb};
      if cleans == map[] then Drop(m.value, k)
      else
        assert cb !in m.value[k] ==> cleans == m.value[k];
        UpdateSame(m.value, k, cleans);
        Some(m.value[k := cleans])
  }

  /** removeCleans: the whole active map of `k` goes. */
  function WithoutCleans(m: Option<Active>, k: Key): (r: Option<Active>)
    ensures CleansAt(r, k) == map[]
    ensures forall j :: j != k ==> CleansAt(r, j) == CleansAt(m, j)
    ensures m.None? ==> r.None?
    ensures TidyCleanEntries(m) ==> TidyCleans(r)
  {
    if m.None? then m else Drop(m.value, k)
  }

  /** One addCallback per element of `cbs`, for the same key. */
  function WithCallbacks(m: Option<Pending>, k: Key, cbs: set<Callback>): (r: Option<Pending>)
    ensures CallbacksAt(r, k) == CallbacksAt(m, k) + cbs
    ensures forall j :: j != k ==> CallbacksAt(r, j) == CallbacksAt(m, j)
    ensures cbs == {} ==> r == m
    ensures TidyCallbacks(m) ==> TidyCallbacks(r)
  {
    if cbs == {} then m else Some(Entries(m)[k := CallbacksAt(m, k) + cbs])
  }

  /** One addClean per entry of `fired`, for the same key. */
  function WithCleans(m: Option<Active>, k: Key, fired: map<Callback, Option<Clean>>): (r: Option<Active>)
    ensures CleansAt(r, k) == CleansAt(m, k) + fired
    ensures forall j :: j != k ==> CleansAt(r, j) == CleansAt(m, j)
    ensures fired == map[] ==> r == m
    ensures TidyCleanEntries(m) ==> TidyCleanEntries(r)
    ensures TidyCleans(m) ==> TidyCleans(r)
  {
    if fired == map[] then m else Some(Entries(m)[k := CleansAt(m, k) + fired])
  }

  lemma WithCallbacksStep(m: Option<Pending>, k: Key, cbs: set<Callback>, cb: Callback)
    ensures WithCallback(WithCallbacks(m, k, cbs), k, cb) == WithCallbacks(m, k, cbs + {cb})
  {
    if cbs != {} {
      var c := CallbacksAt(m, k);
      var outer := Entries(m)[k := c + cbs];
      assert (c + cbs) + {cb} == c + (cbs + {cb});
      assert outer[k := (c + cbs) + {cb}].Keys == Entries(m)[k := c + (cbs + {cb})].Keys;
      assert outer[k := (c + cbs) + {cb}] == Entries(m)[k := c + (cbs + {cb})];
    } else {
      assert cb in cbs + {cb};
      assert cbs + {cb} == {cb};
    }
  }

  lemma WithCleansStep(m: Option<Active>, k: Key, fired: map<Callback, Option<Clean>>, cb: Callback, clean: Option<Clean>)
    ensures WithClean(WithCleans(m, k, fired), k, cb, clean) == WithCleans(m, k, fired[cb := clean])
  {
    var cleans := CleansAt(m, k);
    assert cleans + fired[cb := clean] == (cleans + fired)[cb := clean];
    if fired == map[] {
      assert cb in fired[cb := clean];
      assert cleans + fired[cb := clean] == cleans[cb := clean];
    } else {
      var outer := Entries(m)[k := cleans + fired];
      assert outer[k := (cleans + fired)[cb := clean]] == Entries(m)[k := cleans + fired[cb := clean]];
    }
  }

  // ---------------------------------------------------------------------
  // Moving callbacks between the two sides.
  // ---------------------------------------------------------------------

  /** The cleanups a set of callbacks returns, keyed by callback. */
  function Responses(cbs: set<Callback>, respond: Callback -> Option<Clean>): map<Callback, Option<Clean>>
  {
    map cb | cb in cbs :: respond(cb)
  }

  /** A key's slot after its pending callbacks have all been called. */
  function Fire(slot: Slot, respond: Callback -> Option<Clean>): Slot
  {
    Slot({}, slot.active + Responses(slot.pending, respond))
  }

  /** A key's slot after its active callbacks have all been given back. */
  function Retire(slot: Slot): Slot
  {
    Slot(slot.pending + slot.active.Keys, map[])
  }

  /** The call events of firing `cbs` for `k`. */
  function Invocations(k: Key, cbs: set<Callback>): set<(Key, Callback)>
  {
    set cb | cb in cbs :: (k, cb)
  }

  /** The cleanup events owed when the callbacks `cbs` among the active
      callbacks `cleans` of `k` are given back: one per callback that
      returned a cleanup. */
  function CleanupsDue(k: Key, cleans: map<Callback, Option<Clean>>, cbs: set<Callback>): set<(Key, Callback, Clean)>
  {
    set cb | cb in cbs && cb in cleans && cleans[cb].Some? :: (k, cb, cleans[cb].value)
  }

  /** consumeCallbacks: every pending callback of `k` has been called and
      sits in `cleansMap[k]` with its result; `k` leaves `callbacksMap`. */
  function ConsumedCallbacks(s: Ledger, k: Key, respond: Callback -> Option<Clean>): (t: Ledger)
    ensures At(t, k) == Fire(At(s, k), respond)
    ensures forall j :: j != k ==> At(t, j) == At(s, j)
    ensures Tidy(s) ==> Tidy(t)
    ensures Registered(At(t, k)) == Registered(At(s, k))
    ensures Exclusive(At(t, k))
  {
    if s.callbacksMap.None? || k !in s.callbacksMap.value then s
    else
      var callbacks := s.callbacksMap.value[k];
      Ledger(WithoutCallbacks(s.callbacksMap, k), WithCleans(s.cleansMap, k, Responses(callbacks, respond)))
  }

  /** consumeCleans: every active callback of `k` is pending again and `k`
      leaves `cleansMap`. */
  function ConsumedCleans(s: Ledger, k: Key): (t: Ledger)
    ensures At(t, k) == Retire(At(s, k))
    ensures forall j :: j != k ==> At(t, j) == At(s, j)
    ensures Tidy(s) ==> Tidy(t)
    ensures TidyCallbacks(s.callbacksMap) && TidyCleanEntries(s.cleansMap)
            ==> TidyCallbacks(t.callbacksMap) && TidyCleanEntries(t.cleansMap)
    ensures Registered(At(t, k)) == Registered(At(s, k))
    ensures Exclusive(At(t, k))
  {
    if s.cleansMap.None? || k !in s.cleansMap.value then s
    else
      var cleans := s.cleansMap.value[k];
      Ledger(WithCallbacks(s.callbacksMap, k, cleans.Keys), WithoutCleans(s.cleansMap, k))
  }

  // ---------------------------------------------------------------------
  // Properties.
  // ---------------------------------------------------------------------

  lemma {:induction false} CallbacksDetermined(m: Option<Pending>, n: Option<Pending>)
    requires TidyCallbacks(m) && TidyCallbacks(n)
    requires forall k :: CallbacksAt(m, k) == CallbacksAt(n, k)
    ensures m == n
  {
    if m.Some? {
      var k :| k in m.value;
      assert CallbacksAt(n, k) != {};
    }
    if n.Some? {
      var k :| k in n.value;
      assert CallbacksAt(m, k) != {};
    }
    if m.Some? && n.Some? {
      forall k ensures k in m.value <==> k in n.value {
        assert CallbacksAt(m, k) == CallbacksAt(n, k);
      }
      forall k | k in m.value ensures m.value[k] == n.value[k] {
        assert CallbacksAt(m, k) == CallbacksAt(n, k);
      }
      assert m.value.Keys == n.value.Keys;
      assert m.value == n.value;
    }
  }

  lemma {:induction false} CleansDetermined(m: Option<Active>, n: Option<Active>)
    requires TidyCleans(m) && TidyCleans(n)
    requires forall k :: CleansAt(m, k) == CleansAt(n, k)
    ensures m == n
  {
    if m.Some? {
      var k :| k in m.value;
      assert CleansAt(n, k) != map[];
    }
    if n.Some? {
      var k :| k in n.value;
      assert CleansAt(m, k) != map[];
    }
    if m.Some? && n.Some? {
      forall k ensures k in m.value <==> k in n.value {
        assert CleansAt(m, k) == CleansAt(n, k);
      }
      forall k | k in m.value ensures m.value[k] == n.value[k] {
        assert CleansAt(m, k) == CleansAt(n, k);
      }
      assert m.value.Keys == n.value.Keys;
      assert m.value == n.value;
    }
  }

  /** A tidy ledger is determined by what it holds for each key. */
  lemma {:induction false} SlotsDetermine(s: Ledger, t: Ledger)
    requires Tidy(s) && Tidy(t)
    requires forall k :: At(s, k) == At(t, k)
    ensures s == t
  {
    forall k ensures CallbacksAt(s.callbacksMap, k) == CallbacksAt(t.callbacksMap, k)
                  && CleansAt(s.cleansMap, k) == CleansAt(t.cleansMap, k)
    {
      assert At(s, k) == At(t, k);
    }
    CallbacksDetermined(s.callbacksMap, t.callbacksMap);
    CleansDetermined(s.cleansMap, t.cleansMap);
  }

  /** Giving back what was just fired restores a slot that had nothing active. */
  lemma RetireUndoesFire(slot: Slot, respond: Callback -> Option<Clean>)
    requires slot.active == map[]
    ensures Retire(Fire(slot, respond)) == slot
  {
  }

  /** consumeCallbacks then consumeCleans on a key with nothing active gives
      back exactly the registry it started from. */
  lemma {:induction false} ConsumeRoundTrip(s: Ledger, k: Key, respond: Callback -> Option<Clean>)
    requires Tidy(s)
    requires CleansAt(s.cleansMap, k) == map[]
    ensures ConsumedCleans(ConsumedCallbacks(s, k, respond), k) == s
  {
    var t := ConsumedCleans(ConsumedCallbacks(s, k, respond), k);
    forall j ensures At(t, j) == At(s, j) {
      if j == k {
        RetireUndoesFire(At(s, k), respond);
      }
    }
    SlotsDetermine(t, s);
  }

  /** Both moves keep every registered pair on exactly one side. */
  lemma ConsumeKeepsExclusive(s: Ledger, k: Key, respond: Callback -> Option<Clean>)
    requires forall j :: Exclusive(At(s, j))
    ensures forall j :: Exclusive(At(ConsumedCallbacks(s, k, respond), j))
    ensures forall j :: Exclusive(At(ConsumedCleans(s, k), j))
  {
  }

  lemma InvocationsStep(k: Key, cbs: set<Callback>, cb: Callback)
    requires cb !in cbs
    ensures (k, cb) !in Invocations(k, cbs)
    ensures Invocations(k, cbs + {cb}) == Invocations(k, cbs) + {(k, cb)}
  {
  }

  lemma CleanupsDueStep(k: Key, cleans: map<Callback, Option<Clean>>, cbs: set<Callback>, cb: Callback)
    requires cb !in cbs && cb in cleans
    ensures cleans[cb].Some? ==> (k, cb, cleans[cb].value) !in CleanupsDue(k, cleans, cbs)
    ensures CleanupsDue(k, cleans, cbs + {cb})
         == CleanupsDue(k, cleans, cbs) + (if cleans[cb].Some? then {(k, cb, cleans[cb].value)} else {})
  {
  }
}
