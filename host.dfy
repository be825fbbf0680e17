/**
 * The user code the engine drives. Callbacks and cleanups are opaque: calling
 * a callback yields the cleanup the oracle `respond` assigns to it, and every
 * call, every cleanup run and every event forwarded to the consumer's own
 * handler is appended to a ghost trace, so that contracts can say what ran
 * and how often.
 */
module Host {
  import opened Values

  /** `s` lists every element of `xs` exactly once, in some order. */
  ghost predicate Enumerates<T>(s: seq<T>, xs: set<T>)
    decreases |s|
  {
    if s == [] then xs == {}
    else
      var x := s[|s| - 1];
      x in xs && Enumerates(s[..|s| - 1], xs - {x})
  }

  /** An enumeration holds each element once: as a multiset it is the set. */
  lemma {:induction false} EnumeratesCounts<T>(s: seq<T>, xs: set<T>)
    requires Enumerates(s, xs)
    ensures multiset(s) == multiset(xs) && |s| == |xs|
    decreases |s|
  {
    if s != [] {
      var x := s[|s| - 1];
      EnumeratesCounts(s[..|s| - 1], xs - {x});
      assert s == s[..|s| - 1] + [x];
      assert xs == (xs - {x}) + {x};
    }
  }

  lemma EnumeratesSnoc<T>(s: seq<T>, xs: set<T>, x: T)
    requires Enumerates(s, xs) && x !in xs
    ensures Enumerates(s + [x], xs + {x})
  {
  }

  lemma {:induction false} EnumeratesConcat<T>(a: seq<T>, b: seq<T>, xs: set<T>, ys: set<T>)
    requires Enumerates(a, xs) && Enumerates(b, ys) && xs !! ys
    ensures Enumerates(a + b, xs + ys)
    decreases |b|
  {
    if b == [] {
      assert a + b == a && xs + ys == xs;
    } else {
      var y := b[|b| - 1];
      var b' := b[..|b| - 1];
      EnumeratesConcat(a, b', xs, ys - {y});
      assert a + b == (a + b') + [y];
      assert xs + ys == (xs + (ys - {y})) + {y};
      EnumeratesSnoc(a + b', xs + (ys - {y}), y);
    }
  }

  /** `after` is `before` followed by each element of `added` exactly once. */
  ghost predicate Appended<T>(before: seq<T>, after: seq<T>, added: set<T>)
  {
    |before| <= |after| && after[..|before|] == before && Enumerates(after[|before|..], added)
  }

  lemma AppendedIntro<T>(before: seq<T>, log: seq<T>, added: set<T>)
    requires Enumerates(log, added)
    ensures Appended(before, before + log, added)
  {
  }

  /** Appending one more new element to a trace extends what it enumerates. */
  lemma AppendedSnoc<T>(before: seq<T>, after: seq<T>, xs: set<T>, x: T)
    requires Appended(before, after, xs) && x !in xs
    ensures Appended(before, after + [x], xs + {x})
  {
    assert (after + [x])[..|before|] == before;
    assert (after + [x])[|before|..] == after[|before|..] + [x];
    EnumeratesSnoc(after[|before|..], xs, x);
  }

  lemma AppendedTrans<T>(a: seq<T>, b: seq<T>, c: seq<T>, xs: set<T>, ys: set<T>)
    requires Appended(a, b, xs) && Appended(b, c, ys) && xs !! ys
    ensures Appended(a, c, xs + ys)
  {
    assert c[..|a|] == b[..|a|];
    assert c[|a|..] == b[|a|..] + c[|b|..];
    EnumeratesConcat(b[|a|..], c[|b|..], xs, ys);
  }

  class Effects {
    /** What each callback returns when called: a cleanup, or nothing. */
    const respond: Callback -> Option<Clean>
    /** Callback invocations, each tagged with the item key it fired for. */
    ghost var calls: seq<(Key, Callback)>
    /** Cleanup invocations: key, the callback that returned it, the cleanup. */
    ghost var cleanups: seq<(Key, Callback, Clean)>
    /** Events handed on to the consumer's `onViewableItemsChanged`. */
    ghost var forwarded: seq<ViewableItemsChanged>

    constructor (respond: Callback -> Option<Clean>)
      ensures this.respond == respond
      ensures calls == [] && cleanups == [] && forwarded == []
    {
      this.respond := respond;
      calls, cleanups, forwarded := [], [], [];
    }

    /** `const clean = callback();` */
    method Call(key: Key, callback: Callback) returns (clean: Option<Clean>)
      modifies this
      ensures clean == respond(callback)
      ensures calls == old(calls) + [(key, callback)]
      ensures cleanups == old(cleanups) && forwarded == old(forwarded)
    {
      clean := respond(callback);
      calls := calls + [(key, callback)];
    }

    /** `clean();` */
    method RunClean(key: Key, callback: Callback, clean: Clean)
      modifies this
      ensures cleanups == old(cleanups) + [(key, callback, clean)]
      ensures calls == old(calls) && forwarded == old(forwarded)
    {
      cleanups := cleanups + [(key, callback, clean)];
    }

    /** `onViewableItemsChanged?.({ changed, viewableItems })` */
    method Forward(event: ViewableItemsChanged)
      modifies this
      ensures forwarded == old(forwarded) + [event]
      ensures calls == old(calls) && cleanups == old(cleanups)
    {
      forwarded := forwarded + [event];
    }
  }
}
