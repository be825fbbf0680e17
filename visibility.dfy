/**
 * Recursive visibility and the cascading `enabled` switch of src/observe.tsx.
 *
 * A list nested inside a row of another observed list asks its parent, on
 * every query, whether its own row is visible there; the parent asks its own
 * parent in turn. The chain of enclosing lists is finite, so it is given
 * explicitly: `ancestors[0]` is the parent list (its viewable keys, and the
 * key of the row holding this list), `ancestors[1]` the grandparent (and the
 * key of the parent's row in it), and so on. An empty chain is a root list,
 * whose item context is the default one.
 */
module Visibility {
  import opened Values

  /** One enclosing list: what it currently sees, and the key of the row
      that holds the list one level further in. */
  datatype Frame = Frame(viewableKeys: set<Key>, rowKey: Key)

  /** Every enclosing list sees the row that holds the next list in. */
  predicate RowsVisible(ancestors: seq<Frame>)
  {
    forall i :: 0 <= i < |ancestors| ==> ancestors[i].rowKey in ancestors[i].viewableKeys
  }

  /** The item context's `isInViewPort(key)` as seen by a list: `undefined`
      at the root (the default context), otherwise the parent list's own
      `isInViewPortRecursively` applied to this list's row key. */
  function ParentInViewPort(ancestors: seq<Frame>): (r: Option<bool>)
    ensures r.None? <==> ancestors == []
    ensures r.Some? ==> (r.value <==> RowsVisible(ancestors))
    decreases |ancestors|, 0
  {
    if ancestors == [] then None
    else
      var verdict := InViewPortRecursively(ancestors[0].viewableKeys, ancestors[1..], ancestors[0].rowKey);
      assert RowsVisible(ancestors) <==> ancestors[0].rowKey in ancestors[0].viewableKeys && RowsVisible(ancestors[1..]) by {
        if RowsVisible(ancestors[1..]) && ancestors[0].rowKey in ancestors[0].viewableKeys {
          forall i | 0 <= i < |ancestors| ensures ancestors[i].rowKey in ancestors[i].viewableKeys {
            if i > 0 {
              assert ancestors[i] == ancestors[1..][i - 1];
            }
          }
        }
      }
      Some(verdict)
  }

  /** `isInViewPortRecursively(itemKey)`: local membership, and the parent's
      verdict on this list's row when there is a parent. A key is visible
      exactly when it is viewable here and every enclosing row is viewable
      in its own list. */
  function InViewPortRecursively(viewableKeys: set<Key>, ancestors: seq<Frame>, itemKey: Key): (r: bool)
    ensures r <==> itemKey in viewableKeys && RowsVisible(ancestors)
    decreases |ancestors|, 1
  {
    var isInParentViewPort := ParentInViewPort(ancestors);
    var inViewPort := itemKey in viewableKeys;
    if isInParentViewPort.None? then inViewPort else inViewPort && isInParentViewPort.value
  }

  /** An outer row that is not viewable hides every item of the lists inside
      it, whatever those lists report themselves. */
  lemma HiddenRowHidesNested(viewableKeys: set<Key>, ancestors: seq<Frame>, itemKey: Key, i: nat)
    requires i < |ancestors| && ancestors[i].rowKey !in ancestors[i].viewableKeys
    ensures !InViewPortRecursively(viewableKeys, ancestors, itemKey)
  {
  }

  /** `parentEnabled && $$enabled !== false`: only an explicit `false`
      switches a list off, and a list is never on when its parent is off.
      What this means over a whole chain of nested lists is stated by
      EnabledCascade and DisabledStaysDisabled. */
  function Enabled(parentEnabled: bool, localEnabled: Option<bool>): (r: bool)
    ensures r ==> parentEnabled
    ensures localEnabled == Some(false) ==> !r
    ensures parentEnabled && localEnabled != Some(false) ==> r
  {
    parentEnabled && localEnabled != Some(false)
  }

  /** The switch of the list nested `|overrides|` levels deep, each level
      giving its own `$$enabled`; the root's context default is `true`. */
  function EnabledAt(overrides: seq<Option<bool>>): bool
    decreases |overrides|
  {
    if overrides == [] then true
    else Enabled(EnabledAt(overrides[..|overrides| - 1]), overrides[|overrides| - 1])
  }

  /** The cascade: a list is on exactly when no list on its path from the
      root, itself included, was given `$$enabled = false`. */
  lemma {:induction false} EnabledCascade(overrides: seq<Option<bool>>)
    ensures EnabledAt(overrides) <==> forall i :: 0 <= i < |overrides| ==> overrides[i] != Some(false)
    decreases |overrides|
  {
    if overrides != [] {
      var init := overrides[..|overrides| - 1];
      EnabledCascade(init);
      assert forall i :: 0 <= i < |init| ==> init[i] == overrides[i];
    }
  }

  /** Narrowing: switching a list off switches off everything nested in it. */
  lemma {:induction false} DisabledStaysDisabled(overrides: seq<Option<bool>>, more: seq<Option<bool>>)
    requires !EnabledAt(overrides)
    ensures !EnabledAt(overrides + more)
    decreases |more|
  {
    if more == [] {
      assert overrides + more == overrides;
    } else {
      var init := more[..|more| - 1];
      assert (overrides + more)[..|overrides + more| - 1] == overrides + init;
      DisabledStaysDisabled(overrides, init);
    }
  }
}
