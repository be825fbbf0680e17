/**
 * The values the visibility engine handles: item keys (arbitrary JavaScript
 * values), opaque user callbacks and the cleanups they return, and the
 * payload of the host list's "viewable items changed" event.
 */
module Values {

  datatype Option<+T> = None | Some(value: T)

  /** A JavaScript value, as far as the engine looks at it: it compares keys
      for equality and tests the item key for truthiness. */
  datatype Value =
    | Undefined
    | Null
    | Bool(b: bool)
    | Num(n: int)
    | Str(s: string)
    | Ref(id: nat)       // an object or function, compared by identity

  /** Item keys are whatever the key extractor (or the item itself) yields. */
  type Key = Value

  /** JavaScript truthiness (`if (!key) return;`): the falsy values are
      exactly `undefined`, `null`, `false`, `0` and the empty string. */
  function Truthy(v: Value): (r: bool)
    ensures !r <==> v == Undefined || v == Null || v == Bool(false) || v == Num(0) || v == Str("")
  {
    match v
    case Undefined => false
    case Null => false
    case Bool(b) => b
    case Num(n) => n != 0
    case Str(s) => s != ""
    case Ref(_) => true
  }

  /** A user callback `() => Clean | undefined | void`, by identity. */
  datatype Callback = Callback(id: nat)

  /** A cleanup function a callback returned, by identity. */
  datatype Clean = Clean(id: nat)

  /** One entry of `viewableItems`. */
  datatype ViewToken = ViewToken(item: Value, isViewable: bool)

  /** The payload `{ changed, viewableItems }`; entries may be null. */
  datatype ViewableItemsChanged =
    ViewableItemsChanged(changed: seq<ViewToken>, viewableItems: seq<Option<ViewToken>>)

  /** The key of an item, computed the same way where a row is rendered and
      where a viewability event is read: the extractor's result when the list
      was given a key extractor, and otherwise the item itself. */
  function KeyOf(item: Value, keyExtractor: Option<Value -> Value>): (r: Key)
    ensures keyExtractor.None? ==> r == item
    ensures keyExtractor.Some? ==> r == keyExtractor.value(item)
  {
    if keyExtractor.Some? then keyExtractor.value(item) else item
  }
}
