/** Small vocabulary shared by every component of the model. */
module Prelude {

  datatype Option<+T> = None | Some(value: T)

  datatype Result<+T, +E> = Ok(value: T) | Err(error: E)

  /** Reads one key of a map-backed store. */
  function Lookup<K, V>(m: map<K, V>, k: K): Option<V> {
    if k in m then Some(m[k]) else None
  }

  /** Writes (or, for None, removes) one key of a map-backed store. */
  function WithSlot<K, V>(m: map<K, V>, k: K, slot: Option<V>): map<K, V> {
    match slot
    case Some(v) => m[k := v]
    case None => m - {k}
  }

  /** JWT times are whole seconds: the server's "now" is the floor of its millisecond clock. */
  function Seconds(ms: int): int {
    ms / 1000
  }

  /** DynamoDB TTL attributes are epoch seconds, rounded up from milliseconds. */
  function CeilSeconds(ms: int): int {
    (ms + 999) / 1000
  }

  /** A DynamoDB sweeper may remove an item only when its TTL second is strictly in the past. */
  predicate TtlPassed(expiresAt: int, clock: int) {
    CeilSeconds(expiresAt) < Seconds(clock)
  }

  /** A subset has no more members than the whole, and a proper subset has fewer. */
  lemma {:induction false} SubsetBound<T>(small: set<T>, large: set<T>)
    requires small <= large
    ensures |small| <= |large|
    ensures small < large ==> |small| < |large|
  {
    if small != {} {
      var x :| x in small;
      SubsetBound(small - {x}, large - {x});
      assert small < large ==> small - {x} < large - {x};
    } else if small < large {
      var y :| y in large;
    }
  }
}
