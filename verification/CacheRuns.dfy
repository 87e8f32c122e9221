/** Runs of operations on a replacement cache: what callers do to it, and what they may find in it. */
module CacheRuns {
  import opened Recency

  datatype Op<K, V> = AddOp(key: K, value: V) | GetOp(key: K) | RemoveOp(key: K) | PurgeOp

  /** The value last added under each key and not removed or purged since. */
  function Noted<K, V>(latest: map<K, V>, op: Op<K, V>): map<K, V> {
    match op
    case AddOp(k, v) => latest[k := v]
    case GetOp(_) => latest
    case RemoveOp(k) => latest - {k}
    case PurgeOp => map[]
  }

  function LastAdded<K, V>(ops: seq<Op<K, V>>, latest: map<K, V>): map<K, V> {
    if ops == [] then latest else LastAdded(ops[1..], Noted(latest, ops[0]))
  }

  /** Every entry cached is the latest of its key. */
  ghost predicate Agrees<K(!new), V(!new)>(cached: seq<Entry<K, V>>, latest: map<K, V>) {
    forall e :: e in cached ==> e.key in latest && latest[e.key] == e.value
  }
}
