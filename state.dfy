/**
 * The key/value store steps use to hand results to each other: a map from
 * string keys to values of any one type, read with Get and written in place
 * with Set.
 */
module SagaState {

  /** The error Get reports for a key that holds no value. */
  datatype StateError = ErrNoKey

  /** What Get returns: the stored value, or an error and no value. */
  datatype Lookup<V> = Found(value: V) | Missing(error: StateError)

  class State<V> {
    var entries: map<string, V>

    /** A new store is empty: every Get fails with ErrNoKey. */
    constructor ()
      ensures entries == map[]
      ensures forall key :: Get(key) == Missing(ErrNoKey)
    {
      entries := map[];
    }

    /** The value stored under `key`, or ErrNoKey when there is none. */
    function Get(key: string): (r: Lookup<V>)
      reads this
      ensures r.Missing? <==> key !in entries
      ensures r.Missing? ==> r.error == ErrNoKey
      ensures r.Found? ==> key in entries && r.value == entries[key]
    {
      if key in entries then Found(entries[key]) else Missing(ErrNoKey)
    }

    /**
     * Stores `value` under `key`, replacing any earlier value; every other
     * key keeps its presence and its value.
     */
    method Set(key: string, value: V)
      modifies this
      ensures entries == old(entries)[key := value]
      ensures Get(key) == Found(value)
      ensures forall other :: other != key ==> Get(other) == old(Get(other))
    {
      entries := entries[key := value];
    }
  }
}
