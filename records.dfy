/** A JavaScript object used as a dictionary (`Record<string, V>`). Its keys
    here are never array indices, so `Object.keys` lists them in the order in
    which they were first assigned. */
module Records {
  import opened Text
  import opened Lists

  datatype Record<V> = Record(keys: seq<string>, entries: map<string, V>) {

    /** `keys` lists every key of `entries` once. */
    ghost predicate Valid() {
      && Distinct(keys)
      && (forall k :: k in entries <==> k in keys)
    }

    /** The assignment `record[k] = v`: k now maps to v, every other key keeps
        its value, and a key that is new goes to the end of the key order. */
    function Set(k: string, v: V): (r: Record<V>)
      ensures Valid() ==> r.Valid()
      ensures k in r.entries && r.entries[k] == v
      ensures forall k' | k' != k :: (k' in r.entries <==> k' in entries)
      ensures forall k' | k' != k && k' in entries :: r.entries[k'] == entries[k']
      ensures k in entries ==> r.keys == keys
      ensures k !in entries ==> r.keys == keys + [k]
    {
      Record(if k in entries then keys else keys + [k], entries[k := v])
    }
  }

  /** The literal `{}`. */
  function EmptyRecord<V>(): (r: Record<V>)
    ensures r.Valid() && r.keys == [] && r.entries == map[]
  {
    Record([], map[])
  }
}
