/**
  The extension's `LocalStorage`: a key-value store whose keys are content
  hashes. Values are kept as records rather than as JSON text, since every
  value the commands write is `JSON.stringify` of a record and every value they
  read is passed to `JSON.parse`.
 */
module LocalStore {
  import opened ImageTypes

  type Items = map<string, ImageRecord>

  /** `keys` lists every key of `m` exactly once, in some order. */
  ghost predicate Enumerates(keys: seq<string>, m: Items) {
    && (forall i, j :: 0 <= i < j < |keys| ==> keys[i] != keys[j])
    && (forall k :: k in keys <==> k in m)
  }

  /** The values stored under `keys`, in the order of `keys`. */
  function ValuesAt(m: Items, keys: seq<string>): (vs: seq<ImageRecord>)
    requires forall k :: k in keys ==> k in m
    ensures |vs| == |keys|
    ensures forall i :: 0 <= i < |keys| ==> vs[i] == m[keys[i]]
  {
    seq(|keys|, i requires 0 <= i < |keys| => m[keys[i]])
  }

  /** Records that carry a `hash` are stored under that hash. */
  ghost predicate KeysNamed(items: Items) {
    forall k :: k in items && items[k].hash.Some? ==> items[k].hash.value == k
  }

  /** A sequence without repetitions has as many elements as its set. */
  lemma {:induction false} DistinctCardinality(keys: seq<string>)
    requires forall i, j :: 0 <= i < j < |keys| ==> keys[i] != keys[j]
    ensures |set k | k in keys| == |keys|
  {
    if keys != [] {
      var rest := keys[1..];
      DistinctCardinality(rest);
      assert (set k | k in keys) == (set k | k in rest) + {keys[0]};
      assert keys[0] !in rest;
    }
  }

  /** An enumeration of a store has one entry per key. */
  lemma EnumerationLength(keys: seq<string>, m: Items)
    requires Enumerates(keys, m)
    ensures |keys| == |m|
  {
    DistinctCardinality(keys);
    assert (set k | k in keys) == m.Keys;
  }

  class Store {
    var items: Items

    constructor (initial: Items)
      ensures items == initial
    {
      items := initial;
    }

    /** `LocalStorage.getItem`: the record under `key`, if there is one. */
    method GetItem(key: string) returns (r: Option<ImageRecord>)
      ensures r.Some? <==> key in items
      ensures r.Some? ==> r.value == items[key]
    {
      r := if key in items then Some(items[key]) else None;
    }

    /** `LocalStorage.setItem`: writes (or overwrites) `key`, and no other key. */
    method SetItem(key: string, value: ImageRecord)
      modifies this
      ensures items == old(items)[key := value]
    {
      items := items[key := value];
    }

    /** `LocalStorage.removeItem`: drops `key` if present, and no other key. */
    method RemoveItem(key: string)
      modifies this
      ensures items == old(items) - {key}
    {
      items := items - {key};
    }

    /**
      `LocalStorage.allItems` followed by `Object.values`: every stored record,
      one per key. The order in which keys come out is left unspecified.
     */
    method AllItems() returns (keys: seq<string>, values: seq<ImageRecord>)
      ensures Enumerates(keys, items)
      ensures forall k :: k in keys ==> k in items
      ensures values == ValuesAt(items, keys)
    {
      var rest := items.Keys;
      keys, values := [], [];
      while rest != {}
        invariant rest <= items.Keys
        invariant forall i, j :: 0 <= i < j < |keys| ==> keys[i] != keys[j]
        invariant forall k :: k in keys ==> k in items && k !in rest
        invariant forall k :: k in items ==> k in rest || k in keys
        invariant |values| == |keys|
        invariant forall i :: 0 <= i < |keys| ==> values[i] == items[keys[i]]
        decreases rest
      {
        var k :| k in rest;
        keys, values := keys + [k], values + [items[k]];
        rest := rest - {k};
      }
    }
  }
}
