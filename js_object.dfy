/**
 * A plain JavaScript object used as a dictionary. Its own properties are listed in
 * insertion order (the order `Object.entries` and `for...of` see them, for keys that
 * are not array indices); assigning to a key already present replaces its value and
 * keeps its place.
 */
module JsObject {
  import opened Wrappers

  datatype Entry<V> = Entry(key: string, value: V)

  /** The object's own properties, in iteration order. */
  type Dict<V> = seq<Entry<V>>

  /** `Object.keys(d)`. */
  function Keys<V>(d: Dict<V>): seq<string>
  {
    if d == [] then [] else [d[0].key] + Keys(d[1..])
  }

  /** One key per property, in the order of the properties. */
  lemma {:induction false} KeysAt<V>(d: Dict<V>)
    ensures |Keys(d)| == |d|
    ensures forall i :: 0 <= i < |d| ==> Keys(d)[i] == d[i].key
  {
    if d != [] {
      KeysAt(d[1..]);
    }
  }

  /** No key is listed twice: true of every object value. */
  ghost predicate DistinctKeys<V>(d: Dict<V>)
  {
    forall i, j :: 0 <= i < j < |d| ==> d[i].key != d[j].key
  }

  /** `d[k]`, with `None` for a key the object does not have. */
  function Get<V>(d: Dict<V>, k: string): (r: Option<V>)
    ensures r.Some? <==> k in Keys(d)
  {
    if d == [] then None
    else if d[0].key == k then Some(d[0].value)
    else Get(d[1..], k)
  }

  /** What a lookup finds is the value of a property with that key. */
  lemma {:induction false} GetEntry<V>(d: Dict<V>, k: string)
    ensures Get(d, k).Some? ==> Entry(k, Get(d, k).value) in d
  {
    if d != [] && d[0].key != k {
      GetEntry(d[1..], k);
    }
  }

  /** With distinct keys, a lookup finds the value of the one property with that key. */
  lemma {:induction false} GetDistinct<V>(d: Dict<V>, e: Entry<V>)
    requires DistinctKeys(d) && e in d
    ensures Get(d, e.key) == Some(e.value)
  {
    if d[0] != e {
      assert e in d[1..];
      GetDistinct(d[1..], e);
    }
  }

  /** `d[k] = v`. */
  function Put<V>(d: Dict<V>, k: string, v: V): (r: Dict<V>)
    ensures Get(r, k) == Some(v)
    ensures forall k' :: k' != k ==> Get(r, k') == Get(d, k')
  {
    if d == [] then [Entry(k, v)]
    else if d[0].key == k then [Entry(k, v)] + d[1..]
    else [d[0]] + Put(d[1..], k, v)
  }

  /** A lookup after an assignment: the assigned value under its key, the old one elsewhere. */
  lemma GetAfterPut<V>(d: Dict<V>, k: string, v: V, k': string)
    ensures Get(Put(d, k, v), k') == if k' == k then Some(v) else Get(d, k')
  {
  }

  /** After an assignment, a key is present when it is the assigned one or was present before. */
  lemma GetPut<V>(d: Dict<V>, k: string, v: V, k': string)
    ensures Get(Put(d, k, v), k').Some? <==> k' == k || Get(d, k').Some?
  {
  }

  /** Assigning appends a new key at the end and leaves an existing key where it is. */
  lemma {:induction false} PutKeys<V>(d: Dict<V>, k: string, v: V)
    ensures Keys(Put(d, k, v)) == if k in Keys(d) then Keys(d) else Keys(d) + [k]
  {
    var r := Put(d, k, v);
    if d == [] {
      assert Keys(r) == [k];
    } else if d[0].key == k {
      assert r[1..] == d[1..];
      assert Keys(r) == [k] + Keys(d[1..]);
    } else {
      var tail := d[1..];
      PutKeys(tail, k, v);
      assert r[1..] == Put(tail, k, v);
      assert Keys(r) == [d[0].key] + Keys(Put(tail, k, v));
      if k !in Keys(tail) {
        assert [d[0].key] + (Keys(tail) + [k]) == [d[0].key] + Keys(tail) + [k];
      }
    }
  }

  /** Assigning never makes a key appear twice. */
  lemma {:induction false} PutDistinct<V>(d: Dict<V>, k: string, v: V)
    requires DistinctKeys(d)
    ensures DistinctKeys(Put(d, k, v))
  {
    var r := Put(d, k, v);
    PutKeys(d, k, v);
    KeysAt(d);
    KeysAt(r);
    forall i, j | 0 <= i < j < |r| ensures r[i].key != r[j].key {
      assert Keys(r)[i] == r[i].key && Keys(r)[j] == r[j].key;
      if k in Keys(d) {
        assert Keys(d)[i] == d[i].key && Keys(d)[j] == d[j].key;
      } else if j < |d| {
        assert Keys(d)[i] == d[i].key && Keys(d)[j] == d[j].key;
      } else {
        assert Keys(r)[j] == k;
        assert Keys(d)[i] == d[i].key;
      }
    }
  }
}
