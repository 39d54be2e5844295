/**
 * A plain JavaScript object used as a dictionary: its properties in
 * insertion order, as `Object.keys` lists them. `Put` is property
 * assignment `o[k] = v`: an existing key keeps its place and takes the new
 * value, a new key goes to the end.
 */
module JsObject {
  import opened Wrappers

  datatype Entry<K, V> = Entry(key: K, value: V)

  /** `Object.keys(o)`. */
  function Keys<K, V>(o: seq<Entry<K, V>>): (ks: seq<K>)
    ensures |ks| == |o|
    ensures forall i :: 0 <= i < |o| ==> ks[i] == o[i].key
  {
    if o == [] then [] else [o[0].key] + Keys(o[1..])
  }

  /** No key is listed twice: the shape every object has. */
  predicate UniqueKeys<K(==), V>(o: seq<Entry<K, V>>)
  {
    forall i, j :: 0 <= i < j < |o| ==> o[i].key != o[j].key
  }

  /** `o[k]`: the value stored under `k`, `None` for `undefined`. */
  function Get<K(==), V>(o: seq<Entry<K, V>>, k: K): (r: Option<V>)
    ensures r.Some? <==> k in Keys(o)
  {
    if o == [] then None
    else if o[0].key == k then Some(o[0].value)
    else Get(o[1..], k)
  }

  /** `o[k] = v`. */
  function Put<K(==), V>(o: seq<Entry<K, V>>, k: K, v: V): (r: seq<Entry<K, V>>)
    ensures |r| == if k in Keys(o) then |o| else |o| + 1
  {
    if o == [] then [Entry(k, v)]
    else if o[0].key == k then [Entry(k, v)] + o[1..]
    else [o[0]] + Put(o[1..], k, v)
  }

  /** After `o[k] = v`, reading `k` gives `v` and every other key reads as before. */
  lemma {:induction false} GetPut<K, V>(o: seq<Entry<K, V>>, k: K, v: V, k': K)
    ensures Get(Put(o, k, v), k') == if k' == k then Some(v) else Get(o, k')
  {
    if o != [] && o[0].key != k {
      var r := Put(o, k, v);
      assert r[0] == o[0] && r[1..] == Put(o[1..], k, v);
      GetPut(o[1..], k, v, k');
    } else if o != [] {
      assert Put(o, k, v)[1..] == o[1..];
    }
  }

  /** Assignment keeps the key order and appends a new key at the end. */
  lemma {:induction false} KeysPut<K, V>(o: seq<Entry<K, V>>, k: K, v: V)
    ensures Keys(Put(o, k, v)) == if k in Keys(o) then Keys(o) else Keys(o) + [k]
  {
    if o != [] {
      var r := Put(o, k, v);
      if o[0].key == k {
        assert r[1..] == o[1..];
      } else {
        assert r[1..] == Put(o[1..], k, v);
        KeysPut(o[1..], k, v);
        assert Keys(o) == [o[0].key] + Keys(o[1..]);
      }
    }
  }

  /** Assignment never lists a key twice. */
  lemma {:induction false} UniquePut<K, V>(o: seq<Entry<K, V>>, k: K, v: V)
    requires UniqueKeys(o)
    ensures UniqueKeys(Put(o, k, v))
  {
    var r := Put(o, k, v);
    KeysPut(o, k, v);
    assert forall i :: 0 <= i < |r| ==> r[i].key == Keys(r)[i];
    assert forall i :: 0 <= i < |o| ==> o[i].key == Keys(o)[i];
  }
}
