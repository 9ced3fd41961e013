/** A plain JavaScript object used as a dictionary with string keys: its
    own properties in insertion order, which is the order `Object.keys`
    lists them and `JSON.stringify` writes them. Assigning to a present key
    replaces the value in place; assigning to a new key appends it. */
module JsObject {
  import opened Results
  import opened Unique

  datatype Obj<V> = Obj(entries: seq<(string, V)>)

  function Empty<V>(): Obj<V> {
    Obj([])
  }

  /** `Object.keys(o)`. */
  function Keys<V>(o: Obj<V>): seq<string> {
    seq(|o.entries|, i requires 0 <= i < |o.entries| => o.entries[i].0)
  }

  /** Every key is held once, as for a real object. */
  predicate Valid<V>(o: Obj<V>) {
    NoDup(Keys(o))
  }

  /** `o[k]`, with None for a missing property. */
  function Get<V>(o: Obj<V>, k: string): (r: Option<V>)
    ensures r.None? <==> k !in Keys(o)
  {
    if k in Keys(o) then Some(o.entries[FirstIndex(Keys(o), k)].1) else None
  }

  /** `o[k] = v`: the value is replaced where the key already sits, or
      the key is appended. */
  function Put<V>(o: Obj<V>, k: string, v: V): (r: Obj<V>)
    ensures Get(r, k) == Some(v)
    ensures forall k' :: k' != k ==> Get(r, k') == Get(o, k')
    ensures Keys(r) == if k in Keys(o) then Keys(o) else Keys(o) + [k]
    ensures Valid(o) ==> Valid(r)
  {
    var ks := Keys(o);
    if k in ks then
      var i := FirstIndex(ks, k);
      var r := Obj(o.entries[i := (k, v)]);
      assert Keys(r) == ks;
      r
    else
      var r := Obj(o.entries + [(k, v)]);
      assert Keys(r) == ks + [k];
      FirstIndexUnique(ks + [k], k, |ks|);
      assert (ks + [k])[..|ks|] == ks;
      forall k' | k' in ks ensures FirstIndex(ks + [k], k') == FirstIndex(ks, k') {
        FirstIndexPrefix(ks, k', k);
      }
      r
  }

  /** An object whose keys are the distinct names of `ks`, in first
      occurrence order, keeps that shape when one more name is written. */
  lemma PutDedup<V>(o: Obj<V>, ks: seq<string>, k: string, v: V)
    requires Keys(o) == Dedup(ks)
    ensures Keys(Put(o, k, v)) == Dedup(ks + [k])
  {
    DedupSnoc(ks, k);
    DedupSameElements(ks, k);
  }
}
