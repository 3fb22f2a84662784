/** Python's insertion-ordered `dict`, as a list of key/value pairs: assigning
    to an existing key keeps its position, a new key goes at the end. */
module Dicts {
  import opened Values
  import opened Seqs

  type Dict<K, V> = seq<(K, V)>

  function Keys<K, V>(d: Dict<K, V>): (r: seq<K>)
    ensures |r| == |d| && forall i :: 0 <= i < |d| ==> r[i] == d[i].0
  {
    if d == [] then [] else [d[0].0] + Keys(d[1..])
  }

  predicate Valid<K(==), V>(d: Dict<K, V>) {
    Distinct(Keys(d))
  }

  /** `d.get(k)`. */
  function Get<K(==), V>(d: Dict<K, V>, k: K): (r: Option<V>)
    ensures r.None? <==> k !in Keys(d)
    ensures r.Some? ==> (k, r.value) in d
  {
    if d == [] then None
    else if d[0].0 == k then Some(d[0].1)
    else
      Get(d[1..], k)
  }

  /** `d.get(k, default)`. */
  function GetOr<K(==), V>(d: Dict<K, V>, k: K, default: V): V {
    match Get(d, k)
    case Some(v) => v
    case None => default
  }

  /** `d[k] = v`. */
  function Put<K(==), V>(d: Dict<K, V>, k: K, v: V): Dict<K, V> {
    if d == [] then [(k, v)]
    else if d[0].0 == k then
      [(k, v)] + d[1..]
    else
      [d[0]] + Put(d[1..], k, v)
  }

  /** After `d[k] = v`, looking `k` up gives `v` and every other key is looked up
      as before. */
  lemma {:induction false} GetPut<K, V>(d: Dict<K, V>, k: K, v: V, other: K)
    ensures Get(Put(d, k, v), other) == if other == k then Some(v) else Get(d, other)
  {
    if d != [] && d[0].0 != k {
      GetPut(d[1..], k, v, other);
      assert Put(d, k, v)[1..] == Put(d[1..], k, v);
    }
  }

  /** An existing key keeps its place; a new key goes at the end. */
  lemma {:induction false} PutKeys<K, V>(d: Dict<K, V>, k: K, v: V)
    ensures Keys(Put(d, k, v)) == if k in Keys(d) then Keys(d) else Keys(d) + [k]
  {
    if d != [] && d[0].0 != k {
      PutKeys(d[1..], k, v);
    }
  }

  /** Every entry after `d[k] = v` is the new one or was there before. */
  lemma {:induction false} PutEntries<K, V>(d: Dict<K, V>, k: K, v: V)
    ensures forall e :: e in Put(d, k, v) ==> e == (k, v) || e in d
  {
    if d != [] && d[0].0 != k {
      PutEntries(d[1..], k, v);
    }
  }

  /** Assigning keeps every key once. */
  lemma PutValid<K, V>(d: Dict<K, V>, k: K, v: V)
    requires Valid(d)
    ensures Valid(Put(d, k, v))
  {
    PutKeys(d, k, v);
  }

  /** A `dict` whose order does not matter, after `d[key(b)] = value(b)` for
      every `b` of `bs` in turn, starting from `{}`. */
  function AssignAll<B, K(==), V>(bs: seq<B>, key: B -> K, value: B -> V): map<K, V> {
    if bs == [] then map[]
    else
      var last := bs[|bs| - 1];
      AssignAll(bs[..|bs| - 1], key, value)[key(last) := value(last)]
  }

  lemma AssignAllSnoc<B, K, V>(bs: seq<B>, b: B, key: B -> K, value: B -> V)
    ensures AssignAll(bs + [b], key, value) == AssignAll(bs, key, value)[key(b) := value(b)]
  {
    assert (bs + [b])[..|bs|] == bs;
  }

  /** A key is present exactly when some element assigned it, and it holds
      what the last such element assigned: later assignments overwrite. */
  lemma {:induction false} AssignAllSpec<B, K, V>(bs: seq<B>, key: B -> K, value: B -> V, k: K)
    ensures k in AssignAll(bs, key, value) <==> exists i :: 0 <= i < |bs| && key(bs[i]) == k
    ensures forall i :: 0 <= i < |bs| && key(bs[i]) == k && (forall j :: i < j < |bs| ==> key(bs[j]) != k) ==>
      AssignAll(bs, key, value)[k] == value(bs[i])
  {
    if bs != [] {
      var p := bs[..|bs| - 1];
      AssignAllSpec(p, key, value, k);
      assert forall i :: 0 <= i < |p| ==> p[i] == bs[i];
    }
  }

  /** A `dict` after `if keep(b): d[key(b)] = value(b)` for every `b` of `bs`
      in turn, starting from `{}`. */
  function AssignIf<B, K(==), V>(bs: seq<B>, keep: B -> bool, key: B -> K, value: B -> V): map<K, V> {
    if bs == [] then map[]
    else
      var last := bs[|bs| - 1];
      var m := AssignIf(bs[..|bs| - 1], keep, key, value);
      if keep(last) then m[key(last) := value(last)] else m
  }

  lemma AssignIfSnoc<B, K, V>(bs: seq<B>, b: B, keep: B -> bool, key: B -> K, value: B -> V)
    ensures AssignIf(bs + [b], keep, key, value) ==
      if keep(b) then AssignIf(bs, keep, key, value)[key(b) := value(b)] else AssignIf(bs, keep, key, value)
  {
    assert (bs + [b])[..|bs|] == bs;
  }

  /** A key is present exactly when some kept element assigned it; what it
      holds was assigned by a kept element, and by the last kept element with
      that key: later assignments overwrite, skipped ones do not. */
  lemma {:induction false} AssignIfSpec<B, K, V>(bs: seq<B>, keep: B -> bool, key: B -> K, value: B -> V, k: K)
    ensures k in AssignIf(bs, keep, key, value) <==> exists i :: 0 <= i < |bs| && keep(bs[i]) && key(bs[i]) == k
    ensures k in AssignIf(bs, keep, key, value) ==>
      exists i :: 0 <= i < |bs| && keep(bs[i]) && key(bs[i]) == k && AssignIf(bs, keep, key, value)[k] == value(bs[i])
    ensures forall i ::
      (0 <= i < |bs| && keep(bs[i]) && key(bs[i]) == k &&
       forall j :: i < j < |bs| && key(bs[j]) == k ==> !keep(bs[j])) ==>
      AssignIf(bs, keep, key, value)[k] == value(bs[i])
  {
    if bs != [] {
      var p := bs[..|bs| - 1];
      AssignIfSpec(p, keep, key, value, k);
      assert forall i :: 0 <= i < |p| ==> p[i] == bs[i];
    }
  }
}
