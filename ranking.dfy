/** `sort_values(by=column, ascending=False)`: rows ordered by a count, largest
    first, with missing counts (NaN) placed last. pandas' default sort is not
    stable, so only the order of keys and the permutation are promised; the
    model happens to keep tied rows in their original order. */
module Ranking {

  /** A sort key: a numeric count, or NaN. */
  datatype Rank = Missing | Count(n: int)

  /** `a` may come before `b` in a descending sort with NaN last. */
  predicate AtLeast(a: Rank, b: Rank) {
    match b
    case Missing => true
    case Count(y) => a.Count? && a.n >= y
  }

  predicate Descending<T>(s: seq<T>, key: T -> Rank) {
    forall i, j :: 0 <= i < j < |s| ==> AtLeast(key(s[i]), key(s[j]))
  }

  /** Puts `x` after every row that ranks at least as high. */
  function Insert<T>(x: T, s: seq<T>, key: T -> Rank): (r: seq<T>)
    requires Descending(s, key)
    ensures Descending(r, key)
    ensures multiset(r) == multiset(s) + multiset{x}
  {
    if s == [] then [x]
    else if AtLeast(key(s[0]), key(x)) then
      var rest := Insert(x, s[1..], key);
      assert s == [s[0]] + s[1..];
      BoundedPermutation(rest, s[1..], x, key, key(s[0]));
      [s[0]] + rest
    else
      assert forall j :: 0 <= j < |s| ==> AtLeast(key(x), key(s[j]));
      [x] + s
  }

  /** A rearrangement of `s` and `x` stays below a bound both respect. */
  lemma BoundedPermutation<T>(r: seq<T>, s: seq<T>, x: T, key: T -> Rank, top: Rank)
    requires multiset(r) == multiset(s) + multiset{x}
    requires AtLeast(top, key(x)) && forall j :: 0 <= j < |s| ==> AtLeast(top, key(s[j]))
    ensures forall j :: 0 <= j < |r| ==> AtLeast(top, key(r[j]))
  {
    forall j | 0 <= j < |r| ensures AtLeast(top, key(r[j])) {
      assert r[j] in multiset(r);
      assert r[j] == x || r[j] in s;
    }
  }

  function SortDescending<T>(s: seq<T>, key: T -> Rank): (r: seq<T>)
    ensures Descending(r, key)
    ensures multiset(r) == multiset(s)
  {
    if s == [] then []
    else
      assert s == [s[0]] + s[1..];
      Insert(s[0], SortDescending(s[1..], key), key)
  }
}
