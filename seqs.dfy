/** Sequence operations shared by the scripts: order-keeping de-duplication
    (`if x not in seen: out.append(x)`), filtering, and cutting a list into
    fixed-size batches for the Wikidata queries. */
module Seqs {

  predicate Distinct<T(==)>(s: seq<T>) {
    forall i, j :: 0 <= i < j < |s| ==> s[i] != s[j]
  }

  /** Keeps the first occurrence of every element, in order. Defined by the last
      element so that a loop appending to an output list matches it prefix by
      prefix. */
  function Dedup<T(==,!new)>(s: seq<T>): (r: seq<T>)
    ensures Distinct(r)
    ensures forall x :: x in r <==> x in s
    ensures |r| <= |s|
  {
    if s == [] then []
    else
      var d := Dedup(s[..|s| - 1]);
      if s[|s| - 1] in d then d else d + [s[|s| - 1]]
  }

  /** The position of the first occurrence of `x`. */
  function FirstIndex<T(==)>(s: seq<T>, x: T): (i: nat)
    requires x in s
    ensures i < |s| && s[i] == x && x !in s[..i]
  {
    if s[0] == x then 0 else 1 + FirstIndex(s[1..], x)
  }

  lemma {:induction false} FirstIndexPrefix<T>(s: seq<T>, n: nat, x: T)
    requires n <= |s| && x in s[..n]
    ensures FirstIndex(s, x) == FirstIndex(s[..n], x)
  {
    if s[0] != x {
      assert s[1..][..n - 1] == s[..n][1..];
      FirstIndexPrefix(s[1..], n - 1, x);
    }
  }

  /** De-duplication keeps elements in the order of their first occurrences. */
  lemma {:induction false} DedupFirstOccurrenceOrder<T(!new)>(s: seq<T>)
    ensures forall i, j :: 0 <= i < j < |Dedup(s)| ==>
      FirstIndex(s, Dedup(s)[i]) < FirstIndex(s, Dedup(s)[j])
  {
    if s != [] {
      var p := s[..|s| - 1];
      var d := Dedup(p);
      DedupFirstOccurrenceOrder(p);
      forall x | x in d ensures FirstIndex(s, x) == FirstIndex(p, x) {
        FirstIndexPrefix(s, |s| - 1, x);
      }
      if s[|s| - 1] !in d {
        assert s[|s| - 1] !in p;
        assert FirstIndex(s, s[|s| - 1]) == |s| - 1;
      }
    }
  }

  /** Extending the input by one element extends the de-duplication by it
      exactly when it is new. */
  lemma DedupSnoc<T(!new)>(s: seq<T>, x: T)
    ensures Dedup(s + [x]) == if x in s then Dedup(s) else Dedup(s) + [x]
  {
    assert (s + [x])[..|s|] == s;
    if x in s {
      var k :| 0 <= k < |s| && s[k] == x;
      assert x in Dedup(s);
    }
  }

  /** A list without repetitions is left as it is. */
  lemma {:induction false} DedupOfDistinct<T(!new)>(s: seq<T>)
    requires Distinct(s)
    ensures Dedup(s) == s
  {
    if s != [] {
      var p := s[..|s| - 1];
      DedupOfDistinct(p);
      assert s[|s| - 1] !in p;
      assert s == p + [s[|s| - 1]];
    }
  }

  /** The elements satisfying `keep`, in order. */
  function Filter<T(==,!new)>(s: seq<T>, keep: T -> bool): (r: seq<T>)
    ensures |r| <= |s|
    ensures forall x :: x in r <==> x in s && keep(x)
  {
    if s == [] then []
    else
      var f := Filter(s[..|s| - 1], keep);
      assert s == s[..|s| - 1] + [s[|s| - 1]];
      if keep(s[|s| - 1]) then f + [s[|s| - 1]] else f
  }

  lemma {:induction false} FilterConcat<T(!new)>(a: seq<T>, b: seq<T>, keep: T -> bool)
    ensures Filter(a + b, keep) == Filter(a, keep) + Filter(b, keep)
    decreases |b|
  {
    if b != [] {
      var b' := b[..|b| - 1];
      var x := b[|b| - 1];
      FilterConcat(a, b', keep);
      assert (a + b)[..|a + b| - 1] == a + b';
      assert Filter(a + b, keep) == Filter(a + b', keep) + (if keep(x) then [x] else []);
      assert Filter(b, keep) == Filter(b', keep) + (if keep(x) then [x] else []);
    } else {
      assert a + b == a;
    }
  }

  /** Filtering a list extended by one element. */
  lemma FilterSnoc<T(!new)>(s: seq<T>, x: T, keep: T -> bool)
    ensures Filter(s + [x], keep) == Filter(s, keep) + (if keep(x) then [x] else [])
  {
    assert (s + [x])[..|s|] == s;
  }

  /** A filter that keeps everything changes nothing. */
  lemma {:induction false} FilterAll<T(!new)>(s: seq<T>, keep: T -> bool)
    requires forall k :: 0 <= k < |s| ==> keep(s[k])
    ensures Filter(s, keep) == s
  {
    if s != [] {
      var p := s[..|s| - 1];
      FilterAll(p, keep);
      assert s == p + [s[|s| - 1]];
    }
  }

  /** The elements not satisfying `keep`, in order. */
  function Reject<T(==,!new)>(s: seq<T>, keep: T -> bool): (r: seq<T>)
    ensures |r| <= |s|
    ensures forall x :: x in r <==> x in s && !keep(x)
  {
    if s == [] then []
    else
      var f := Reject(s[..|s| - 1], keep);
      assert s == s[..|s| - 1] + [s[|s| - 1]];
      if keep(s[|s| - 1]) then f else f + [s[|s| - 1]]
  }

  /** When no element is kept, every element is rejected. */
  lemma RejectPrefixSnoc<T(!new)>(s: seq<T>, n: nat, keep: T -> bool)
    requires 0 < n <= |s|
    ensures Reject(s[..n], keep) == Reject(s[..n - 1], keep) + if keep(s[n - 1]) then [] else [s[n - 1]]
  {
    assert s[..n][..n - 1] == s[..n - 1];
  }

  lemma DistinctSnoc<T>(s: seq<T>, x: T)
    requires Distinct(s) && x !in s
    ensures Distinct(s + [x])
  {
  }

  lemma {:induction false} RejectOfNone<T(!new)>(s: seq<T>, keep: T -> bool)
    requires Filter(s, keep) == []
    ensures Reject(s, keep) == s
  {
    if s != [] {
      var p := s[..|s| - 1];
      assert |Filter(p, keep)| <= |Filter(s, keep)|;
      RejectOfNone(p, keep);
      assert s == p + [s[|s| - 1]];
    }
  }

  /** Filtering splits a list into the kept and the rejected elements: nothing
      is lost and nothing is invented. */
  lemma {:induction false} FilterPartition<T(!new)>(s: seq<T>, keep: T -> bool)
    ensures multiset(Filter(s, keep)) + multiset(Reject(s, keep)) == multiset(s)
    ensures |Filter(s, keep)| + |Reject(s, keep)| == |s|
  {
    if s != [] {
      var p := s[..|s| - 1];
      var x := s[|s| - 1];
      FilterPartition(p, keep);
      assert s == p + [x];
      assert Filter(s, keep) == Filter(p, keep) + (if keep(x) then [x] else []);
      assert Reject(s, keep) == Reject(p, keep) + (if keep(x) then [] else [x]);
      assert multiset(Filter(s, keep)) + multiset(Reject(s, keep)) == multiset(Filter(p, keep)) + multiset(Reject(p, keep)) + multiset{x};
      assert |multiset(Filter(s, keep))| == |Filter(s, keep)|;
    }
  }

  /** Filtering by a predicate that is the negation of another, on every
      element, rejects by the other. */
  lemma {:induction false} FilterAsReject<T(!new)>(s: seq<T>, keep: T -> bool, drop: T -> bool)
    requires forall k :: 0 <= k < |s| ==> keep(s[k]) == !drop(s[k])
    ensures Filter(s, keep) == Reject(s, drop)
  {
    if s != [] {
      var p := s[..|s| - 1];
      assert forall k :: 0 <= k < |p| ==> p[k] == s[k];
      FilterAsReject(p, keep, drop);
    }
  }

  /** Concatenation of a list of lists. */
  function Flatten<T>(ss: seq<seq<T>>): seq<T> {
    if ss == [] then [] else Flatten(ss[..|ss| - 1]) + ss[|ss| - 1]
  }

  lemma {:induction false} FlattenCons<T>(c: seq<T>, ss: seq<seq<T>>)
    ensures Flatten([c] + ss) == c + Flatten(ss)
    decreases |ss|
  {
    if ss != [] {
      var ss' := ss[..|ss| - 1];
      FlattenCons(c, ss');
      assert ([c] + ss)[..|ss|] == [c] + ss';
    }
  }

  /** An element of the concatenation is an element of one of the lists. */
  lemma {:induction false} FlattenMember<T>(ss: seq<seq<T>>, x: T)
    ensures x in Flatten(ss) <==> exists i :: 0 <= i < |ss| && x in ss[i]
  {
    if ss != [] {
      var p := ss[..|ss| - 1];
      FlattenMember(p, x);
      assert forall i :: 0 <= i < |p| ==> p[i] == ss[i];
    }
  }

  lemma {:induction false} FlattenEmpty<T>(ss: seq<seq<T>>)
    requires forall i :: 0 <= i < |ss| ==> ss[i] == []
    ensures Flatten(ss) == []
  {
    if ss != [] {
      FlattenEmpty(ss[..|ss| - 1]);
    }
  }

  /** The concatenation of `f` over a list (a loop that extends one output list
      per element). */
  function ConcatMap<A, B>(xs: seq<A>, f: A -> seq<B>): seq<B> {
    if xs == [] then [] else ConcatMap(xs[..|xs| - 1], f) + f(xs[|xs| - 1])
  }

  /** An element of a concatenation comes from one of the pieces. */
  lemma {:induction false} ConcatMapMember<A, B>(xs: seq<A>, f: A -> seq<B>, y: B)
    ensures y in ConcatMap(xs, f) <==> exists i :: 0 <= i < |xs| && y in f(xs[i])
  {
    if xs != [] {
      var p := xs[..|xs| - 1];
      ConcatMapMember(p, f, y);
      assert forall i :: 0 <= i < |p| ==> p[i] == xs[i];
    }
  }

  lemma {:induction false} ConcatMapConcat<A, B>(xs: seq<A>, ys: seq<A>, f: A -> seq<B>)
    ensures ConcatMap(xs + ys, f) == ConcatMap(xs, f) + ConcatMap(ys, f)
    decreases |ys|
  {
    if ys == [] {
      assert xs + ys == xs;
    } else {
      var ys' := ys[..|ys| - 1];
      ConcatMapConcat(xs, ys', f);
      assert (xs + ys)[..|xs + ys| - 1] == xs + ys';
      assert ConcatMap(xs + ys, f) == ConcatMap(xs + ys', f) + f(ys[|ys| - 1]);
    }
  }

  lemma {:induction false} ConcatMapPointwise<A, B>(xs: seq<A>, f: A -> seq<B>, g: A -> seq<B>)
    requires forall i :: 0 <= i < |xs| ==> f(xs[i]) == g(xs[i])
    ensures ConcatMap(xs, f) == ConcatMap(xs, g)
  {
    if xs != [] {
      var p := xs[..|xs| - 1];
      assert forall i :: 0 <= i < |p| ==> p[i] == xs[i];
      ConcatMapPointwise(p, f, g);
    }
  }

  /** One more piece of a prefix. */
  lemma ConcatMapPrefix<A, B>(xs: seq<A>, k: nat, f: A -> seq<B>)
    requires k < |xs|
    ensures ConcatMap(xs[..k + 1], f) == ConcatMap(xs[..k], f) + f(xs[k])
  {
    assert xs[..k + 1][..k] == xs[..k];
  }

  lemma TakeSnoc<T>(s: seq<T>, t: nat)
    requires t < |s|
    ensures s[..t + 1] == s[..t] + [s[t]]
  {
  }

  /** An element survives filtering and de-duplication exactly when it is kept
      and occurs. */
  lemma DedupFilterMember<T(!new)>(s: seq<T>, keep: T -> bool, x: T)
    ensures x in Dedup(Filter(s, keep)) <==> keep(x) && x in s
  {
    if keep(x) && x in s {
      var k :| 0 <= k < |s| && s[k] == x;
      assert x in Filter(s, keep);
    }
  }

  /** Extending a prefix of `b` by one element, after `a`. */
  lemma SnocPrefix<T>(a: seq<T>, b: seq<T>, j: nat)
    requires j < |b|
    ensures a + b[..j + 1] == (a + b[..j]) + [b[j]]
  {
    assert b[..j + 1] == b[..j] + [b[j]];
  }

  /** The one-based positions of the elements that satisfy `p`, in increasing order. */
  function OneBasedPositions<T>(s: seq<T>, p: T -> bool): seq<nat> {
    if s == [] then [] else OneBasedPositions(s[..|s| - 1], p) + if p(s[|s| - 1]) then [|s|] else []
  }

  /** Every position is in range, names an element satisfying `p`, and the
      positions increase. */
  lemma {:induction false} OneBasedPositionsSound<T>(s: seq<T>, p: T -> bool)
    ensures forall k :: 0 <= k < |OneBasedPositions(s, p)| ==>
      1 <= OneBasedPositions(s, p)[k] <= |s| && p(s[OneBasedPositions(s, p)[k] - 1])
    ensures forall k, l :: 0 <= k < l < |OneBasedPositions(s, p)| ==>
      OneBasedPositions(s, p)[k] < OneBasedPositions(s, p)[l]
  {
    if s != [] {
      var q := s[..|s| - 1];
      OneBasedPositionsSound(q, p);
      assert forall k :: 0 <= k < |q| ==> q[k] == s[k];
      var f := OneBasedPositions(q, p);
      var r := OneBasedPositions(s, p);
      if p(s[|s| - 1]) {
        assert r == f + [|s|];
        forall k | 0 <= k < |r| ensures 1 <= r[k] <= |s| && p(s[r[k] - 1]) {
          if k < |f| {
            assert r[k] == f[k] && q[f[k] - 1] == s[f[k] - 1];
          }
        }
        forall k, l | 0 <= k < l < |r| ensures r[k] < r[l] {
          assert r[k] == f[k];
          if l < |f| {
            assert r[l] == f[l];
          }
        }
      } else {
        assert r == f;
      }
    }
  }

  /** Every element satisfying `p` has its position listed. */
  lemma {:induction false} OneBasedPositionsComplete<T>(s: seq<T>, p: T -> bool, i: nat)
    requires i < |s| && p(s[i])
    ensures i + 1 in OneBasedPositions(s, p)
  {
    var q := s[..|s| - 1];
    if i < |q| {
      OneBasedPositionsComplete(q, p, i);
      assert q[i] == s[i];
    } else {
      assert OneBasedPositions(s, p) == OneBasedPositions(q, p) + [|s|];
    }
  }

  function Min(a: int, b: int): int {
    if a <= b then a else b
  }

  /** `[s[i:i + n] for i in range(0, len(s), n)]`. */
  function Chunks<T>(s: seq<T>, n: nat): (r: seq<seq<T>>)
    requires n > 0
    ensures forall k :: 0 <= k < |r| ==> 0 < |r[k]| <= n
    decreases |s|
  {
    if s == [] then [] else [s[..Min(n, |s|)]] + Chunks(s[Min(n, |s|)..], n)
  }

  /** The batches cover the list exactly once, in order. */
  lemma {:induction false} ChunksCover<T>(s: seq<T>, n: nat)
    requires n > 0
    ensures Flatten(Chunks(s, n)) == s
    decreases |s|
  {
    if s != [] {
      var m := Min(n, |s|);
      ChunksCover(s[m..], n);
      FlattenCons(s[..m], Chunks(s[m..], n));
      assert s == s[..m] + s[m..];
    }
  }

  /** Batch `k` exists exactly when `range(0, len(s), n)` yields its offset
      `i == k*n`, and it is the slice `s[i : i + n]`. */
  lemma ChunkAt<T>(s: seq<T>, n: nat, k: nat, i: nat)
    requires n > 0 && i == k * n
    ensures k < |Chunks(s, n)| <==> i < |s|
    ensures k < |Chunks(s, n)| ==> Chunks(s, n)[k] == s[i..Min(i + n, |s|)]
  {
    OffsetIsProduct(k, n);
    ChunkAtOffset(s, n, k);
  }

  /** `k * n`, counted up one batch at a time. */
  function Offset(k: nat, n: nat): nat {
    if k == 0 then 0 else Offset(k - 1, n) + n
  }

  lemma {:induction false} OffsetIsProduct(k: nat, n: nat)
    ensures Offset(k, n) == k * n
  {
    if k > 0 {
      OffsetIsProduct(k - 1, n);
      MulStep(k, n);
    }
  }

  lemma ChunkAtOffset<T>(s: seq<T>, n: nat, k: nat)
    requires n > 0
    ensures k < |Chunks(s, n)| <==> Offset(k, n) < |s|
    ensures k < |Chunks(s, n)| ==> Chunks(s, n)[k] == s[Offset(k, n)..Min(Offset(k, n) + n, |s|)]
  {
    ChunkCount(s, n, k);
    if k < |Chunks(s, n)| {
      ChunkElement(s, n, k);
    }
  }

  /** Splitting off the first batch. */
  lemma ChunksUnfold<T>(s: seq<T>, n: nat)
    requires n > 0 && s != []
    ensures |s| <= n ==> Chunks(s, n) == [s]
    ensures |s| > n ==> Chunks(s, n) == [s[..n]] + Chunks(s[n..], n)
  {
    if |s| <= n {
      assert s[..|s|] == s && s[|s|..] == [];
    }
  }

  lemma {:induction false} ChunkCount<T>(s: seq<T>, n: nat, k: nat)
    requires n > 0
    ensures k < |Chunks(s, n)| <==> Offset(k, n) < |s|
    decreases |s|
  {
    if s != [] && k > 0 {
      ChunksUnfold(s, n);
      if |s| > n {
        ChunkCount(s[n..], n, k - 1);
      }
    }
  }

  lemma {:induction false} ChunkElement<T>(s: seq<T>, n: nat, k: nat)
    requires n > 0 && k < |Chunks(s, n)|
    ensures Offset(k, n) < |s| && Chunks(s, n)[k] == s[Offset(k, n)..Min(Offset(k, n) + n, |s|)]
    decreases |s|
  {
    ChunksUnfold(s, n);
    if k > 0 {
      var rest := s[n..];
      ChunkElement(rest, n, k - 1);
      ShiftSlice(s, n, Offset(k - 1, n), Chunks(rest, n)[k - 1]);
    }
  }

  /** A slice of the list past its first `n` elements, read back on the list. */
  lemma ShiftSlice<T>(s: seq<T>, n: nat, j: nat, c: seq<T>)
    requires n <= |s| && j < |s| - n
    requires c == s[n..][j..Min(j + n, |s| - n)]
    ensures c == s[j + n..Min(j + n + n, |s|)]
  {
    assert Min(j + n + n, |s|) == n + Min(j + n, |s| - n);
  }

  lemma MulStep(k: nat, n: nat)
    requires k > 0
    ensures k * n == (k - 1) * n + n
  {
  }
}
