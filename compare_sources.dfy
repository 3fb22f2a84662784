/** The comparison of the MEDIATE and Trismegistos author lists by Wikidata
    QID (use-case-2, script 04): QIDs are normalised, every row whose QID
    occurs twice in its own list is quarantined, and the two lists are then
    split into the authors exclusive to each, their intersection (MEDIATE
    values win on shared columns) and their union (paired columns coalesced,
    MEDIATE first). */
module CompareSources {
  import opened Values
  import opened Strings
  import opened Seqs
  import opened Records

  const QidColumn: string := "q_identifier"

  /** A pandas frame: its column names, in order, and its rows. */
  datatype Frame = Frame(columns: seq<string>, rows: seq<Row>)

  /** `astype(str).str.strip()` on the QID column of one row. */
  function NormaliseQid(r: Row): (out: Row)
    ensures QidColumn in out && out[QidColumn] == Str(Trim(Stringify(Cell(r, QidColumn))))
    ensures forall c :: c in r && c != QidColumn ==> c in out && out[c] == r[c]
  {
    r[QidColumn := Str(Trim(Stringify(Cell(r, QidColumn))))]
  }

  function NormaliseAll(rows: seq<Row>): (out: seq<Row>)
    ensures |out| == |rows| && forall i :: 0 <= i < |rows| ==> out[i] == NormaliseQid(rows[i])
  {
    seq(|rows|, i requires 0 <= i < |rows| => NormaliseQid(rows[i]))
  }

  /** The QID a row is compared by. */
  function Key(r: Row): string {
    Stringify(Cell(r, QidColumn))
  }

  /** A normalised QID carries no surrounding whitespace. */
  lemma NormalisedKeyTrimmed(r: Row)
    ensures var k := Key(NormaliseQid(r));
      k == Trim(Stringify(Cell(r, QidColumn))) && (k == [] || (!IsSpace(k[0]) && !IsSpace(k[|k| - 1])))
  {
    StripSpec(Stringify(Cell(r, QidColumn)), IsSpace);
  }

  function Qids(rows: seq<Row>): (r: seq<string>)
    ensures |r| == |rows| && forall i :: 0 <= i < |rows| ==> r[i] == Key(rows[i])
  {
    seq(|rows|, i requires 0 <= i < |rows| => Key(rows[i]))
  }

  /** The QIDs of a list, as `isin` looks them up. */
  function KeySet(rows: seq<Row>): set<string> {
    set i | 0 <= i < |rows| :: Key(rows[i])
  }

  lemma KeySetSnoc(s: seq<Row>)
    requires s != []
    ensures KeySet(s) == KeySet(s[..|s| - 1]) + {Key(s[|s| - 1])}
  {
    var p := s[..|s| - 1];
    assert forall i :: 0 <= i < |p| ==> p[i] == s[i];
  }

  lemma QidsConcat(a: seq<Row>, b: seq<Row>)
    ensures Qids(a + b) == Qids(a) + Qids(b)
  {
  }

  /** `duplicated(subset=['q_identifier'], keep=False)`: the QID occurs more than
      once, so every copy is flagged, the first included. */
  predicate Duplicated(rows: seq<Row>, r: Row) {
    multiset(Qids(rows))[Key(r)] > 1
  }

  function IsDuplicate(rows: seq<Row>): Row -> bool {
    r => Duplicated(rows, r)
  }

  /** `isin(keys)` and `~isin(keys)` on the QID column. */
  function InKeys(ks: set<string>): Row -> bool {
    r => Key(r) in ks
  }

  function OutsideKeys(ks: set<string>): Row -> bool {
    r => Key(r) !in ks
  }

  function Duplicates(rows: seq<Row>): seq<Row> {
    Filter(rows, IsDuplicate(rows))
  }

  /** The rows left after the quarantine: `~isin(duplicates)` when there are
      duplicates, the rows themselves otherwise. */
  function Quarantine(rows: seq<Row>): seq<Row> {
    var dups := Duplicates(rows);
    if |dups| > 0 then Filter(rows, OutsideKeys(KeySet(dups))) else rows
  }

  /** A row's QID is among the flagged QIDs exactly when the row itself is
      flagged, so the quarantine removes exactly the flagged rows. */
  lemma QuarantineRemovesFlagged(rows: seq<Row>)
    ensures Quarantine(rows) == Reject(rows, IsDuplicate(rows))
  {
    var dups := Duplicates(rows);
    forall i | 0 <= i < |rows| ensures OutsideKeys(KeySet(dups))(rows[i]) == !IsDuplicate(rows)(rows[i]) {
      var r := rows[i];
      if Key(r) in KeySet(dups) {
        var j :| 0 <= j < |dups| && Key(dups[j]) == Key(r);
        assert dups[j] in dups;
        assert Duplicated(rows, dups[j]);
      }
    }
    if |dups| > 0 {
      FilterAsReject(rows, OutsideKeys(KeySet(dups)), IsDuplicate(rows));
    } else {
      RejectOfNone(rows, IsDuplicate(rows));
    }
  }

  /** A row whose QID already occurred earlier is flagged. */
  lemma RepeatIsDuplicate(s: seq<Row>, n: nat)
    requires 0 < n <= |s|
    ensures Key(s[n - 1]) in Qids(s[..n - 1]) ==> Duplicated(s, s[n - 1])
  {
    var q := Qids(s);
    assert q == q[..n - 1] + [q[n - 1]] + q[n..];
    assert q[..n - 1] == Qids(s[..n - 1]);
    assert multiset(q) == multiset(q[..n - 1]) + multiset{q[n - 1]} + multiset(q[n..]);
  }

  /** After the quarantine every QID occurs once. */
  lemma QuarantineUnique(rows: seq<Row>)
    ensures Distinct(Qids(Quarantine(rows)))
  {
    QuarantineRemovesFlagged(rows);
    KeptUnique(rows, |rows|);
    assert rows[..|rows|] == rows;
  }

  lemma {:induction false} KeptUnique(s: seq<Row>, n: nat)
    requires n <= |s|
    ensures Distinct(Qids(Reject(s[..n], IsDuplicate(s))))
    ensures forall k :: k in Qids(Reject(s[..n], IsDuplicate(s))) ==> k in Qids(s[..n])
  {
    if n > 0 {
      KeptUnique(s, n - 1);
      KeptUniqueStep(s, n, s[..n - 1]);
    }
  }

  /** The step of `KeptUnique`: the row at `n - 1` is kept only when its QID
      has not been seen, so the kept QIDs stay distinct. */
  lemma KeptUniqueStep(s: seq<Row>, n: nat, p: seq<Row>)
    requires 0 < n <= |s| && p == s[..n - 1]
    requires Distinct(Qids(Reject(p, IsDuplicate(s))))
    requires forall k :: k in Qids(Reject(p, IsDuplicate(s))) ==> k in Qids(p)
    ensures Distinct(Qids(Reject(s[..n], IsDuplicate(s))))
    ensures forall k :: k in Qids(Reject(s[..n], IsDuplicate(s))) ==> k in Qids(s[..n])
  {
    var x := s[n - 1];
    var kept := Reject(p, IsDuplicate(s));
    var keep := !Duplicated(s, x);
    RejectPrefixSnoc(s, n, IsDuplicate(s));
    assert s[..n] == p + [x];
    QidsSnoc(p, x);
    if keep {
      RepeatIsDuplicate(s, n);
      QidsSnoc(kept, x);
    } else {
      assert Reject(s[..n], IsDuplicate(s)) == kept;
    }
    FreshKeptStep(Qids(kept), Qids(p), Key(x), keep);
  }

  /** Keeping a key only when it was not seen before keeps the kept keys
      distinct and among the seen ones. */
  lemma FreshKeptStep(kept: seq<string>, seen: seq<string>, y: string, keep: bool)
    requires Distinct(kept) && forall k :: k in kept ==> k in seen
    requires keep ==> y !in seen
    ensures Distinct(kept + if keep then [y] else [])
    ensures forall k :: k in kept + (if keep then [y] else []) ==> k in seen + [y]
  {
    if keep {
      DistinctSnoc(kept, y);
    } else {
      assert kept + [] == kept;
    }
  }

  lemma QidsSnoc(rows: seq<Row>, x: Row)
    ensures Qids(rows + [x]) == Qids(rows) + [Key(x)]
  {
  }

  /** Dropping the last row keeps the QIDs distinct, and the last QID is not
      among the others. */
  lemma DistinctInit(t: seq<Row>)
    requires Distinct(Qids(t)) && t != []
    ensures Distinct(Qids(t[..|t| - 1]))
    ensures Key(t[|t| - 1]) !in KeySet(t[..|t| - 1])
  {
    var p := t[..|t| - 1];
    var q := Qids(t);
    var qp := Qids(p);
    assert forall i :: 0 <= i < |p| ==> qp[i] == q[i];
    assert forall i :: 0 <= i < |p| ==> Key(p[i]) != q[|t| - 1];
  }

  /** `a[~a['q_identifier'].isin(b['q_identifier'])]`. */
  function Exclusive(a: seq<Row>, b: seq<Row>): seq<Row> {
    Filter(a, OutsideKeys(KeySet(b)))
  }

  /** `a[a['q_identifier'].isin(b['q_identifier'])]`. */
  function SharedRows(a: seq<Row>, b: seq<Row>): seq<Row> {
    Filter(a, InKeys(KeySet(b)))
  }

  function HasQid(k: string): Row -> bool {
    r => Key(r) == k
  }

  /** The rows of `t` with QID `k`, in order: the merge partners of a row. */
  function Partners(t: seq<Row>, k: string): seq<Row> {
    Filter(t, HasQid(k))
  }

  /** One row of the inner merge after the `_trismegistos` columns are dropped
      and the `_mediate` suffix removed: MEDIATE values on the shared columns,
      each list's own values on the others. */
  function IntersectRow(mCols: seq<string>, tCols: seq<string>, m: Row, t: Row): (r: Row)
    ensures r.Keys == ColumnSet(mCols) + ColumnSet(tCols)
    ensures forall c :: c in mCols ==> r[c] == Cell(m, c)
    ensures forall c :: c in tCols && c !in mCols ==> r[c] == Cell(t, c)
  {
    map c | c in ColumnSet(mCols) + ColumnSet(tCols) :: if c in mCols then Cell(m, c) else Cell(t, c)
  }

  function MergeWithPartners(mCols: seq<string>, tCols: seq<string>, m: Row, ts: seq<Row>): (r: seq<Row>)
    ensures |r| == |ts|
  {
    seq(|ts|, i requires 0 <= i < |ts| => IntersectRow(mCols, tCols, m, ts[i]))
  }

  function MergeStep(med: Frame, tm: Frame): Row -> seq<Row> {
    m => MergeWithPartners(med.columns, tm.columns, m, Partners(tm.rows, Key(m)))
  }

  /** `pd.merge(mediate, trismegistos, on='q_identifier', how='inner')`: left
      order, one row per matching pair. */
  function InnerMerge(med: Frame, tm: Frame): seq<Row> {
    ConcatMap(med.rows, MergeStep(med, tm))
  }

  /** With unique QIDs, a QID has at most one partner. */
  lemma {:induction false} PartnersOfUnique(t: seq<Row>, k: string)
    requires Distinct(Qids(t))
    ensures |Partners(t, k)| == if k in KeySet(t) then 1 else 0
  {
    if t != [] {
      var p := t[..|t| - 1];
      DistinctInit(t);
      PartnersOfUnique(p, k);
      KeySetSnoc(t);
    }
  }

  /** The intersection has one row per MEDIATE row whose QID the Trismegistos
      list also has, in MEDIATE order. */
  lemma {:induction false} InnerMergeSize(med: Frame, tm: Frame, n: nat)
    requires Distinct(Qids(tm.rows)) && n <= |med.rows|
    ensures |ConcatMap(med.rows[..n], MergeStep(med, tm))| == |SharedRows(med.rows[..n], tm.rows)|
  {
    if n > 0 {
      var s := med.rows[..n];
      assert s[..n - 1] == med.rows[..n - 1];
      InnerMergeSize(med, tm, n - 1);
      PartnersOfUnique(tm.rows, Key(med.rows[n - 1]));
    }
  }

  /** The Trismegistos row a shared MEDIATE row is merged with. */
  function FirstPartner(t: seq<Row>, k: string): (r: Row)
    ensures k in KeySet(t) ==> r in t && Key(r) == k
  {
    var ps := Partners(t, k);
    if ps == [] then
      assert forall i :: 0 <= i < |t| ==> !HasQid(k)(t[i]);
      map[]
    else ps[0]
  }

  /** Each shared MEDIATE row, in order, joined with its partner. */
  function PairUp(med: Frame, tm: Frame, shared: seq<Row>): (r: seq<Row>)
    ensures |r| == |shared|
  {
    seq(|shared|, i requires 0 <= i < |shared| =>
      IntersectRow(med.columns, tm.columns, shared[i], FirstPartner(tm.rows, Key(shared[i]))))
  }

  /** With unique Trismegistos QIDs, the intersection is exactly the shared
      MEDIATE rows, in MEDIATE order, each joined with the one Trismegistos row
      of the same QID. */
  lemma {:induction false} InnerMergeRows(med: Frame, tm: Frame, n: nat)
    requires Distinct(Qids(tm.rows)) && n <= |med.rows|
    ensures ConcatMap(med.rows[..n], MergeStep(med, tm)) == PairUp(med, tm, SharedRows(med.rows[..n], tm.rows))
  {
    if n > 0 {
      InnerMergeRows(med, tm, n - 1);
      InnerMergeStep(med, tm, n);
    }
  }

  /** The step of `InnerMergeRows`: the next MEDIATE row adds one joined row
      exactly when it is shared. */
  lemma InnerMergeStep(med: Frame, tm: Frame, n: nat)
    requires Distinct(Qids(tm.rows)) && 0 < n <= |med.rows|
    requires ConcatMap(med.rows[..n - 1], MergeStep(med, tm)) == PairUp(med, tm, SharedRows(med.rows[..n - 1], tm.rows))
    ensures ConcatMap(med.rows[..n], MergeStep(med, tm)) == PairUp(med, tm, SharedRows(med.rows[..n], tm.rows))
  {
    var x := med.rows[n - 1];
    var a := SharedRows(med.rows[..n - 1], tm.rows);
    ConcatMapPrefix(med.rows, n - 1, MergeStep(med, tm));
    assert med.rows[..n] == med.rows[..n - 1] + [x];
    FilterSnoc(med.rows[..n - 1], x, InKeys(KeySet(tm.rows)));
    MergeStepOfUnique(med, tm, x);
    if Key(x) in KeySet(tm.rows) {
      PairUpSnoc(med, tm, a, x);
    }
  }

  /** With unique Trismegistos QIDs a MEDIATE row joins its one partner, or
      nothing. */
  lemma MergeStepOfUnique(med: Frame, tm: Frame, x: Row)
    requires Distinct(Qids(tm.rows))
    ensures Key(x) in KeySet(tm.rows) ==>
      MergeStep(med, tm)(x) == [IntersectRow(med.columns, tm.columns, x, FirstPartner(tm.rows, Key(x)))]
    ensures Key(x) !in KeySet(tm.rows) ==> MergeStep(med, tm)(x) == []
  {
    PartnersOfUnique(tm.rows, Key(x));
  }

  lemma PairUpSnoc(med: Frame, tm: Frame, a: seq<Row>, x: Row)
    ensures PairUp(med, tm, a + [x]) ==
      PairUp(med, tm, a) + [IntersectRow(med.columns, tm.columns, x, FirstPartner(tm.rows, Key(x)))]
  {
  }

  lemma IntersectionIsPairing(med: Frame, tm: Frame)
    requires Distinct(Qids(tm.rows))
    ensures InnerMerge(med, tm) == PairUp(med, tm, SharedRows(med.rows, tm.rows))
    ensures forall i :: 0 <= i < |SharedRows(med.rows, tm.rows)| ==>
      var m := SharedRows(med.rows, tm.rows)[i];
      var t := FirstPartner(tm.rows, Key(m));
      m in med.rows && t in tm.rows && Key(t) == Key(m)
  {
    InnerMergeRows(med, tm, |med.rows|);
    assert med.rows[..|med.rows|] == med.rows;
    var shared := SharedRows(med.rows, tm.rows);
    forall i | 0 <= i < |shared| ensures shared[i] in med.rows && Key(shared[i]) in KeySet(tm.rows) {
      assert shared[i] in shared;
    }
  }

  /** The outer merge before its paired columns are combined: the QID and the
      MEDIATE and Trismegistos rows it joins (None on the side that lacks it). */
  datatype Joined = Joined(key: string, m: Option<Row>, t: Option<Row>)

  function JoinWithPartners(m: Row, ts: seq<Row>): (r: seq<Joined>)
    ensures |r| == if ts == [] then 1 else |ts|
  {
    if ts == [] then [Joined(Key(m), Some(m), None)]
    else seq(|ts|, i requires 0 <= i < |ts| => Joined(Key(m), Some(m), Some(ts[i])))
  }

  function JoinStep(tm: Frame): Row -> seq<Joined> {
    m => JoinWithPartners(m, Partners(tm.rows, Key(m)))
  }

  function TmOnly(ts: seq<Row>): (r: seq<Joined>)
    ensures |r| == |ts|
  {
    seq(|ts|, i requires 0 <= i < |ts| => Joined(Key(ts[i]), None, Some(ts[i])))
  }

  /** `pd.merge(mediate, trismegistos, on='q_identifier', how='outer')`: every
      MEDIATE row with its partners, then the Trismegistos rows that have none.
      pandas orders the result by QID; this keeps the list order instead. */
  function OuterMerge(med: Frame, tm: Frame): seq<Joined> {
    ConcatMap(med.rows, JoinStep(tm)) + TmOnly(Exclusive(tm.rows, med.rows))
  }

  lemma {:induction false} OuterMergeLeftSize(med: Frame, tm: Frame, n: nat)
    requires Distinct(Qids(tm.rows)) && n <= |med.rows|
    ensures |ConcatMap(med.rows[..n], JoinStep(tm))| == n
  {
    if n > 0 {
      var s := med.rows[..n];
      assert s[..n - 1] == med.rows[..n - 1];
      OuterMergeLeftSize(med, tm, n - 1);
      PartnersOfUnique(tm.rows, Key(med.rows[n - 1]));
    }
  }

  /** With distinct QIDs, the rows whose QID lies in a set are as many as the
      QIDs of the list in that set. */
  lemma {:induction false} FilterUniqueCount(s: seq<Row>, ks: set<string>)
    requires Distinct(Qids(s))
    ensures |Filter(s, InKeys(ks))| == |KeySet(s) * ks|
  {
    if s != [] {
      var p := s[..|s| - 1];
      var x := s[|s| - 1];
      DistinctInit(s);
      FilterUniqueCount(p, ks);
      KeySetSnoc(s);
      assert Filter(s, InKeys(ks)) == Filter(p, InKeys(ks)) + if Key(x) in ks then [x] else [];
      MeetSnocSize(KeySet(p), Key(x), ks);
    }
  }

  /** Adding a new element to a set adds one to its meet with `ks` exactly when
      the element is in `ks`. */
  lemma MeetSnocSize(a: set<string>, x: string, ks: set<string>)
    requires x !in a
    ensures |(a + {x}) * ks| == |a * ks| + if x in ks then 1 else 0
  {
    if x in ks {
      assert (a + {x}) * ks == (a * ks) + {x};
    } else {
      assert (a + {x}) * ks == a * ks;
    }
  }

  /** The union has one row per QID present in either list:
      |union| = |M| + |T| - |intersection|. */
  lemma UnionSize(med: Frame, tm: Frame)
    requires Distinct(Qids(med.rows)) && Distinct(Qids(tm.rows))
    ensures |OuterMerge(med, tm)| == |med.rows| + |tm.rows| - |InnerMerge(med, tm)|
  {
    OuterMergeLeftSize(med, tm, |med.rows|);
    InnerMergeSize(med, tm, |med.rows|);
    assert med.rows[..|med.rows|] == med.rows;
    FilterUniqueCount(med.rows, KeySet(tm.rows));
    FilterUniqueCount(tm.rows, KeySet(med.rows));
    assert KeySet(med.rows) * KeySet(tm.rows) == KeySet(tm.rows) * KeySet(med.rows);
    FilterPartition(tm.rows, InKeys(KeySet(med.rows)));
    FilterAsReject(tm.rows, OutsideKeys(KeySet(med.rows)), InKeys(KeySet(med.rows)));
  }

  /** The QIDs of the outer merge's rows, in order. */
  function JoinedKeys(js: seq<Joined>): seq<string> {
    seq(|js|, i requires 0 <= i < |js| => js[i].key)
  }

  lemma JoinedKeysConcat(a: seq<Joined>, b: seq<Joined>)
    ensures JoinedKeys(a + b) == JoinedKeys(a) + JoinedKeys(b)
  {
  }

  /** With distinct Trismegistos QIDs, the MEDIATE part of the outer merge has
      the MEDIATE QIDs, in order. */
  lemma {:induction false} LeftKeys(med: Frame, tm: Frame, n: nat)
    requires Distinct(Qids(tm.rows)) && n <= |med.rows|
    ensures JoinedKeys(ConcatMap(med.rows[..n], JoinStep(tm))) == Qids(med.rows[..n])
  {
    if n > 0 {
      var m := med.rows[n - 1];
      ConcatMapPrefix(med.rows, n - 1, JoinStep(tm));
      LeftKeys(med, tm, n - 1);
      JoinStepKey(tm, m);
      JoinedKeysConcat(ConcatMap(med.rows[..n - 1], JoinStep(tm)), JoinStep(tm)(m));
      QidsPrefixSnoc(med.rows, n - 1);
    }
  }

  /** With distinct Trismegistos QIDs, a MEDIATE row joins into one row with
      its own QID. */
  lemma JoinStepKey(tm: Frame, m: Row)
    requires Distinct(Qids(tm.rows))
    ensures JoinedKeys(JoinStep(tm)(m)) == [Key(m)]
  {
    PartnersOfUnique(tm.rows, Key(m));
  }

  lemma QidsPrefixSnoc(s: seq<Row>, k: nat)
    requires k < |s|
    ensures Qids(s[..k + 1]) == Qids(s[..k]) + [Key(s[k])]
  {
    assert s[..k + 1] == s[..k] + [s[k]];
    QidsConcat(s[..k], [s[k]]);
  }

  /** A selection of rows with distinct QIDs has distinct QIDs. */
  lemma {:induction false} FilterKeepsDistinct(s: seq<Row>, keep: Row -> bool)
    requires Distinct(Qids(s))
    ensures Distinct(Qids(Filter(s, keep)))
  {
    if s != [] {
      var p := s[..|s| - 1];
      var x := s[|s| - 1];
      DistinctInit(s);
      FilterKeepsDistinct(p, keep);
      assert s == p + [x];
      FilterSnoc(p, x, keep);
      var f := Filter(p, keep);
      if keep(x) {
        QidsConcat(f, [x]);
        forall i | 0 <= i < |f| ensures Qids(f)[i] != Key(x) {
          assert f[i] in f;
        }
        DistinctSnoc(Qids(f), Key(x));
      }
    }
  }

  lemma DistinctConcat(a: seq<string>, b: seq<string>)
    requires Distinct(a) && Distinct(b) && forall x :: x in a ==> x !in b
    ensures Distinct(a + b)
  {
    var c := a + b;
    forall i, j | 0 <= i < j < |c| ensures c[i] != c[j] {
      if i < |a| && |a| <= j {
        assert c[i] in a && c[j] == b[j - |a|];
      }
    }
  }

  /** The union has one row per QID present in either list, and no QID twice. */
  lemma UnionKeys(med: Frame, tm: Frame)
    requires Distinct(Qids(med.rows)) && Distinct(Qids(tm.rows))
    ensures Distinct(JoinedKeys(OuterMerge(med, tm)))
    ensures forall k :: k in JoinedKeys(OuterMerge(med, tm)) <==> k in KeySet(med.rows) || k in KeySet(tm.rows)
  {
    var ex := Exclusive(tm.rows, med.rows);
    LeftKeys(med, tm, |med.rows|);
    assert med.rows[..|med.rows|] == med.rows;
    JoinedKeysConcat(ConcatMap(med.rows, JoinStep(tm)), TmOnly(ex));
    assert JoinedKeys(TmOnly(ex)) == Qids(ex);
    var keys := JoinedKeys(OuterMerge(med, tm));
    assert keys == Qids(med.rows) + Qids(ex);
    FilterKeepsDistinct(tm.rows, OutsideKeys(KeySet(med.rows)));
    ExclusiveAndSharedSplit(med, tm);
    forall k ensures k in Qids(med.rows) <==> k in KeySet(med.rows) {
      if k in KeySet(med.rows) {
        var i :| 0 <= i < |med.rows| && Key(med.rows[i]) == k;
        assert Qids(med.rows)[i] == k;
      }
    }
    forall k ensures k in Qids(ex) <==> k in KeySet(ex) {
      if k in KeySet(ex) {
        var i :| 0 <= i < |ex| && Key(ex[i]) == k;
        assert Qids(ex)[i] == k;
      }
    }
    DistinctConcat(Qids(med.rows), Qids(ex));
  }

  /** Exclusive Trismegistos QIDs and intersection QIDs split the Trismegistos
      QIDs: disjoint, and together all of them. */
  lemma ExclusiveAndSharedSplit(med: Frame, tm: Frame)
    ensures KeySet(Exclusive(tm.rows, med.rows)) !! (KeySet(tm.rows) * KeySet(med.rows))
    ensures KeySet(Exclusive(tm.rows, med.rows)) + (KeySet(tm.rows) * KeySet(med.rows)) == KeySet(tm.rows)
  {
    var ex := Exclusive(tm.rows, med.rows);
    forall k | k in KeySet(tm.rows) && k !in KeySet(med.rows) ensures k in KeySet(ex) {
      var i :| 0 <= i < |tm.rows| && Key(tm.rows[i]) == k;
      assert tm.rows[i] in ex;
      var j :| 0 <= j < |ex| && ex[j] == tm.rows[i];
    }
    forall k | k in KeySet(ex) ensures k in KeySet(tm.rows) && k !in KeySet(med.rows) {
      var i :| 0 <= i < |ex| && Key(ex[i]) == k;
      assert ex[i] in tm.rows;
      var j :| 0 <= j < |tm.rows| && tm.rows[j] == ex[i];
    }
  }

  /** `replace('', pd.NA)`. */
  function BlankToNa(v: Value): Value {
    if v == Str("") then Null else v
  }

  /** `a.combine_first(b)` on one cell. */
  function CombineFirst(a: Value, b: Value): Value {
    if a.Null? then b else a
  }

  function MediateSide(j: Joined, c: string): Value {
    if j.m.Some? then Cell(j.m.value, c) else Null
  }

  function TmSide(j: Joined, c: string): Value {
    if j.t.Some? then Cell(j.t.value, c) else Null
  }

  /** The columns of both lists other than the QID: the ones the merge
      suffixes with `_mediate` and `_trismegistos`, in MEDIATE column order. */
  function PairedColumns(mCols: seq<string>, tCols: seq<string>): seq<string> {
    Filter(mCols, c => c in tCols && c != QidColumn)
  }

  /** The value a union cell ends with. */
  function UnionCell(j: Joined, c: string, mCols: seq<string>, tCols: seq<string>): Value {
    if c == QidColumn then Str(j.key)
    else if c in mCols && c in tCols then CombineFirst(BlankToNa(MediateSide(j, c)), BlankToNa(TmSide(j, c)))
    else if c in mCols then MediateSide(j, c)
    else TmSide(j, c)
  }

  /** A paired union column takes the MEDIATE value unless it is NaN or "", and
      then the Trismegistos value, "" again counting as missing. */
  lemma UnionPrefersMediate(j: Joined, c: string, mCols: seq<string>, tCols: seq<string>)
    requires c in PairedColumns(mCols, tCols)
    ensures var mv := MediateSide(j, c);
      UnionCell(j, c, mCols, tCols) ==
      if mv != Null && mv != Str("") then mv
      else if TmSide(j, c) == Str("") then Null
      else TmSide(j, c)
  {
  }

  function BaseUnionRow(j: Joined, mCols: seq<string>, tCols: seq<string>, unpaired: set<string>): (r: Row)
    ensures r.Keys == unpaired
  {
    map c | c in unpaired :: UnionCell(j, c, mCols, tCols)
  }

  /** The loop over the `_mediate` columns that writes each combined column,
      followed by the drop of every suffixed column. */
  method CoalesceUnion(joined: seq<Joined>, mCols: seq<string>, tCols: seq<string>)
    returns (rows: seq<Row>)
    ensures |rows| == |joined|
    ensures forall i :: 0 <= i < |rows| ==> rows[i].Keys == ColumnSet(mCols) + ColumnSet(tCols)
    ensures forall i, c :: 0 <= i < |rows| && c in rows[i] ==> rows[i][c] == UnionCell(joined[i], c, mCols, tCols)
  {
    var paired := PairedColumns(mCols, tCols);
    var unpaired := (ColumnSet(mCols) + ColumnSet(tCols)) - ColumnSet(paired);
    rows := seq(|joined|, i requires 0 <= i < |joined| => BaseUnionRow(joined[i], mCols, tCols, unpaired));
    for k := 0 to |paired|
      invariant |rows| == |joined|
      invariant forall i :: 0 <= i < |rows| ==> rows[i].Keys == unpaired + ColumnSet(paired[..k])
      invariant forall i, c :: 0 <= i < |rows| && c in rows[i] ==> rows[i][c] == UnionCell(joined[i], c, mCols, tCols)
    {
      var c := paired[k];
      assert paired[..k + 1] == paired[..k] + [c];
      rows := seq(|rows|, i requires 0 <= i < |rows| =>
        rows[i][c := CombineFirst(BlankToNa(MediateSide(joined[i], c)), BlankToNa(TmSide(joined[i], c)))]);
    }
    assert paired[..|paired|] == paired;
  }

  /** The four frames the comparison returns, and the two quarantined lists. */
  datatype Comparison = Comparison(
    exclusiveTm: seq<Row>, exclusiveMediate: seq<Row>, intersection: seq<Row>,
    union: seq<Row>, duplicatesTm: seq<Row>, duplicatesMediate: seq<Row>)

  /** `comparing_mediate_and_trismegistos_authors`. None stands for the
      `UnboundLocalError` of the final `return`: the `KeyError` of a list
      without `q_identifier` is caught and logged before any of the four frames
      is assigned. */
  method CompareAuthorLists(tmIn: Frame, medIn: Frame) returns (r: Option<Comparison>)
    ensures r.None? <==> QidColumn !in tmIn.columns || QidColumn !in medIn.columns
    ensures r.Some? ==>
      var tm := NormaliseAll(tmIn.rows);
      var med := NormaliseAll(medIn.rows);
      var c := r.value;
      c.duplicatesTm == Duplicates(tm) && c.duplicatesMediate == Duplicates(med) &&
      c.exclusiveTm == Exclusive(Quarantine(tm), Quarantine(med)) &&
      c.exclusiveMediate == Exclusive(Quarantine(med), Quarantine(tm)) &&
      c.intersection == InnerMerge(Frame(medIn.columns, Quarantine(med)), Frame(tmIn.columns, Quarantine(tm))) &&
      |c.union| == |Quarantine(med)| + |Quarantine(tm)| - |c.intersection| &&
      var joined := OuterMerge(Frame(medIn.columns, Quarantine(med)), Frame(tmIn.columns, Quarantine(tm)));
      |c.union| == |joined| &&
      Distinct(JoinedKeys(joined)) &&
      (forall k :: k in JoinedKeys(joined) <==> k in KeySet(Quarantine(med)) || k in KeySet(Quarantine(tm))) &&
      (forall i :: 0 <= i < |c.union| ==> c.union[i].Keys == ColumnSet(medIn.columns) + ColumnSet(tmIn.columns)) &&
      (forall i :: 0 <= i < |c.union| ==> Cell(c.union[i], QidColumn) == Str(joined[i].key)) &&
      (forall i, col :: 0 <= i < |c.union| && col in c.union[i] ==>
        c.union[i][col] == UnionCell(joined[i], col, medIn.columns, tmIn.columns))
  {
    if QidColumn !in tmIn.columns || QidColumn !in medIn.columns {
      return None;
    }
    var tm := NormaliseAll(tmIn.rows);
    var med := NormaliseAll(medIn.rows);
    var dupTm := Duplicates(tm);
    var dupMed := Duplicates(med);
    tm := Quarantine(tm);
    med := Quarantine(med);
    QuarantineUnique(NormaliseAll(tmIn.rows));
    QuarantineUnique(NormaliseAll(medIn.rows));
    var tmFrame := Frame(tmIn.columns, tm);
    var medFrame := Frame(medIn.columns, med);
    var joined := OuterMerge(medFrame, tmFrame);
    UnionSize(medFrame, tmFrame);
    UnionKeys(medFrame, tmFrame);
    var union := CoalesceUnion(joined, medIn.columns, tmIn.columns);
    forall i | 0 <= i < |union| ensures Cell(union[i], QidColumn) == Str(joined[i].key) {
      assert QidColumn in ColumnSet(medIn.columns);
      assert QidColumn in union[i];
    }
    return Some(Comparison(Exclusive(tm, med), Exclusive(med, tm), InnerMerge(medFrame, tmFrame),
      union, dupTm, dupMed));
  }
}
