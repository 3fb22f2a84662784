/** The manual additions to the final MEDIATE ancient-author list (use-case-2,
    script 06): the added authors' list columns are JSON-encoded, the added rows
    are appended to the existing list, every second and later occurrence of a
    QID is set aside as a duplicate and dropped, and the result is optionally
    ranked by collection count. */
module ManualAdditions {
  import opened Values
  import opened Seqs
  import opened Records
  import opened Ranking

  const QidColumn: string := "q_identifier"

  /** The columns that hold Python lists in the added records. */
  const ListColumns: seq<string> := ["english_aliases", "french_aliases", "latin_aliases", "writing_languages"]

  /** The QID cell a row is compared by; `duplicated` treats two NaN cells as
      equal, which the value `Null` does too. */
  function Key(r: Row): Value {
    Cell(r, QidColumn)
  }

  /** The QID column, one key per row. */
  function Keys(rows: seq<Row>): seq<Value> {
    Column(rows, QidColumn)
  }

  // Encoding the added records.

  /** `df[c] = df[c].apply(json.dumps)` on the four list columns of one row. A
      record without one of them has NaN there once it is in a frame. */
  function EncodeListColumns(r: Row): (out: Row)
    ensures out.Keys == r.Keys + ColumnSet(ListColumns)
    ensures forall c :: c in ListColumns ==> out[c] == JsonDumps(Cell(r, c))
    ensures forall c :: c in r && c !in ListColumns ==> out[c] == r[c]
  {
    r["english_aliases" := JsonDumps(Cell(r, "english_aliases"))]
      ["french_aliases" := JsonDumps(Cell(r, "french_aliases"))]
      ["latin_aliases" := JsonDumps(Cell(r, "latin_aliases"))]
      ["writing_languages" := JsonDumps(Cell(r, "writing_languages"))]
  }

  /** A frame built from records has a column when some record has it. */
  predicate HasColumn(rows: seq<Row>, c: string) {
    exists i :: 0 <= i < |rows| && c in rows[i]
  }

  /** The added frame, or None when selecting a list column fails because no
      record has it (pandas raises KeyError). */
  function AddedFrame(added: seq<Row>): (r: Option<seq<Row>>)
    ensures r.None? <==> exists k :: 0 <= k < |ListColumns| && !HasColumn(added, ListColumns[k])
    ensures r.Some? ==> |r.value| == |added| && forall i :: 0 <= i < |added| ==> r.value[i] == EncodeListColumns(added[i])
  {
    if forall k :: 0 <= k < |ListColumns| ==> HasColumn(added, ListColumns[k]) then
      Some(MapRows(added, EncodeListColumns))
    else
      None
  }

  /** The encoded list columns decode to the records' own lists, and no other
      field is touched. */
  lemma EncodeRoundTrip(r: Row, c: string)
    requires c in ListColumns
    ensures JsonLoads(EncodeListColumns(r)[c]) == Cell(r, c)
  {
    LoadsDumps(Cell(r, c));
  }

  // Duplicates.

  /** `duplicated(subset=["q_identifier"], keep='first')`: a row is flagged when
      an earlier row has the same QID. */
  function DuplicatedMask(rows: seq<Row>): (m: seq<bool>)
    ensures |m| == |rows|
  {
    seq(|rows|, i requires 0 <= i < |rows| => Key(rows[i]) in Keys(rows)[..i])
  }

  /** Every row but the first occurrence of its QID is flagged. */
  lemma DuplicatedIsLaterOccurrence(rows: seq<Row>, i: nat)
    requires i < |rows|
    ensures DuplicatedMask(rows)[i] <==> FirstIndex(Keys(rows), Key(rows[i])) < i
  {
    var ks := Keys(rows);
    var f := FirstIndex(ks, ks[i]);
    if f < i {
      assert ks[..i][f] == ks[i];
    } else {
      assert ks[i] !in ks[..f];
      assert f == i;
    }
  }

  /** `df[mask]` (`want` true) or `df[~mask]` (`want` false), in row order. */
  function Select(rows: seq<Row>, m: seq<bool>, want: bool): (r: seq<Row>)
    requires |m| == |rows|
    ensures |r| <= |rows|
  {
    if rows == [] then []
    else
      var s := Select(rows[..|rows| - 1], m[..|rows| - 1], want);
      if m[|rows| - 1] == want then s + [rows[|rows| - 1]] else s
  }

  /** A row set aside is a row flagged, and a row kept is one not flagged. */
  lemma {:induction false} SelectMember(rows: seq<Row>, m: seq<bool>, want: bool, r: Row)
    requires |m| == |rows|
    ensures r in Select(rows, m, want) <==> exists i :: 0 <= i < |rows| && m[i] == want && rows[i] == r
  {
    if rows != [] {
      var n := |rows| - 1;
      SelectMember(rows[..n], m[..n], want, r);
      assert forall i :: 0 <= i < n ==> rows[..n][i] == rows[i] && m[..n][i] == m[i];
    }
  }

  /** The flagged and the unflagged rows split the rows: nothing is lost and
      nothing is repeated. */
  lemma {:induction false} SelectPartition(rows: seq<Row>, m: seq<bool>)
    requires |m| == |rows|
    ensures multiset(Select(rows, m, true)) + multiset(Select(rows, m, false)) == multiset(rows)
    ensures |Select(rows, m, true)| + |Select(rows, m, false)| == |rows|
  {
    if rows != [] {
      var n := |rows| - 1;
      SelectPartition(rows[..n], m[..n]);
      assert rows == rows[..n] + [rows[n]];
      assert |multiset(rows)| == |rows|;
      assert |multiset(Select(rows, m, true))| == |Select(rows, m, true)|;
      assert |multiset(Select(rows, m, false))| == |Select(rows, m, false)|;
    }
  }

  /** With nothing flagged, keeping the unflagged rows keeps everything. */
  lemma {:induction false} SelectNoneFlagged(rows: seq<Row>, m: seq<bool>)
    requires |m| == |rows|
    ensures Select(rows, m, true) == [] ==> Select(rows, m, false) == rows
  {
    if rows != [] && Select(rows, m, true) == [] {
      var n := |rows| - 1;
      SelectNoneFlagged(rows[..n], m[..n]);
      assert rows == rows[..n] + [rows[n]];
    }
  }

  /** The mask of a list's prefix is the prefix of its mask. */
  lemma MaskPrefix(rows: seq<Row>)
    requires rows != []
    ensures DuplicatedMask(rows[..|rows| - 1]) == DuplicatedMask(rows)[..|rows| - 1]
  {
    var n := |rows| - 1;
    forall i | 0 <= i < n ensures Keys(rows[..n])[..i] == Keys(rows)[..i] {
    }
  }

  /** `drop_duplicates(subset=["q_identifier"], keep='first')`. */
  function DropDuplicates(rows: seq<Row>): seq<Row> {
    Select(rows, DuplicatedMask(rows), false)
  }

  /** The surviving QIDs are the listed QIDs in the order of their first
      occurrences, each once: the survivors keep their relative order and no
      QID is lost. */
  lemma {:induction false} DropDuplicatesKeys(rows: seq<Row>)
    ensures Keys(DropDuplicates(rows)) == Dedup(Keys(rows))
  {
    if rows != [] {
      DropDuplicatesKeys(rows[..|rows| - 1]);
      DropDuplicatesKeysStep(rows);
    }
  }

  lemma DropDuplicatesKeysStep(rows: seq<Row>)
    requires rows != []
    requires Keys(DropDuplicates(rows[..|rows| - 1])) == Dedup(Keys(rows[..|rows| - 1]))
    ensures Keys(DropDuplicates(rows)) == Dedup(Keys(rows))
  {
    var n := |rows| - 1;
    DropDuplicatesSnoc(rows);
    assert Keys(rows) == Keys(rows[..n]) + [Key(rows[n])];
    SurvivorKeysSnoc(Keys(rows[..n]), DropDuplicates(rows[..n]), rows[n], DropDuplicates(rows));
  }

  /** The step of `DropDuplicatesKeys` on plain lists: when the survivors so far
      carry the distinct QIDs so far, adding one row keeps it so. */
  lemma SurvivorKeysSnoc(k: seq<Value>, d: seq<Row>, x: Row, d': seq<Row>)
    requires Keys(d) == Dedup(k)
    requires d' == d + if Key(x) in k then [] else [x]
    ensures Keys(d') == Dedup(k + [Key(x)])
  {
    DedupSnoc(k, Key(x));
    if Key(x) !in k {
      KeysSnoc(d, x);
    }
  }

  /** One more row survives exactly when its QID is new. */
  lemma DropDuplicatesSnoc(rows: seq<Row>)
    requires rows != []
    ensures var n := |rows| - 1;
      DropDuplicates(rows) == DropDuplicates(rows[..n]) + if Key(rows[n]) in Keys(rows[..n]) then [] else [rows[n]]
  {
    var n := |rows| - 1;
    MaskPrefix(rows);
    assert Keys(rows)[..n] == Keys(rows[..n]);
    assert DuplicatedMask(rows)[n] == (Key(rows[n]) in Keys(rows[..n]));
  }

  lemma KeysSnoc(s: seq<Row>, x: Row)
    ensures Keys(s + [x]) == Keys(s) + [Key(x)]
  {
  }

  /** Each survivor is the row at its QID's first occurrence. */
  lemma SurvivorIsFirstOccurrence(rows: seq<Row>, r: Row)
    requires r in DropDuplicates(rows)
    ensures exists i :: 0 <= i < |rows| && rows[i] == r && FirstIndex(Keys(rows), Key(r)) == i
  {
    SelectMember(rows, DuplicatedMask(rows), false, r);
    var i :| 0 <= i < |rows| && !DuplicatedMask(rows)[i] && rows[i] == r;
    DuplicatedIsLaterOccurrence(rows, i);
  }

  /** The survivors carry distinct QIDs. */
  lemma DropDuplicatesUnique(rows: seq<Row>)
    ensures Distinct(Keys(DropDuplicates(rows)))
  {
    DropDuplicatesKeys(rows);
  }

  /** The rows saved as duplicates are exactly the rows the drop removes. */
  lemma DuplicatesAreDropped(rows: seq<Row>)
    ensures var m := DuplicatedMask(rows);
      multiset(Select(rows, m, true)) + multiset(DropDuplicates(rows)) == multiset(rows) &&
      |DropDuplicates(rows)| == |rows| - |Select(rows, m, true)|
  {
    SelectPartition(rows, DuplicatedMask(rows));
  }

  // Ranking.

  /** The sort key `mediate_nb_collections`, NaN last. */
  function CollectionsRank(r: Row): Rank {
    match Cell(r, "mediate_nb_collections")
    case Int(n) => Count(n)
    case _ => Missing
  }

  /** The tables the script writes. */
  datatype Update = Update(added: seq<Row>, duplicates: seq<Row>, updated: seq<Row>)

  /** `manually_adding_authors_to_mediate_ancient_authors_csv`: None exactly when
      a list column is missing from the added records. */
  function ManuallyAddAuthors(existing: seq<Row>, added: seq<Row>, sort: bool): (r: Option<Update>)
    ensures r.None? <==> AddedFrame(added).None?
    ensures r.Some? ==>
      var all := existing + AddedFrame(added).value;
      |all| == |existing| + |added| &&
      r.value.added == AddedFrame(added).value &&
      r.value.duplicates == Select(all, DuplicatedMask(all), true) &&
      (sort ==> multiset(r.value.updated) == multiset(DropDuplicates(all)) && Descending(r.value.updated, CollectionsRank)) &&
      (!sort ==> r.value.updated == DropDuplicates(all)) &&
      |r.value.updated| == |all| - |r.value.duplicates|
  {
    match AddedFrame(added)
    case None => None
    case Some(frame) =>
      var all := existing + frame;
      var m := DuplicatedMask(all);
      var dups := Select(all, m, true);
      var deduped := if |dups| > 0 then Select(all, m, false) else all;
      SelectPartition(all, m);
      SelectNoneFlagged(all, m);
      var ranked := if sort then SortDescending(deduped, CollectionsRank) else deduped;
      assert |ranked| == |multiset(ranked)| == |multiset(deduped)| == |deduped|;
      Some(Update(frame, dups, ranked))
  }

  /** Ranking keeps the QIDs unique: a permutation of rows with distinct QIDs
      has distinct QIDs. */
  lemma PermutationKeepsDistinct(a: seq<Row>, b: seq<Row>)
    requires multiset(a) == multiset(b) && Distinct(Keys(a))
    ensures Distinct(Keys(b))
  {
    forall i, j | 0 <= i < j < |b| ensures Key(b[i]) != Key(b[j]) {
      assert b[i] in multiset(a) && b[j] in multiset(a);
      var i' :| 0 <= i' < |a| && a[i'] == b[i];
      SameKeySameRow(a, b[i], b[j]);
      TwiceCounted(b, i, j);
      OnceInDistinct(a, i');
    }
  }

  lemma SameKeySameRow(a: seq<Row>, x: Row, y: Row)
    requires Distinct(Keys(a)) && x in a && y in a
    ensures Key(x) == Key(y) ==> x == y
  {
    var i :| 0 <= i < |a| && a[i] == x;
    var j :| 0 <= j < |a| && a[j] == y;
    assert Keys(a)[i] == Key(x) && Keys(a)[j] == Key(y);
  }

  lemma TwiceCounted(b: seq<Row>, i: nat, j: nat)
    requires i < j < |b|
    ensures b[i] == b[j] ==> multiset(b)[b[i]] >= 2
  {
    assert b == b[..i] + [b[i]] + b[i + 1..j] + [b[j]] + b[j + 1..];
  }

  lemma OnceInDistinct(a: seq<Row>, i: nat)
    requires i < |a| && Distinct(Keys(a))
    ensures multiset(a)[a[i]] == 1
  {
    assert a == a[..i] + [a[i]] + a[i + 1..];
    forall k | 0 <= k < |a| && k != i ensures a[k] != a[i] {
      assert Keys(a)[k] != Keys(a)[i];
    }
    assert a[i] !in a[..i];
    assert a[i] !in a[i + 1..];
  }

  /** A permutation carries the same QIDs. */
  lemma KeyInPermutation(a: seq<Row>, b: seq<Row>, c: Value)
    requires multiset(a) == multiset(b) && c in Keys(a)
    ensures c in Keys(b)
  {
    var i :| 0 <= i < |a| && Keys(a)[i] == c;
    assert a[i] in multiset(b);
    var j :| 0 <= j < |b| && b[j] == a[i];
    assert Keys(b)[j] == c;
  }

  /** Whatever `sort` says, the updated list carries every QID of the
      concatenation exactly once. */
  lemma UpdatedQidsUnique(existing: seq<Row>, added: seq<Row>, sort: bool)
    requires ManuallyAddAuthors(existing, added, sort).Some?
    ensures var u := ManuallyAddAuthors(existing, added, sort).value.updated;
      Distinct(Keys(u)) &&
      forall c :: c in Keys(existing + AddedFrame(added).value) <==> c in Keys(u)
  {
    var all := existing + AddedFrame(added).value;
    var d := DropDuplicates(all);
    var u := ManuallyAddAuthors(existing, added, sort).value.updated;
    assert multiset(d) == multiset(u);
    DropDuplicatesKeys(all);
    PermutationKeepsDistinct(d, u);
    forall c ensures c in Keys(all) <==> c in Keys(u) {
      if c in Keys(all) {
        assert c in Keys(d);
        KeyInPermutation(d, u, c);
      }
      if c in Keys(u) {
        KeyInPermutation(u, d, c);
      }
    }
  }
}
