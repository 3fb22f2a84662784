/** `ancient_authors_wikidata_ids.py`: the authors' Q-identifiers are sent in
    batches of 100, and the catalogue identifiers Wikidata holds for each
    author are merged into one record per author, which becomes one row of
    `wikidata_id` followed by the eighteen catalogue columns. */
module WikidataIds {
  import opened Values
  import opened Seqs
  import opened Dicts
  import opened Wdqs

  const BatchSize: nat := 100

  /** `ID_PROPS`: the Wikidata property of each catalogue and the column it fills. */
  const IdProps: seq<(string, string)> := [
    ("P11252", "trismegistos_id"),
    ("P7041", "perseus_id"),
    ("P12869", "lagl_id"),
    ("P11790", "chap_id"),
    ("P7168", "fgrhist_id"),
    ("P3576", "tlg_id"),
    ("P6831", "pinakes_id"),
    ("P6862", "digliblt_id"),
    ("P6941", "phi_id"),
    ("P6999", "mda_id"),
    ("P7038", "dco_id"),
    ("P7042", "lla_id"),
    ("P7908", "clavis_id"),
    ("P7935", "cca_id"),
    ("P8065", "ciris_id"),
    ("P8122", "dll_id"),
    ("P8163", "dk_id"),
    ("P10536", "rspa_id")
  ]

  function PropNames(): (names: seq<string>)
    ensures |names| == |IdProps| && forall i :: 0 <= i < |IdProps| ==> names[i] == IdProps[i].1
  {
    seq(|IdProps|, i requires 0 <= i < |IdProps| => IdProps[i].1)
  }

  /** `HEADERS` for the catalogue columns `names`. */
  function Headers(names: seq<string>): seq<string> {
    [IdColumn] + names
  }

  /** The keys of a complete record. */
  function Columns(names: seq<string>): set<string> {
    {IdColumn} + set h | h in names
  }

  lemma IdColumnIsNoProp()
    ensures IdColumn !in PropNames()
  {
  }

  /** The identifier one row contributes: the raw cell, when it is not empty. */
  function RowId(): CsvRow -> seq<string> {
    row => if FieldOr(row, IdColumn) != "" then [row[IdColumn]] else []
  }

  /** `read_wikidata_ids_from_csv`: the rows' non-empty `wikidata_id` cells, in
      row order and not stripped. */
  function ReadIds(rows: seq<CsvRow>): seq<string> {
    ConcatMap(rows, RowId())
  }

  /** An identifier is read exactly when it is some row's non-empty cell. */
  lemma ReadIdsMember(rows: seq<CsvRow>, q: string)
    ensures q in ReadIds(rows) <==> q != "" && exists i :: 0 <= i < |rows| && FieldOr(rows[i], IdColumn) == q
  {
    ConcatMapMember(rows, RowId(), q);
    assert forall i :: 0 <= i < |rows| ==> (q in RowId()(rows[i]) <==> q != "" && FieldOr(rows[i], IdColumn) == q);
  }

  /** Reading keeps the row order. */
  lemma ReadIdsConcat(a: seq<CsvRow>, b: seq<CsvRow>)
    ensures ReadIds(a + b) == ReadIds(a) + ReadIds(b)
  {
    ConcatMapConcat(a, b, RowId());
  }

  /** A cell holding a bare identifier. */
  predicate BareId(cell: string) {
    cell != [] && !Strings.IsSpace(cell[0]) && !Strings.IsSpace(cell[|cell| - 1]) &&
    !Strings.StartsWith(cell, "http")
  }

  lemma RowAgrees(row: CsvRow)
    requires FieldOr(row, IdColumn) == "" || BareId(FieldOr(row, IdColumn))
    ensures RowId()(row) == RowQids()(row)
  {
    var cell := FieldOr(row, IdColumn);
    if cell == "" {
      assert Strings.Trim(cell) == "";
    } else {
      NormaliseBare(cell);
    }
  }

  /** When every cell is empty or a bare identifier, this script reads the same
      list as the scripts that strip and shorten. */
  lemma ReadIdsAgree(rows: seq<CsvRow>)
    requires forall i :: 0 <= i < |rows| ==> FieldOr(rows[i], IdColumn) == "" || BareId(FieldOr(rows[i], IdColumn))
    ensures ReadIds(rows) == NormalisedQids(rows)
  {
    forall i | 0 <= i < |rows| ensures RowId()(rows[i]) == RowQids()(rows[i]) {
      RowAgrees(rows[i]);
    }
    ConcatMapPointwise(rows, RowId(), RowQids());
  }

  type Record = map<string, string>

  /** The record a binding leaves in `merged[qid]`: its identifier and every
      catalogue column, "" where the binding has no value. */
  function IdRecord(b: Binding, names: seq<string>): (r: Record)
    ensures r.Keys == Columns(names)
    ensures r[IdColumn] == SubjectQid(b)
    ensures forall h :: h in r && h != IdColumn ==> r[h] == Gv(b, h, "")
  {
    map h | h in Columns(names) :: if h == IdColumn then SubjectQid(b) else Gv(b, h, "")
  }

  function RecordOf(names: seq<string>): Binding -> Record {
    b => IdRecord(b, names)
  }

  /** `merged` after the bindings `bs`, in the order of first appearance, when
      binding `b` leaves the record `record(b)`. */
  function MergeOf<V>(bs: seq<Binding>, record: Binding -> V): Dict<string, V> {
    if bs == [] then []
    else
      var b := bs[|bs| - 1];
      Put(MergeOf(bs[..|bs| - 1], record), SubjectQid(b), record(b))
  }

  lemma MergeUnfold<V>(bs: seq<Binding>, record: Binding -> V)
    requires bs != []
    ensures MergeOf(bs, record) == Put(MergeOf(bs[..|bs| - 1], record), SubjectQid(bs[|bs| - 1]), record(bs[|bs| - 1]))
  {
  }

  lemma MergeStep<V>(seen: seq<Binding>, b: Binding, record: Binding -> V)
    ensures MergeOf(seen + [b], record) == Put(MergeOf(seen, record), SubjectQid(b), record(b))
  {
    assert (seen + [b])[..|seen|] == seen;
    MergeUnfold(seen + [b], record);
  }

  /** Every merged record is complete and carries its own identifier. */
  lemma {:induction false} MergeShape(bs: seq<Binding>, names: seq<string>)
    ensures forall e :: e in MergeOf(bs, RecordOf(names)) ==> e.1.Keys == Columns(names) && e.1[IdColumn] == e.0
  {
    if bs != [] {
      var p := bs[..|bs| - 1];
      var b := bs[|bs| - 1];
      MergeShape(p, names);
      PutEntries(MergeOf(p, RecordOf(names)), SubjectQid(b), IdRecord(b, names));
    }
  }

  lemma StoredRecord(bs: seq<Binding>, names: seq<string>, qid: string)
    requires Get(MergeOf(bs, RecordOf(names)), qid).Some?
    ensures Get(MergeOf(bs, RecordOf(names)), qid).value.Keys == Columns(names)
  {
    MergeShape(bs, names);
  }

  /** The merge loop of `main`: every binding of every batch fills the record
      of its identifier, created empty on first sight by the `defaultdict`. */
  method Merge(ids: seq<string>, answer: seq<string> -> seq<Binding>, names: seq<string>)
    returns (merged: Dict<string, Record>)
    requires "wikidata_id" !in names
    ensures merged == MergeOf(BatchedBindings(ids, BatchSize, answer), RecordOf(names))
  {
    ghost var chunks := Chunks(ids, BatchSize);
    ghost var seen: seq<Binding> := [];
    ghost var k: nat := 0;
    merged := [];
    var i := 0;
    ChunkAt(ids, BatchSize, 0, 0);
    while i < |ids|
      invariant i == k * BatchSize && k <= |chunks|
      invariant k < |chunks| <==> i < |ids|
      invariant seen == ConcatMap(chunks[..k], answer)
      invariant merged == MergeOf(seen, RecordOf(names))
      decreases |ids| - i
    {
      merged, seen := MergeNextBatch(ids, answer, names, merged, i, k, seen);
      i := i + BatchSize;
      k := k + 1;
    }
    assert chunks[..k] == chunks;
  }

  /** One turn of the batch loop: the batch at offset `i == k * BatchSize` is
      sent and its bindings merged. */
  method MergeNextBatch(ids: seq<string>, answer: seq<string> -> seq<Binding>, names: seq<string>,
                        merged: Dict<string, Record>, i: nat, ghost k: nat, ghost seen: seq<Binding>)
    returns (after: Dict<string, Record>, ghost seen': seq<Binding>)
    requires "wikidata_id" !in names && i == k * BatchSize && i < |ids| && k < |Chunks(ids, BatchSize)|
    requires seen == ConcatMap(Chunks(ids, BatchSize)[..k], answer)
    requires merged == MergeOf(seen, RecordOf(names))
    ensures i + BatchSize == (k + 1) * BatchSize
    ensures seen' == ConcatMap(Chunks(ids, BatchSize)[..k + 1], answer)
    ensures after == MergeOf(ConcatMap(Chunks(ids, BatchSize)[..k + 1], answer), RecordOf(names))
    ensures k + 1 < |Chunks(ids, BatchSize)| <==> i + BatchSize < |ids|
  {
    BatchAdvance(ids, BatchSize, answer, k, i);
    var batch := ids[i..Min(i + BatchSize, |ids|)];
    var bindings := answer(batch);
    after := MergeBatch(merged, bindings, names, seen);
    seen' := seen + bindings;
  }

  /** The bindings of one batch, merged one after the other. */
  method MergeBatch(merged: Dict<string, Record>, bindings: seq<Binding>, names: seq<string>, ghost seen: seq<Binding>)
    returns (after: Dict<string, Record>)
    requires "wikidata_id" !in names && merged == MergeOf(seen, RecordOf(names))
    ensures after == MergeOf(seen + bindings, RecordOf(names))
  {
    after := merged;
    assert seen + bindings[..0] == seen;
    for j := 0 to |bindings|
      invariant after == MergeOf(seen + bindings[..j], RecordOf(names))
    {
      var b := bindings[j];
      var qid := SubjectQid(b);
      var current := Get(after, qid);
      var before: Record := map[];
      if current.Some? {
        StoredRecord(seen + bindings[..j], names, qid);
        before := current.value;
      }
      var record := FillRecord(before, b, names);
      MergeStep(seen + bindings[..j], b, RecordOf(names));
      after := Put(after, qid, record);
      SnocPrefix(seen, bindings, j);
    }
    assert bindings[..|bindings|] == bindings;
  }

  /** `record["wikidata_id"] = qid` and then `record[name] = ...` for every
      catalogue column. Since every column is assigned, the record the binding
      leaves does not depend on what was there before. */
  method FillRecord(before: Record, b: Binding, names: seq<string>) returns (record: Record)
    requires IdColumn !in names
    requires before.Keys <= Columns(names)
    ensures record == IdRecord(b, names)
  {
    record := before[IdColumn := SubjectQid(b)];
    for p := 0 to |names|
      invariant forall h :: h in record <==> h in before || h == IdColumn || h in names[..p]
      invariant record[IdColumn] == SubjectQid(b)
      invariant forall h :: h in names[..p] ==> record[h] == Gv(b, h, "")
    {
      assert names[..p + 1] == names[..p] + [names[p]];
      record := record[names[p] := Gv(b, names[p], "")];
    }
    assert names[..|names|] == names;
    FilledRecord(record, before, b, names);
  }

  /** A record with exactly the catalogue columns, each holding the binding's
      value, is the one `IdRecord` describes. */
  lemma FilledRecord(record: Record, before: Record, b: Binding, names: seq<string>)
    requires before.Keys <= Columns(names)
    requires forall h :: h in record <==> h in before || h == IdColumn || h in names
    requires record[IdColumn] == SubjectQid(b)
    requires forall h :: h in names ==> record[h] == Gv(b, h, "")
    ensures record == IdRecord(b, names)
  {
    assert record.Keys == Columns(names);
    forall h | h in record ensures record[h] == IdRecord(b, names)[h] {
    }
  }

  /** `[[record.get(h, "") for h in HEADERS] for record in merged.values()]`. */
  function IdRows(merged: Dict<string, Record>, names: seq<string>): seq<seq<string>> {
    seq(|merged|, t requires 0 <= t < |merged| =>
      seq(|Headers(names)|, h requires 0 <= h < |Headers(names)| =>
        if Headers(names)[h] in merged[t].1 then merged[t].1[Headers(names)[h]] else ""))
  }

  lemma IdsSnoc(bs: seq<Binding>)
    requires bs != []
    ensures Ids(bs) == Ids(bs[..|bs| - 1]) + [SubjectQid(bs[|bs| - 1])]
  {
  }

  lemma KeysStep<V>(m: Dict<string, V>, ids: seq<string>, k: string, v: V)
    requires Keys(m) == Dedup(ids)
    ensures Keys(Put(m, k, v)) == Dedup(ids + [k])
  {
    PutKeys(m, k, v);
    DedupSnoc(ids, k);
  }

  /** There is one record per distinct identifier, in first-seen order. */
  lemma {:induction false} MergeKeys<V>(bs: seq<Binding>, record: Binding -> V)
    ensures Keys(MergeOf(bs, record)) == Dedup(Ids(bs))
  {
    if bs != [] {
      var p := bs[..|bs| - 1];
      var b := bs[|bs| - 1];
      MergeKeys(p, record);
      KeysStep(MergeOf(p, record), Ids(p), SubjectQid(b), record(b));
      IdsSnoc(bs);
      MergeUnfold(bs, record);
    }
  }

  /** The record of an identifier is the one its last binding leaves: a later
      binding overwrites every column, an empty value included. */
  lemma {:induction false} MergeLast<V>(bs: seq<Binding>, record: Binding -> V, i: nat)
    requires i < |bs| && forall j :: i < j < |bs| ==> SubjectQid(bs[j]) != SubjectQid(bs[i])
    ensures Get(MergeOf(bs, record), SubjectQid(bs[i])) == Some(record(bs[i]))
  {
    var p := bs[..|bs| - 1];
    var b := bs[|bs| - 1];
    MergeUnfold(bs, record);
    GetPut(MergeOf(p, record), SubjectQid(b), record(b), SubjectQid(bs[i]));
    if i < |bs| - 1 {
      MergeLast(p, record, i);
    }
  }

  /** A row per record, as wide as the header, starting with the record's key
      when every record stores its own key under `wikidata_id`. */
  lemma IdRowsShape(merged: Dict<string, Record>, names: seq<string>)
    requires forall e :: e in merged ==> IdColumn in e.1 && e.1[IdColumn] == e.0
    ensures |IdRows(merged, names)| == |Keys(merged)|
    ensures forall t :: 0 <= t < |merged| ==>
      |IdRows(merged, names)[t]| == |Headers(names)| && IdRows(merged, names)[t][0] == Keys(merged)[t]
  {
    forall t | 0 <= t < |merged| ensures IdRows(merged, names)[t][0] == Keys(merged)[t] {
      assert merged[t] in merged;
    }
  }

  /** Every row has the header's columns, starts with its author's identifier,
      and the rows come in first-seen order of the identifiers. */
  lemma MergedRows(bs: seq<Binding>, names: seq<string>)
    ensures |IdRows(MergeOf(bs, RecordOf(names)), names)| == |Dedup(Ids(bs))|
    ensures forall t :: 0 <= t < |IdRows(MergeOf(bs, RecordOf(names)), names)| ==>
      |IdRows(MergeOf(bs, RecordOf(names)), names)[t]| == |Headers(names)| &&
      IdRows(MergeOf(bs, RecordOf(names)), names)[t][0] == Dedup(Ids(bs))[t]
  {
    MergeKeys(bs, RecordOf(names));
    MergeShape(bs, names);
    IdRowsShape(MergeOf(bs, RecordOf(names)), names);
  }

  /** `HEADERS` has 19 columns. */
  lemma HeaderCount()
    ensures |Headers(PropNames())| == 19
  {
  }

  /** `main`: read the identifiers, merge the batched answers and lay out the rows. */
  method Harvest(input: seq<CsvRow>, answer: seq<string> -> seq<Binding>) returns (rows: seq<seq<string>>)
    ensures rows == IdRows(MergeOf(BatchedBindings(ReadIds(input), BatchSize, answer), RecordOf(PropNames())), PropNames())
  {
    var ids := ReadIds(input);
    IdColumnIsNoProp();
    var merged := Merge(ids, answer, PropNames());
    rows := IdRows(merged, PropNames());
  }
}
