/** What the use-case-3 scripts share around the Wikidata Query Service: the
    Q-identifiers read from the `wikidata_id` column of the input CSV, one
    result binding, and the loop that sends the identifiers in fixed-size
    batches and turns every binding into an output row. The endpoint is a
    parameter: `answer(batch)` is the list of bindings the query for `batch`
    returns once `run_query_with_backoff` has succeeded. */
module Wdqs {
  import opened Values
  import opened Strings
  import opened Seqs

  /** One row of `csv.DictReader`: the cells it has, by column name. */
  type CsvRow = map<string, string>

  const IdColumn: string := "wikidata_id"

  /** `row.get(column) or ""`. */
  function FieldOr(row: CsvRow, column: string): string {
    if column in row then row[column] else ""
  }

  /** The identifier `read_qids_from_csv` takes from one cell: stripped, none
      when that leaves nothing, and the text after the last `/` when it starts
      with `http`. The result is always a suffix of the stripped cell. */
  function NormaliseQid(cell: string): (r: Option<string>)
    ensures r.None? <==> Trim(cell) == ""
    ensures r.Some? ==>
      (var t := Trim(cell); |r.value| <= |t| && r.value == t[|t| - |r.value|..])
    ensures r.Some? && !StartsWith(Trim(cell), "http") ==> r.value == Trim(cell)
    ensures r.Some? && StartsWith(Trim(cell), "http") ==>
      forall k :: 0 <= k < |r.value| ==> r.value[k] != '/'
  {
    var t := Trim(cell);
    if t == "" then None
    else if StartsWith(t, "http") then
      LastSegmentSpec(t);
      Some(LastSegment(t))
    else
      Some(t)
  }

  /** The identifiers one row contributes: none or one. */
  function RowQids(): CsvRow -> seq<string> {
    row => match NormaliseQid(FieldOr(row, IdColumn)) case None => [] case Some(q) => [q]
  }

  /** The list `read_qids_from_csv` returns for the rows read, in row order. */
  function NormalisedQids(rows: seq<CsvRow>): seq<string> {
    ConcatMap(rows, RowQids())
  }

  /** `read_qids_from_csv`, over the rows the reader yields. */
  method ReadQids(rows: seq<CsvRow>) returns (qids: seq<string>)
    ensures qids == NormalisedQids(rows)
  {
    qids := [];
    for i := 0 to |rows|
      invariant qids == NormalisedQids(rows[..i])
    {
      assert rows[..i + 1][..i] == rows[..i];
      var qid := Trim(FieldOr(rows[i], IdColumn));
      if qid != "" {
        if StartsWith(qid, "http") {
          qid := LastSegment(qid);
        }
        qids := qids + [qid];
      }
    }
    assert rows[..|rows|] == rows;
  }

  /** Reading keeps the input order: the identifiers of two consecutive runs
      of rows are those of the first run followed by those of the second. */
  lemma NormalisedQidsConcat(a: seq<CsvRow>, b: seq<CsvRow>)
    ensures NormalisedQids(a + b) == NormalisedQids(a) + NormalisedQids(b)
  {
    ConcatMapConcat(a, b, RowQids());
  }

  /** An identifier is read exactly when some row's cell normalises to it. */
  lemma NormalisedQidsMember(rows: seq<CsvRow>, q: string)
    ensures q in NormalisedQids(rows) <==>
      exists i :: 0 <= i < |rows| && NormaliseQid(FieldOr(rows[i], IdColumn)) == Some(q)
  {
    ConcatMapMember(rows, RowQids(), q);
    assert forall i :: 0 <= i < |rows| ==>
      (q in RowQids()(rows[i]) <==> NormaliseQid(FieldOr(rows[i], IdColumn)) == Some(q));
  }

  const EntityPrefix: string := "http://www.wikidata.org/entity/"

  /** A bare identifier such as `Q42` is read as it is. */
  lemma NormaliseBare(q: string)
    requires q != [] && !IsSpace(q[0]) && !IsSpace(q[|q| - 1]) && !StartsWith(q, "http")
    ensures NormaliseQid(q) == Some(q)
  {
    StripUnpadded(q, IsSpace);
  }

  /** The entity URI that ends in an identifier is read as that identifier. */
  lemma NormaliseEntityUri(q: string)
    requires q != [] && !IsSpace(q[|q| - 1])
    requires forall k :: 0 <= k < |q| ==> q[k] != '/'
    ensures NormaliseQid(EntityPrefix + q) == Some(q)
  {
    var uri := EntityPrefix + q;
    assert uri[0] == 'h' && uri[|uri| - 1] == q[|q| - 1];
    StripUnpadded(uri, IsSpace);
    assert StartsWith(uri, "http");
    LastSegmentOfEntityUri(q);
  }

  lemma LastSegmentOfEntityUri(q: string)
    requires forall k :: 0 <= k < |q| ==> q[k] != '/'
    ensures LastSegment(EntityPrefix + q) == q
  {
    var uri := EntityPrefix + q;
    LastSegmentSpec(uri);
    var r := LastSegment(uri);
    var at := |EntityPrefix|;
    assert uri[at - 1] == '/';
    assert forall k :: at <= k < |uri| ==> uri[k] == q[k - at];
    SlashInSuffix(uri, at - 1, r);
    assert |r| == |q|;
    assert r == uri[at..];
  }

  /** A suffix reaching back past a slash contains it. */
  lemma SlashInSuffix(s: string, slash: nat, r: string)
    requires slash < |s| && s[slash] == '/'
    requires |r| <= |s| && r == s[|s| - |r|..]
    ensures |r| > |s| - slash - 1 ==> r[slash - (|s| - |r|)] == '/'
  {
  }

  /** One SPARQL result binding: the URI of the entity the row is about (bound
      in every row the scripts' queries return) and the other variables that
      are bound, by name. */
  datatype Binding = Binding(subject: string, values: map<string, string>)

  /** `b.get(name, {}).get("value", default)`. */
  function Gv(b: Binding, name: string, default: string): string {
    if name in b.values then b.values[name] else default
  }

  /** `uri.rsplit("/", 1)[-1]` of the subject. */
  function SubjectQid(b: Binding): string {
    LastSegment(b.subject)
  }

  /** The identifier of every binding, in order. */
  function Ids(bs: seq<Binding>): (ids: seq<string>)
    ensures |ids| == |bs| && forall i :: 0 <= i < |bs| ==> ids[i] == SubjectQid(bs[i])
  {
    seq(|bs|, i requires 0 <= i < |bs| => SubjectQid(bs[i]))
  }

  /** Every binding the batched queries return, batch after batch: batch `k`
      is `ids[k * n : k * n + n]`. */
  function BatchedBindings(ids: seq<string>, n: nat, answer: seq<string> -> seq<Binding>): seq<Binding>
    requires n > 0
  {
    ConcatMap(Chunks(ids, n), answer)
  }

  /** One turn of a batch loop: at offset `i == k * n` the loop sends chunk
      `k` of the identifiers, and the bindings seen so far grow by its answer. */
  lemma BatchAdvance(ids: seq<string>, n: nat, answer: seq<string> -> seq<Binding>, k: nat, i: nat)
    requires n > 0 && i == k * n && i < |ids|
    ensures k < |Chunks(ids, n)| && Chunks(ids, n)[k] == ids[i..Min(i + n, |ids|)]
    ensures ConcatMap(Chunks(ids, n)[..k + 1], answer) == ConcatMap(Chunks(ids, n)[..k], answer) + answer(ids[i..Min(i + n, |ids|)])
    ensures i + n == (k + 1) * n
    ensures k + 1 < |Chunks(ids, n)| <==> i + n < |ids|
  {
    ChunkAt(ids, n, k, i);
    ConcatMapPrefix(Chunks(ids, n), k, answer);
    MulStep(k + 1, n);
    ChunkAt(ids, n, k + 1, i + n);
  }

  /** The batch loop of `main`: `for i in range(0, len(ids), n)` sends
      `ids[i:i + n]` and appends one row per binding of the answer. */
  method BatchRows<R>(ids: seq<string>, n: nat, answer: seq<string> -> seq<Binding>, row: Binding -> R)
    returns (rows: seq<R>)
    requires n > 0
    ensures |rows| == |BatchedBindings(ids, n, answer)|
    ensures forall t :: 0 <= t < |rows| ==> rows[t] == row(BatchedBindings(ids, n, answer)[t])
  {
    ghost var chunks := Chunks(ids, n);
    ghost var seen: seq<Binding> := [];
    ghost var k: nat := 0;
    rows := [];
    var i := 0;
    ChunkAt(ids, n, 0, 0);
    while i < |ids|
      invariant i == k * n && k <= |chunks|
      invariant k < |chunks| <==> i < |ids|
      invariant seen == ConcatMap(chunks[..k], answer)
      invariant |rows| == |seen| && forall t :: 0 <= t < |rows| ==> rows[t] == row(seen[t])
      decreases |ids| - i
    {
      BatchAdvance(ids, n, answer, k, i);
      var batch := ids[i..Min(i + n, |ids|)];
      var bindings := answer(batch);
      var after := AppendRows(rows, bindings, row);
      RowsOfAppended(rows, seen, bindings, after, row);
      rows, seen := after, seen + bindings;
      i := i + n;
      k := k + 1;
    }
    assert chunks[..k] == chunks;
  }

  /** The inner loop of `main`: one row per binding of the batch. */
  method AppendRows<R>(rows: seq<R>, bindings: seq<Binding>, row: Binding -> R) returns (after: seq<R>)
    ensures |after| == |rows| + |bindings|
    ensures forall t :: 0 <= t < |rows| ==> after[t] == rows[t]
    ensures forall j :: 0 <= j < |bindings| ==> after[|rows| + j] == row(bindings[j])
  {
    after := rows;
    for j := 0 to |bindings|
      invariant |after| == |rows| + j
      invariant forall t :: 0 <= t < |rows| ==> after[t] == rows[t]
      invariant forall i :: 0 <= i < j ==> after[|rows| + i] == row(bindings[i])
    {
      after := after + [row(bindings[j])];
    }
  }

  /** Rows that match the bindings seen, extended by one row per new binding,
      match the extended bindings. */
  lemma RowsOfAppended<R>(rows: seq<R>, seen: seq<Binding>, bindings: seq<Binding>, after: seq<R>, row: Binding -> R)
    requires |rows| == |seen| && forall t :: 0 <= t < |rows| ==> rows[t] == row(seen[t])
    requires |after| == |rows| + |bindings|
    requires forall t :: 0 <= t < |rows| ==> after[t] == rows[t]
    requires forall j :: 0 <= j < |bindings| ==> after[|rows| + j] == row(bindings[j])
    ensures |after| == |seen + bindings| && forall t :: 0 <= t < |after| ==> after[t] == row((seen + bindings)[t])
  {
    forall t | 0 <= t < |after| ensures after[t] == row((seen + bindings)[t]) {
      if t >= |rows| {
        assert after[|rows| + (t - |rows|)] == row(bindings[t - |rows|]);
      }
    }
  }
}
