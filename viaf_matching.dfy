/** Matching the authors exclusive to Trismegistos with MEDIATE authors by VIAF
    cluster ID (use-case-2, script 05): the raw MEDIATE author table gains a
    numeric `viaf_id`, each Trismegistos QID gets the list of VIAF IDs Wikidata
    knows for it, a MEDIATE entry is matched only when exactly one QID carries
    its VIAF ID, and the matches are appended to the MEDIATE list. */
module ViafMatching {
  import opened Values
  import opened Strings
  import opened Seqs
  import opened Records
  import opened Dicts
  import opened Ranking

  const ViafUrlField: string := "VIAF ID (https://viaf.org)"
  const ViafIdField: string := "viaf_id"
  const QidField: string := "q_identifier"

  // ---------------------------------------------------------------------
  // modifying_viaf_id_json

  /** The `viaf_id` an entry's VIAF URL gives: the last `/`-segment once trailing
      slashes are gone, None (`Null`) for an absent or empty URL. A URL that is
      truthy but not text makes `rstrip` raise, shown here as `None`. */
  function FormatViaf(url: Value): (r: Option<Value>)
    ensures !Truthy(url) <==> r == Some(Null)
    ensures r.None? <==> Truthy(url) && !url.Str?
    ensures url.Str? && url.s != "" ==> (r.Some? && r.value.Str? &&
      var u := RStrip(url.s, IsSlash);
      var v := r.value.s;
      |v| <= |u| && v == u[|u| - |v|..] && (forall k :: 0 <= k < |v| ==> v[k] != '/') &&
      (|v| < |u| ==> u[|u| - |v| - 1] == '/') && (v == [] || v[|v| - 1] != '/'))
  {
    if !Truthy(url) then Some(Null)
    else if url.Str? then
      var u := RStrip(url.s, IsSlash);
      LastSegmentSpec(u);
      Some(Str(LastSegment(u)))
    else None
  }

  predicate FormatFails(e: Row) {
    FormatViaf(Cell(e, ViafUrlField)).None?
  }

  /** One entry after the loop body: it gains `viaf_id`, or stays as it was when
      formatting raised. */
  function FormatEntry(e: Row): (r: Row)
    ensures FormatFails(e) ==> r == e
    ensures !FormatFails(e) ==> (r.Keys == e.Keys + {ViafIdField} &&
      r[ViafIdField] == FormatViaf(Cell(e, ViafUrlField)).value)
    ensures forall c :: c in e && c != ViafIdField ==> c in r && r[c] == e[c]
  {
    match FormatViaf(Cell(e, ViafUrlField))
    case Some(v) => e[ViafIdField := v]
    case None => e
  }

  /** The one-based numbers of the entries whose formatting raised. */
  function FailedEntries(entries: seq<Row>): (r: seq<nat>)
    ensures forall k :: 0 <= k < |r| ==> 1 <= r[k] <= |entries| && FormatFails(entries[r[k] - 1])
    ensures forall i :: 0 <= i < |entries| && FormatFails(entries[i]) ==> i + 1 in r
    ensures forall k, l :: 0 <= k < l < |r| ==> r[k] < r[l]
  {
    var r := OneBasedPositions(entries, FormatFailsOf());
    OneBasedPositionsSound(entries, FormatFailsOf());
    forall i | 0 <= i < |entries| && FormatFails(entries[i]) ensures i + 1 in r {
      OneBasedPositionsComplete(entries, FormatFailsOf(), i);
    }
    r
  }

  function FormatFailsOf(): Row -> bool {
    e => FormatFails(e)
  }

  /** One more entry adds its number exactly when its formatting raises. */
  lemma FailedEntriesSnoc(entries: seq<Row>, i: nat)
    requires i < |entries|
    ensures FailedEntries(entries[..i + 1]) ==
      FailedEntries(entries[..i]) + if FormatFails(entries[i]) then [i + 1] else []
  {
    assert entries[..i + 1][..i] == entries[..i];
  }

  /** The loop over the raw MEDIATE table, rewriting each entry in place and
      logging the entries that raised. */
  method ModifyViafIds(data: array<Row>) returns (errors: seq<nat>)
    modifies data
    ensures forall i :: 0 <= i < data.Length ==> data[i] == FormatEntry(old(data[i]))
    ensures errors == FailedEntries(old(data[..]))
  {
    errors := [];
    for i := 0 to data.Length
      invariant forall j :: 0 <= j < i ==> data[j] == FormatEntry(old(data[j]))
      invariant forall j :: i <= j < data.Length ==> data[j] == old(data[j])
      invariant errors == FailedEntries(old(data[..])[..i])
    {
      var entry := data[i];
      FailedEntriesSnoc(old(data[..]), i);
      assert old(data[..])[i] == entry;
      match FormatViaf(Cell(entry, ViafUrlField))
      case Some(v) =>
        data[i] := entry[ViafIdField := v];
      case None =>
        errors := errors + [i + 1];
    }
    assert old(data[..])[..data.Length] == old(data[..]);
  }

  // ---------------------------------------------------------------------
  // viaf_ids_trismegistos_authors

  /** One Wikidata binding: the item URI and, when present, a VIAF ID. */
  datatype ViafBinding = ViafBinding(item: string, viaf: Option<string>)

  /** The binding carries a usable VIAF ID for `q`. */
  predicate GivesViaf(b: ViafBinding, q: string) {
    LastSegment(b.item) == q && b.viaf.Some? && b.viaf.value != ""
  }

  /** The VIAF IDs the bindings give for `q`, in binding order, repeats kept. */
  function ViafsFor(bs: seq<ViafBinding>, q: string): seq<string> {
    if bs == [] then []
    else
      var b := bs[|bs| - 1];
      ViafsFor(bs[..|bs| - 1], q) + if GivesViaf(b, q) then [b.viaf.value] else []
  }

  lemma {:induction false} ViafsForSpec(bs: seq<ViafBinding>, q: string, v: string)
    ensures v in ViafsFor(bs, q) <==> exists i :: 0 <= i < |bs| && GivesViaf(bs[i], q) && bs[i].viaf.value == v
  {
    if bs != [] {
      var p := bs[..|bs| - 1];
      ViafsForSpec(p, q, v);
      assert forall i :: 0 <= i < |p| ==> p[i] == bs[i];
    }
  }

  /** The map after one binding with a VIAF ID is processed: the `defaultdict`
      entry is created on first access and the ID appended when new. */
  function Appended(m: map<string, seq<string>>, q: string, v: string): map<string, seq<string>> {
    var cur := if q in m then m[q] else [];
    if v !in cur then m[q := cur + [v]] else m
  }

  /** The map the loop has built after the given bindings. */
  function ViafMapAfter(bs: seq<ViafBinding>): map<string, seq<string>> {
    if bs == [] then map[]
    else
      var m := ViafMapAfter(bs[..|bs| - 1]);
      var b := bs[|bs| - 1];
      if b.viaf.Some? && b.viaf.value != "" then Appended(m, LastSegment(b.item), b.viaf.value) else m
  }

  /** The loop that fills `defaultdict(list)`: for each binding with a VIAF ID,
      append it to its QID's list unless already there. A QID gets a key only
      once some binding gives it a VIAF ID, and its list is then the distinct
      VIAF IDs in first-seen order. */
  method QidViafMap(bs: seq<ViafBinding>) returns (m: map<string, seq<string>>)
    ensures forall q :: q in m <==> ViafsFor(bs, q) != []
    ensures forall q :: q in m ==> m[q] == Dedup(ViafsFor(bs, q))
  {
    m := map[];
    for i := 0 to |bs|
      invariant m == ViafMapAfter(bs[..i])
    {
      var b := bs[i];
      var q := LastSegment(b.item);
      assert bs[..i + 1][..i] == bs[..i];
      if b.viaf.Some? && b.viaf.value != "" {
        var v := b.viaf.value;
        var cur := if q in m then m[q] else [];
        if v !in cur {
          m := m[q := cur + [v]];
        }
      }
    }
    assert bs[..|bs|] == bs;
    forall q ensures (q in m <==> ViafsFor(bs, q) != []) && (q in m ==> m[q] == Dedup(ViafsFor(bs, q))) {
      ViafMapAt(bs, q);
    }
  }

  lemma {:induction false} ViafMapAt(bs: seq<ViafBinding>, q: string)
    ensures var m := ViafMapAfter(bs);
      (q in m <==> ViafsFor(bs, q) != []) && (q in m ==> m[q] == Dedup(ViafsFor(bs, q)))
  {
    if bs != [] {
      var p := bs[..|bs| - 1];
      var b := bs[|bs| - 1];
      ViafMapAt(p, q);
      var x := ViafsFor(p, q);
      var m0 := ViafMapAfter(p);
      if GivesViaf(b, q) {
        var v := b.viaf.value;
        assert ViafsFor(bs, q) == x + [v];
        assert ViafMapAfter(bs) == Appended(m0, q, v);
        AppendedSame(m0, q, v, x);
      } else if b.viaf.Some? && b.viaf.value != "" {
        assert ViafsFor(bs, q) == x;
        assert ViafMapAfter(bs) == Appended(m0, LastSegment(b.item), b.viaf.value);
        AppendedOther(m0, LastSegment(b.item), b.viaf.value, q);
      } else {
        assert ViafsFor(bs, q) == x;
        assert ViafMapAfter(bs) == m0;
      }
    }
  }

  /** Appending a VIAF ID to the list of `q` keeps that list the distinct IDs
      seen for `q`. */
  lemma AppendedSame(m: map<string, seq<string>>, q: string, v: string, x: seq<string>)
    requires (q in m <==> x != []) && (q in m ==> m[q] == Dedup(x))
    ensures var m' := Appended(m, q, v); q in m' && m'[q] == Dedup(x + [v])
  {
    DedupSnoc(x, v);
  }

  /** Appending to the list of another QID leaves that of `q` alone. */
  lemma AppendedOther(m: map<string, seq<string>>, q0: string, v: string, q: string)
    requires q0 != q
    ensures var m' := Appended(m, q0, v); (q in m' <==> q in m) && (q in m ==> m'[q] == m[q])
  {
  }

  /** The VIAF list a QID gets: `dict.get(qid, [])`. */
  function ViafList(bs: seq<ViafBinding>, q: string): seq<string> {
    Dedup(ViafsFor(bs, q))
  }

  /** The QID a row is looked up by. */
  function QidOf(r: Row): string {
    Stringify(Cell(r, QidField))
  }

  /** Each exclusive Trismegistos row with its VIAF list, JSON-encoded. */
  function WithViafLists(rows: seq<Row>, bs: seq<ViafBinding>): (out: seq<Row>)
    ensures |out| == |rows|
    ensures forall i :: 0 <= i < |rows| ==> out[i] == rows[i][ViafIdField := JsonDumps(List(ViafList(bs, QidOf(rows[i]))))]
  {
    seq(|rows|, i requires 0 <= i < |rows| => rows[i][ViafIdField := JsonDumps(List(ViafList(bs, QidOf(rows[i]))))])
  }

  /** `viaf_id == '[]'`. */
  predicate NoViafIds(r: Row) {
    Cell(r, ViafIdField) == JsonDumps(List([]))
  }

  function NoViafFilter(): Row -> bool {
    r => NoViafIds(r)
  }

  /** A row lands among the "no VIAF" rows exactly when no binding gives its QID
      a VIAF ID. */
  lemma NoViafMeansNoBinding(rows: seq<Row>, bs: seq<ViafBinding>, i: nat)
    requires i < |rows|
    ensures NoViafIds(WithViafLists(rows, bs)[i]) <==> ViafsFor(bs, QidOf(rows[i])) == []
  {
    var x := ViafsFor(bs, QidOf(rows[i]));
    if x != [] {
      assert x[0] in Dedup(x);
    }
  }

  datatype ViafSplit = ViafSplit(noViaf: seq<Row>, withViaf: seq<Row>)

  /** `viaf_ids_trismegistos_authors` after the query: the rows without any VIAF
      ID and the rows with some, which together are every row. */
  method ViafIdsOfTrismegistosAuthors(rows: seq<Row>, bs: seq<ViafBinding>) returns (r: ViafSplit)
    ensures r.noViaf == Filter(WithViafLists(rows, bs), NoViafFilter())
    ensures r.withViaf == Reject(WithViafLists(rows, bs), NoViafFilter())
    ensures |r.noViaf| + |r.withViaf| == |rows|
  {
    var m := QidViafMap(bs);
    var withLists := seq(|rows|, i requires 0 <= i < |rows| =>
      rows[i][ViafIdField := JsonDumps(List(if QidOf(rows[i]) in m then m[QidOf(rows[i])] else []))]);
    assert withLists == WithViafLists(rows, bs);
    r := ViafSplit(Filter(withLists, NoViafFilter()), Reject(withLists, NoViafFilter()));
    FilterPartition(withLists, NoViafFilter());
  }

  // ---------------------------------------------------------------------
  // matching_viaf_ids_trismegistos_exclusive_to_mediate_authors_JSON_table

  /** `set_index('q_identifier')['viaf_id'].to_dict()` after `json.loads`: a
      later row with the same QID overwrites the earlier value in place. */
  function TmViafDict(tm: seq<Row>): (d: Dict<string, Value>)
    ensures Valid(d)
  {
    if tm == [] then []
    else
      var p := TmViafDict(tm[..|tm| - 1]);
      var r := tm[|tm| - 1];
      PutValid(p, QidOf(r), JsonLoads(Cell(r, ViafIdField)));
      Put(p, QidOf(r), JsonLoads(Cell(r, ViafIdField)))
  }

  /** The VIAF list of the last row with QID `q`. */
  function LastViafList(tm: seq<Row>, q: string): Option<Value> {
    if tm == [] then None
    else if QidOf(tm[|tm| - 1]) == q then Some(JsonLoads(Cell(tm[|tm| - 1], ViafIdField)))
    else LastViafList(tm[..|tm| - 1], q)
  }

  /** Looking a QID up in the dictionary gives the list of its last row. */
  lemma {:induction false} TmViafDictLast(tm: seq<Row>, q: string)
    ensures Get(TmViafDict(tm), q) == LastViafList(tm, q)
  {
    if tm != [] {
      var r := tm[|tm| - 1];
      TmViafDictLast(tm[..|tm| - 1], q);
      GetPut(TmViafDict(tm[..|tm| - 1]), QidOf(r), JsonLoads(Cell(r, ViafIdField)), q);
    }
  }

  /** `target_viaf_id in viaf_ids` for a list of IDs. */
  predicate HoldsViaf(ids: Value, target: Value) {
    ids.List? && target.Str? && target.s in ids.items
  }

  /** `[q for q, viaf_ids in d.items() if target in viaf_ids]`, in dictionary
      order. */
  function Candidates(d: Dict<string, Value>, target: Value): (r: seq<string>)
    ensures forall k :: 0 <= k < |r| ==> r[k] in Keys(d)
  {
    if d == [] then []
    else (if HoldsViaf(d[0].1, target) then [d[0].0] else []) + Candidates(d[1..], target)
  }

  /** A QID is a candidate exactly when its VIAF list holds the target. */
  lemma {:induction false} CandidatesSpec(d: Dict<string, Value>, target: Value, q: string)
    requires Valid(d)
    ensures q in Candidates(d, target) <==> Get(d, q).Some? && HoldsViaf(Get(d, q).value, target)
  {
    if d != [] {
      assert Keys(d) == [d[0].0] + Keys(d[1..]);
      assert Valid(d[1..]) by {
        assert forall i :: 0 <= i < |d| - 1 ==> Keys(d[1..])[i] == Keys(d)[i + 1];
      }
      CandidatesSpec(d[1..], target, q);
      if d[0].0 == q {
        assert q !in Keys(d[1..]);
      }
    }
  }

  /** One record of `multiple_qids_matched`. */
  datatype Ambiguity = Ambiguity(viaf: Value, qids: seq<string>, labels: seq<Value>)

  function QidIn(qids: seq<string>): Row -> bool {
    r => QidOf(r) in qids
  }

  /** The Trismegistos labels of the candidate rows, in row order. */
  function CandidateLabels(tm: seq<Row>, qids: seq<string>): (r: seq<Value>)
    ensures |r| <= |tm|
    ensures forall v :: v in r <==>
      exists row :: row in tm && QidOf(row) in qids && Cell(row, "trismegistos_label") == v
  {
    var rows := Filter(tm, QidIn(qids));
    var r := Column(rows, "trismegistos_label");
    forall v ensures v in r <==> exists row :: row in tm && QidOf(row) in qids && Cell(row, "trismegistos_label") == v {
      if v in r {
        var i :| 0 <= i < |r| && r[i] == v;
        assert rows[i] in rows;
      }
      if exists row :: row in tm && QidOf(row) in qids && Cell(row, "trismegistos_label") == v {
        var row :| row in tm && QidOf(row) in qids && Cell(row, "trismegistos_label") == v;
        assert row in rows;
        var i :| 0 <= i < |rows| && rows[i] == row;
        assert r[i] == v;
      }
    }
    r
  }

  /** `find_qids_by_viaf_id`: the one candidate when there is exactly one;
      otherwise None, and an ambiguity record listing every candidate when there
      are several. It never chooses among candidates. */
  method FindQidsByViaf(tm: seq<Row>, d: Dict<string, Value>, target: Value, multiple: seq<Ambiguity>)
    returns (q: Option<string>, multipleOut: seq<Ambiguity>)
    ensures var c := Candidates(d, target);
      (|c| == 0 ==> q == None && multipleOut == multiple) &&
      (|c| == 1 ==> q == Some(c[0]) && multipleOut == multiple) &&
      (|c| > 1 ==> q == None && multipleOut == multiple + [Ambiguity(target, c, CandidateLabels(tm, c))])
  {
    var matched := Candidates(d, target);
    multipleOut := multiple;
    if |matched| > 1 {
      multipleOut := multiple + [Ambiguity(target, matched, CandidateLabels(tm, matched))];
      q := None;
    } else if |matched| == 0 {
      q := None;
    } else {
      q := Some(matched[0]);
    }
  }

  /** The QID a MEDIATE entry is matched to: its VIAF ID must be truthy and held
      by exactly one Trismegistos QID, which must itself be truthy. */
  function MatchedQid(d: Dict<string, Value>, entry: Row): (r: Option<string>)
    ensures r.Some? <==> (Truthy(Cell(entry, ViafIdField)) &&
      |Candidates(d, Cell(entry, ViafIdField))| == 1 && Candidates(d, Cell(entry, ViafIdField))[0] != "")
    ensures r.Some? ==> Candidates(d, Cell(entry, ViafIdField)) == [r.value] && r.value in Keys(d)
  {
    var viaf := Cell(entry, ViafIdField);
    if !Truthy(viaf) then None
    else
      var c := Candidates(d, viaf);
      if |c| == 1 && c[0] != "" then Some(c[0]) else None
  }

  /** The first Trismegistos row with the QID (`.loc[...].iloc[0]`). */
  function TmRowFor(tm: seq<Row>, q: string): (r: Option<Row>)
    ensures r.Some? ==> r.value in tm && QidOf(r.value) == q
    ensures r.Some? ==> exists i :: 0 <= i < |tm| && tm[i] == r.value && forall j :: 0 <= j < i ==> QidOf(tm[j]) != q
    ensures r.None? ==> forall i :: 0 <= i < |tm| ==> QidOf(tm[i]) != q
  {
    if tm == [] then None
    else if QidOf(tm[0]) == q then Some(tm[0])
    else TmRowFor(tm[1..], q)
  }

  /** A label of the matched row, None when there is no such row. */
  function LabelOf(t: Option<Row>, column: string): Value {
    if t.Some? then Cell(t.value, column) else Null
  }

  /** A list column of the matched row, `[]` for None, written back with
      `json.dumps`. */
  function AliasesOf(t: Option<Row>, column: string): Value {
    var loaded := if t.Some? then JsonLoads(Cell(t.value, column)) else Null;
    JsonDumps(if loaded.Null? then List([]) else loaded)
  }

  const MatchColumns: set<string> := {
    "english_label", "french_label", "latin_label", "q_identifier", "mediate_label", "viaf_id",
    "mediate_nb_items", "mediate_nb_collections", "english_aliases", "french_aliases",
    "latin_aliases", "writing_languages"}

  /** The row a unique match appends: Trismegistos labels and aliases, MEDIATE
      name, VIAF ID and counts. */
  function MatchRow(entry: Row, t: Option<Row>, q: string): (r: Row)
    ensures forall c :: c in r <==> c in MatchColumns
    ensures r["q_identifier"] == Str(q)
  {
    map[
      "english_label" := LabelOf(t, "english_label"),
      "french_label" := LabelOf(t, "french_label"),
      "latin_label" := LabelOf(t, "latin_label"),
      "q_identifier" := Str(q),
      "mediate_label" := Cell(entry, "short_name"),
      "viaf_id" := Cell(entry, ViafIdField),
      "mediate_nb_items" := Cell(entry, "# items"),
      "mediate_nb_collections" := Cell(entry, "# collections"),
      "english_aliases" := AliasesOf(t, "english_aliases"),
      "french_aliases" := AliasesOf(t, "french_aliases"),
      "latin_aliases" := AliasesOf(t, "latin_aliases"),
      "writing_languages" := AliasesOf(t, "writing_languages")]
  }

  /** The MEDIATE columns of a match row come from the entry. */
  lemma MatchRowMediateCells(entry: Row, t: Option<Row>, q: string)
    ensures var r := MatchRow(entry, t, q);
      r["viaf_id"] == Cell(entry, ViafIdField) && r["mediate_label"] == Cell(entry, "short_name") &&
      r["mediate_nb_items"] == Cell(entry, "# items") && r["mediate_nb_collections"] == Cell(entry, "# collections")
  {
  }

  /** The label columns of a match row are the Trismegistos row's labels. */
  lemma MatchRowTrismegistosLabels(entry: Row, t: Option<Row>, q: string)
    ensures var r := MatchRow(entry, t, q);
      r["english_label"] == LabelOf(t, "english_label") &&
      r["french_label"] == LabelOf(t, "french_label") &&
      r["latin_label"] == LabelOf(t, "latin_label")
  {
  }

  /** The list columns of a match row are the Trismegistos row's lists,
      re-encoded. */
  lemma MatchRowTrismegistosLists(entry: Row, t: Option<Row>, q: string)
    ensures var r := MatchRow(entry, t, q);
      r["english_aliases"] == AliasesOf(t, "english_aliases") &&
      r["french_aliases"] == AliasesOf(t, "french_aliases") &&
      r["latin_aliases"] == AliasesOf(t, "latin_aliases") &&
      r["writing_languages"] == AliasesOf(t, "writing_languages")
  {
  }

  /** What one MEDIATE entry contributes to the matches: one row for a unique
      match, nothing otherwise. */
  function MatchOf(tm: seq<Row>, d: Dict<string, Value>): Row -> seq<Row> {
    entry => match MatchedQid(d, entry)
      case Some(q) => [MatchRow(entry, TmRowFor(tm, q), q)]
      case None => []
  }

  /** What one MEDIATE entry contributes to `multiple_qids_matched`. */
  function AmbiguityOf(tm: seq<Row>, d: Dict<string, Value>): Row -> seq<Ambiguity> {
    entry =>
      var viaf := Cell(entry, ViafIdField);
      var c := Candidates(d, viaf);
      if Truthy(viaf) && |c| > 1 then [Ambiguity(viaf, c, CandidateLabels(tm, c))] else []
  }

  /** The loop over the formatted MEDIATE table. */
  method MatchEntries(data: seq<Row>, tm: seq<Row>) returns (matches: seq<Row>, multiple: seq<Ambiguity>)
    ensures matches == ConcatMap(data, MatchOf(tm, TmViafDict(tm)))
    ensures multiple == ConcatMap(data, AmbiguityOf(tm, TmViafDict(tm)))
  {
    var d := TmViafDict(tm);
    matches := [];
    multiple := [];
    for i := 0 to |data|
      invariant matches == ConcatMap(data[..i], MatchOf(tm, d))
      invariant multiple == ConcatMap(data[..i], AmbiguityOf(tm, d))
    {
      ConcatMapPrefix(data, i, MatchOf(tm, d));
      ConcatMapPrefix(data, i, AmbiguityOf(tm, d));
      matches, multiple := MatchEntry(tm, d, data[i], matches, multiple);
    }
    assert data[..|data|] == data;
  }

  /** One turn of the loop: an entry without a VIAF ID is skipped, otherwise
      the lookup may record an ambiguity and a unique non-empty QID adds a row. */
  method MatchEntry(tm: seq<Row>, d: Dict<string, Value>, entry: Row, matches: seq<Row>, multiple: seq<Ambiguity>)
    returns (matchesOut: seq<Row>, multipleOut: seq<Ambiguity>)
    ensures matchesOut == matches + MatchOf(tm, d)(entry)
    ensures multipleOut == multiple + AmbiguityOf(tm, d)(entry)
  {
    matchesOut, multipleOut := matches, multiple;
    var viaf := Cell(entry, ViafIdField);
    if !Truthy(viaf) {
      return;
    }
    var q;
    q, multipleOut := FindQidsByViaf(tm, d, viaf, multiple);
    if q.None? || q.value == "" {
      return;
    }
    matchesOut := matches + [MatchRow(entry, TmRowFor(tm, q.value), q.value)];
  }

  function QidSet(rows: seq<Row>): set<string> {
    set i | 0 <= i < |rows| :: QidOf(rows[i])
  }

  function AmbiguousQids(multiple: seq<Ambiguity>): set<string> {
    set i, k | 0 <= i < |multiple| && 0 <= k < |multiple[i].qids| :: multiple[i].qids[k]
  }

  /** `all_tm_qids - matched_tm_unique_qids - matched_tm_multiple_qids`. */
  function UnmatchedQids(tm: seq<Row>, matches: seq<Row>, multiple: seq<Ambiguity>): set<string> {
    QidSet(tm) - QidSet(matches) - AmbiguousQids(multiple)
  }

  /** A QID is among the matched rows exactly when some entry was matched to it. */
  lemma MatchedQidsSpec(data: seq<Row>, tm: seq<Row>, q: string)
    ensures var d := TmViafDict(tm);
      q in QidSet(ConcatMap(data, MatchOf(tm, d))) <==> exists i :: 0 <= i < |data| && MatchedQid(d, data[i]) == Some(q)
  {
    var d := TmViafDict(tm);
    var ms := ConcatMap(data, MatchOf(tm, d));
    if q in QidSet(ms) {
      var k :| 0 <= k < |ms| && QidOf(ms[k]) == q;
      MatchedRowOrigin(data, tm, ms[k]);
    }
    forall i | 0 <= i < |data| && MatchedQid(d, data[i]) == Some(q) ensures q in QidSet(ms) {
      MatchedEntryRow(data, tm, i);
    }
  }

  /** A matched entry's row is among the matches. */
  lemma MatchedEntryRow(data: seq<Row>, tm: seq<Row>, i: nat)
    requires i < |data| && MatchedQid(TmViafDict(tm), data[i]).Some?
    ensures MatchedQid(TmViafDict(tm), data[i]).value in QidSet(ConcatMap(data, MatchOf(tm, TmViafDict(tm))))
  {
    var d := TmViafDict(tm);
    var q := MatchedQid(d, data[i]).value;
    var ms := ConcatMap(data, MatchOf(tm, d));
    var row := MatchRow(data[i], TmRowFor(tm, q), q);
    assert MatchOf(tm, d)(data[i]) == [row];
    ConcatMapMember(data, MatchOf(tm, d), row);
    MatchRowQid(data[i], TmRowFor(tm, q), q);
    var k :| 0 <= k < |ms| && ms[k] == row;
  }

  /** Every matched row comes from an entry matched to the row's QID. */
  lemma MatchedRowOrigin(data: seq<Row>, tm: seq<Row>, row: Row)
    requires row in ConcatMap(data, MatchOf(tm, TmViafDict(tm)))
    ensures exists i :: 0 <= i < |data| && MatchedQid(TmViafDict(tm), data[i]) == Some(QidOf(row))
  {
    var d := TmViafDict(tm);
    ConcatMapMember(data, MatchOf(tm, d), row);
    var i :| 0 <= i < |data| && row in MatchOf(tm, d)(data[i]);
    MatchOfRow(tm, data[i], row);
    var q := MatchedQid(d, data[i]).value;
    MatchRowQid(data[i], TmRowFor(tm, q), q);
  }

  lemma MatchRowQid(entry: Row, t: Option<Row>, q: string)
    ensures QidOf(MatchRow(entry, t, q)) == q
  {
  }

  lemma MatchOfRow(tm: seq<Row>, e: Row, row: Row)
    requires row in MatchOf(tm, TmViafDict(tm))(e)
    ensures var q := MatchedQid(TmViafDict(tm), e);
      q.Some? && row == MatchRow(e, TmRowFor(tm, q.value), q.value)
  {
  }

  /** A QID is named by an ambiguity record exactly when it is one of several
      candidates for some entry's VIAF ID. */
  lemma AmbiguousQidsSpec(data: seq<Row>, tm: seq<Row>, q: string)
    ensures var d := TmViafDict(tm);
      q in AmbiguousQids(ConcatMap(data, AmbiguityOf(tm, d))) <==>
      exists i :: 0 <= i < |data| && Truthy(Cell(data[i], ViafIdField)) &&
        |Candidates(d, Cell(data[i], ViafIdField))| > 1 && q in Candidates(d, Cell(data[i], ViafIdField))
  {
    var d := TmViafDict(tm);
    if q in AmbiguousQids(ConcatMap(data, AmbiguityOf(tm, d))) {
      var i := AmbiguityOrigin(data, tm, q);
    }
    if exists i :: 0 <= i < |data| && Truthy(Cell(data[i], ViafIdField)) &&
        |Candidates(d, Cell(data[i], ViafIdField))| > 1 && q in Candidates(d, Cell(data[i], ViafIdField)) {
      var i :| 0 <= i < |data| && Truthy(Cell(data[i], ViafIdField)) &&
        |Candidates(d, Cell(data[i], ViafIdField))| > 1 && q in Candidates(d, Cell(data[i], ViafIdField));
      AmbiguityReported(data, tm, q, i);
    }
  }

  /** A QID named by an ambiguity record is a candidate of entry `i`, which has
      several candidates. */
  lemma AmbiguityOrigin(data: seq<Row>, tm: seq<Row>, q: string) returns (i: nat)
    requires q in AmbiguousQids(ConcatMap(data, AmbiguityOf(tm, TmViafDict(tm))))
    ensures i < |data|
    ensures var v := Cell(data[i], ViafIdField); var c := Candidates(TmViafDict(tm), v);
      Truthy(v) && |c| > 1 && q in c
  {
    var d := TmViafDict(tm);
    var am := ConcatMap(data, AmbiguityOf(tm, d));
    var j, k :| 0 <= j < |am| && 0 <= k < |am[j].qids| && am[j].qids[k] == q;
    ConcatMapMember(data, AmbiguityOf(tm, d), am[j]);
    i :| 0 <= i < |data| && am[j] in AmbiguityOf(tm, d)(data[i]);
  }

  /** Every candidate of an entry with several candidates is named by its
      ambiguity record. */
  lemma AmbiguityReported(data: seq<Row>, tm: seq<Row>, q: string, i: nat)
    requires i < |data|
    requires var v := Cell(data[i], ViafIdField); var c := Candidates(TmViafDict(tm), v);
      Truthy(v) && |c| > 1 && q in c
    ensures q in AmbiguousQids(ConcatMap(data, AmbiguityOf(tm, TmViafDict(tm))))
  {
    var d := TmViafDict(tm);
    var am := ConcatMap(data, AmbiguityOf(tm, d));
    var a := AmbiguityOf(tm, d)(data[i])[0];
    ConcatMapMember(data, AmbiguityOf(tm, d), a);
    var j :| 0 <= j < |am| && am[j] == a;
    var k :| 0 <= k < |a.qids| && a.qids[k] == q;
  }

  /** `df[df['q_identifier'].isin(unmatched)]`. */
  function QidInSet(qs: set<string>): Row -> bool {
    r => QidOf(r) in qs
  }

  /** A TM row is reported unmatched exactly when no entry was matched to its
      QID and its QID was not one of several candidates for any entry. */
  lemma UnmatchedSpec(data: seq<Row>, tm: seq<Row>, k: nat)
    requires k < |tm|
    ensures var d := TmViafDict(tm);
      var q := QidOf(tm[k]);
      tm[k] in Filter(tm, QidInSet(UnmatchedQids(tm, ConcatMap(data, MatchOf(tm, d)), ConcatMap(data, AmbiguityOf(tm, d))))) <==>
      (!(exists i :: 0 <= i < |data| && MatchedQid(d, data[i]) == Some(q)) &&
       !(exists i :: (0 <= i < |data| && Truthy(Cell(data[i], ViafIdField)) &&
         |Candidates(d, Cell(data[i], ViafIdField))| > 1 && q in Candidates(d, Cell(data[i], ViafIdField)))))
  {
    var d := TmViafDict(tm);
    var q := QidOf(tm[k]);
    var un := UnmatchedQids(tm, ConcatMap(data, MatchOf(tm, d)), ConcatMap(data, AmbiguityOf(tm, d)));
    MatchedQidsSpec(data, tm, q);
    AmbiguousQidsSpec(data, tm, q);
    assert q in QidSet(tm);
    assert tm[k] in Filter(tm, QidInSet(un)) <==> q in un;
  }

  // The final concatenated table.

  /** `pd.to_numeric(errors='coerce').fillna(0).astype(int)` on both counts. */
  function CoerceMediateCounts(r: Row): (out: Row)
    ensures out.Keys == r.Keys + {"mediate_nb_items", "mediate_nb_collections"}
    ensures out["mediate_nb_items"] == Int(CoerceCount(Cell(r, "mediate_nb_items")))
    ensures out["mediate_nb_collections"] == Int(CoerceCount(Cell(r, "mediate_nb_collections")))
    ensures forall c :: c in r && c != "mediate_nb_items" && c != "mediate_nb_collections" ==> out[c] == r[c]
  {
    r["mediate_nb_collections" := Int(CoerceCount(Cell(r, "mediate_nb_collections")))]
      ["mediate_nb_items" := Int(CoerceCount(Cell(r, "mediate_nb_items")))]
  }

  /** The sort key `mediate_nb_collections`. */
  function CollectionsRank(r: Row): Rank {
    match Cell(r, "mediate_nb_collections")
    case Int(n) => Count(n)
    case _ => Missing
  }

  function CoerceAll(rows: seq<Row>): seq<Row> {
    MapRows(rows, CoerceMediateCounts)
  }

  /** `pd.concat([base, matched])`, counts coerced, then
      `sort_values('mediate_nb_collections', ascending=False)`: every row of both
      tables once, with integer counts, largest collection count first. */
  function FinalTable(base: seq<Row>, matches: seq<Row>): (r: seq<Row>)
    ensures |r| == |base| + |matches|
    ensures multiset(r) == multiset(CoerceAll(base + matches))
    ensures Descending(r, CollectionsRank)
    ensures forall k :: 0 <= k < |r| ==> CollectionsRank(r[k]).Count?
  {
    var all := CoerceAll(base + matches);
    var sorted := SortDescending(all, CollectionsRank);
    assert |sorted| == |multiset(sorted)| == |multiset(all)| == |all|;
    forall k | 0 <= k < |sorted| ensures CollectionsRank(sorted[k]).Count? {
      assert sorted[k] in multiset(all);
    }
    sorted
  }

  /** The tables the matching writes. */
  datatype Matching = Matching(final: seq<Row>, matches: seq<Row>, multiple: seq<Ambiguity>, unmatched: seq<Row>)

  method MatchViafIds(tm: seq<Row>, base: seq<Row>, data: seq<Row>) returns (r: Matching)
    ensures r.matches == ConcatMap(data, MatchOf(tm, TmViafDict(tm)))
    ensures r.multiple == ConcatMap(data, AmbiguityOf(tm, TmViafDict(tm)))
    ensures r.unmatched == Filter(tm, QidInSet(UnmatchedQids(tm, r.matches, r.multiple)))
    ensures r.final == FinalTable(base, r.matches)
  {
    var matches, multiple := MatchEntries(data, tm);
    var unmatched := Filter(tm, QidInSet(UnmatchedQids(tm, matches, multiple)));
    r := Matching(FinalTable(base, matches), matches, multiple, unmatched);
  }
}
