/** The Wikidata lookups of use-case 2 (scripts 02 and 03): the authors of the
    MEDIATE list (by VIAF cluster ID) or of the Trismegistos list (by TM ID)
    are looked up on Wikidata, one output row is built per answer binding,
    and the IDs Wikidata did not know are collected with their input rows.
    Both scripts share the same record logic; they differ in the ID column,
    the columns taken from the source row and the value they return. The
    query's answer is a parameter. */
module WikidataLookup {
  import opened Values
  import opened Strings
  import opened Seqs
  import opened Records

  // Choosing the IDs to query.

  /** `df.iloc[:n]`: a Python slice end, counted from the back when negative. */
  function TakePrefix(rows: seq<Row>, n: int): (r: seq<Row>)
    ensures n >= 0 ==> r == rows[..Min(n, |rows|)]
    ensures n < 0 ==> r == rows[..if |rows| + n < 0 then 0 else |rows| + n]
  {
    if n >= 0 then rows[..Min(n, |rows|)]
    else rows[..if |rows| + n < 0 then 0 else |rows| + n]
  }

  predicate Present(v: Value) {
    !v.Null?
  }

  function PresentValue(): Value -> bool {
    v => Present(v)
  }

  /** `[str(v) for v in values if pd.notna(v)]`, which is also
      `series.dropna().astype(str).tolist()`: the non-NaN values, in order,
      as text. */
  function PresentAsText(vs: seq<Value>): (r: seq<string>)
    ensures |r| <= |vs|
    ensures forall k :: 0 <= k < |r| ==> exists i :: 0 <= i < |vs| && Present(vs[i]) && r[k] == Stringify(vs[i])
    ensures forall i :: 0 <= i < |vs| && Present(vs[i]) ==> Stringify(vs[i]) in r
  {
    var f := Filter(vs, PresentValue());
    var r := seq(|f|, k requires 0 <= k < |f| => Stringify(f[k]));
    forall k | 0 <= k < |r| ensures exists i :: 0 <= i < |vs| && Present(vs[i]) && r[k] == Stringify(vs[i]) {
      assert f[k] in vs;
    }
    forall i | 0 <= i < |vs| && Present(vs[i]) ensures Stringify(vs[i]) in r {
      assert vs[i] in f;
      var k :| 0 <= k < |f| && f[k] == vs[i];
      assert r[k] == Stringify(vs[i]);
    }
    r
  }

  /** The IDs to query: the non-NaN `specificIds`, else the non-NaN IDs among
      the first `nbIds` rows, else all non-NaN IDs of the ID column. */
  function AuthorIds(rows: seq<Row>, idColumn: string, specificIds: Option<seq<Value>>, nbIds: Option<int>): (r: seq<string>)
    ensures specificIds.Some? ==> r == PresentAsText(specificIds.value)
    ensures specificIds.None? && nbIds.Some? ==> r == PresentAsText(Column(TakePrefix(rows, nbIds.value), idColumn))
    ensures specificIds.None? && nbIds.None? ==> r == PresentAsText(Column(rows, idColumn))
  {
    match specificIds
    case Some(ids) => PresentAsText(ids)
    case None =>
      match nbIds
      case Some(n) => PresentAsText(Column(TakePrefix(rows, n), idColumn))
      case None => PresentAsText(Column(rows, idColumn))
  }

  /** With neither `specificIds` nor `nbIds`, every row with an ID is queried. */
  lemma AllRowsQueried(rows: seq<Row>, idColumn: string, i: nat)
    requires i < |rows| && !Cell(rows[i], idColumn).Null?
    ensures Stringify(Cell(rows[i], idColumn)) in AuthorIds(rows, idColumn, None, None)
  {
    assert Column(rows, idColumn)[i] == Cell(rows[i], idColumn);
  }

  // Parsing one binding.

  /** One answer binding; absent optional variables are None. */
  datatype Binding = Binding(
    id: string,
    item: Option<string>,
    labelEn: Option<string>, labelFr: Option<string>, labelLa: Option<string>,
    aliasesEn: Option<string>, aliasesFr: Option<string>, aliasesLa: Option<string>,
    writingLanguages: Option<string>)

  /** `result.get(var, {}).get("value", "")`. */
  function OrEmpty(v: Option<string>): string {
    if v.Some? then v.value else ""
  }

  /** `qid_uri.split("/")[-1] if qid_uri else None`. */
  function QidOfUri(uri: string): (r: Option<string>)
    ensures r.None? <==> uri == ""
    ensures r.Some? ==>
      |r.value| <= |uri| && r.value == uri[|uri| - |r.value|..] &&
      (forall k :: 0 <= k < |r.value| ==> r.value[k] != '/') &&
      (|r.value| < |uri| ==> uri[|uri| - |r.value| - 1] == '/')
  {
    if uri == "" then None
    else
      LastSegmentSpec(uri);
      Some(LastSegment(uri))
  }

  predicate NonEmpty(s: string) {
    s != ""
  }

  function NonEmptyText(): string -> bool {
    s => NonEmpty(s)
  }

  /** `list(set(filter(None, text.split(", "))))`: the non-empty pieces of a
      GROUP_CONCAT, each once. The order of a Python set is arbitrary; this
      model keeps first occurrences in order. */
  function SplitDistinct(text: string): (r: seq<string>)
    ensures Distinct(r)
    ensures forall k :: 0 <= k < |r| ==> r[k] != "" && r[k] in Split(text, ", ")
    ensures forall p :: p in Split(text, ", ") && p != "" ==> p in r
  {
    var parts := Split(text, ", ");
    var r := Dedup(Filter(parts, NonEmptyText()));
    forall k | 0 <= k < |r| ensures r[k] != "" && r[k] in parts {
      assert r[k] in r;
      assert r[k] in Filter(parts, NonEmptyText());
    }
    forall p | p in parts && p != "" ensures p in r {
      var k :| 0 <= k < |parts| && parts[k] == p;
      assert p in Filter(parts, NonEmptyText());
    }
    r
  }

  /** No alias list is made up from nothing: an absent binding gives []. */
  lemma SplitDistinctOfEmpty()
    ensures SplitDistinct("") == []
  {
    assert Split("", ", ") == [""];
  }

  /** `df.loc[df[column].astype(str) == str(id)]`, first row: the index of the
      first row whose stringified ID equals `id`. */
  function FirstRowWithId(rows: seq<Row>, column: string, id: string): (r: Option<nat>)
    ensures r.None? <==> forall i :: 0 <= i < |rows| ==> Stringify(Cell(rows[i], column)) != id
    ensures r.Some? ==>
      r.value < |rows| && Stringify(Cell(rows[r.value], column)) == id &&
      forall i :: 0 <= i < r.value ==> Stringify(Cell(rows[i], column)) != id
  {
    if rows == [] then None
    else if Stringify(Cell(rows[0], column)) == id then Some(0)
    else
      match FirstRowWithId(rows[1..], column, id)
      case None => None
      case Some(i) => Some(i + 1)
  }

  /** A column of the first matching row, NaN (None) when there is none. */
  function SourceCell(rows: seq<Row>, idColumn: string, id: string, column: string): Value {
    match FirstRowWithId(rows, idColumn, id)
    case None => Null
    case Some(i) => Cell(rows[i], column)
  }

  /** Whichever row of the source list supplies a value, it is the first row
      with the binding's ID. */
  lemma SourceCellIsFirstRow(rows: seq<Row>, idColumn: string, id: string, column: string, i: nat)
    requires i < |rows| && Stringify(Cell(rows[i], idColumn)) == id
    requires forall j :: 0 <= j < i ==> Stringify(Cell(rows[j], idColumn)) != id
    ensures SourceCell(rows, idColumn, id, column) == Cell(rows[i], column)
  {
    var f := FirstRowWithId(rows, idColumn, id);
    assert f.Some?;
    assert !(f.value < i) && !(i < f.value);
  }

  /** `qid` as stored: the identifier, or Python's None. */
  function QidValue(uri: string): Value {
    match QidOfUri(uri)
    case None => Null
    case Some(q) => Str(q)
  }

  const CommonColumns: set<string> := {"english_label", "french_label", "latin_label", "q_identifier",
    "english_aliases", "french_aliases", "latin_aliases", "writing_languages"}

  /** The columns every output row shares. */
  function OutputFields(en: Value, fr: Value, la: Value, qid: Value,
                        aliasesEn: Value, aliasesFr: Value, aliasesLa: Value, languages: Value): (r: Row)
    ensures r.Keys == CommonColumns
    ensures r["english_label"] == en && r["french_label"] == fr && r["latin_label"] == la && r["q_identifier"] == qid
    ensures r["english_aliases"] == aliasesEn && r["french_aliases"] == aliasesFr
    ensures r["latin_aliases"] == aliasesLa && r["writing_languages"] == languages
  {
    map["english_label" := en, "french_label" := fr, "latin_label" := la, "q_identifier" := qid,
        "english_aliases" := aliasesEn, "french_aliases" := aliasesFr, "latin_aliases" := aliasesLa,
        "writing_languages" := languages]
  }

  /** The shared columns of one binding's row, with the list columns
      JSON-encoded as the frame is before it is saved. */
  function CommonFields(b: Binding): (r: Row)
    ensures r.Keys == CommonColumns
  {
    OutputFields(Str(OrEmpty(b.labelEn)), Str(OrEmpty(b.labelFr)), Str(OrEmpty(b.labelLa)), QidValue(OrEmpty(b.item)),
      JsonDumps(List(SplitDistinct(OrEmpty(b.aliasesEn)))), JsonDumps(List(SplitDistinct(OrEmpty(b.aliasesFr)))),
      JsonDumps(List(SplitDistinct(OrEmpty(b.aliasesLa)))), JsonDumps(List(SplitDistinct(OrEmpty(b.writingLanguages)))))
  }

  /** Absent labels become "", the QID is the URI's last segment, and each
      list column decodes to the binding's distinct non-empty pieces. */
  lemma CommonFieldsSpec(b: Binding)
    ensures var r := CommonFields(b);
      r["english_label"] == Str(OrEmpty(b.labelEn)) && r["french_label"] == Str(OrEmpty(b.labelFr)) &&
      r["latin_label"] == Str(OrEmpty(b.labelLa)) &&
      (r["q_identifier"].Null? <==> OrEmpty(b.item) == "") &&
      (!r["q_identifier"].Null? ==> r["q_identifier"] == Str(LastSegment(b.item.value))) &&
      JsonLoads(r["english_aliases"]) == List(SplitDistinct(OrEmpty(b.aliasesEn))) &&
      JsonLoads(r["french_aliases"]) == List(SplitDistinct(OrEmpty(b.aliasesFr))) &&
      JsonLoads(r["latin_aliases"]) == List(SplitDistinct(OrEmpty(b.aliasesLa))) &&
      JsonLoads(r["writing_languages"]) == List(SplitDistinct(OrEmpty(b.writingLanguages)))
  {
  }

  /** `row[column] = value`: the column is added or overwritten, every other
      column is kept. */
  function Extend(row: Row, column: string, value: Value): (r: Row)
    ensures r.Keys == row.Keys + {column}
    ensures r[column] == value
    ensures forall c :: c in row && c != column ==> r[c] == row[c]
  {
    row[column := value]
  }

  /** The four columns script 02 adds are distinct: they differ in their last
      character or in their length. */
  lemma MediateColumnsDiffer(source: string)
    ensures source + "_label" != "viaf_id" && source + "_label" != source + "_nb_items"
    ensures source + "_label" != source + "_nb_collections" && "viaf_id" != source + "_nb_items"
    ensures "viaf_id" != source + "_nb_collections" && source + "_nb_items" != source + "_nb_collections"
  {
    assert (source + "_label")[|source| + 5] == 'l' && (source + "_nb_items")[|source| + 8] == 's';
    assert (source + "_nb_collections")[|source| + 14] == 's';
    assert |source + "_nb_items"| != |source + "_nb_collections"|;
  }

  /** Script 02's columns on top of `base`: the MEDIATE label, VIAF ID and
      counts of the first source row with the VIAF ID `id`. */
  function MediateColumns(base: Row, rows: seq<Row>, source: string, id: string): Row {
    base[source + "_label" := SourceCell(rows, "viaf_id", id, "short_name")]
      ["viaf_id" := SourceCell(rows, "viaf_id", id, "viaf_id")]
      [source + "_nb_items" := SourceCell(rows, "viaf_id", id, "nb_items")]
      [source + "_nb_collections" := SourceCell(rows, "viaf_id", id, "nb_collections")]
  }

  /** The columns of `MediateColumns`: the base's and the four added ones, the
      base's others keeping their values. */
  lemma MediateColumnsKeys(base: Row, rows: seq<Row>, source: string, id: string)
    ensures var r := MediateColumns(base, rows, source, id);
      forall c :: c in r <==>
        c in base || c == source + "_label" || c == "viaf_id" || c == source + "_nb_items" || c == source + "_nb_collections"
    ensures forall c :: (c in base && c != source + "_label" && c != "viaf_id" &&
      c != source + "_nb_items" && c != source + "_nb_collections") ==>
      c in MediateColumns(base, rows, source, id) && MediateColumns(base, rows, source, id)[c] == base[c]
  {
  }

  /** The four added cells hold the first source row's values. */
  lemma MediateColumnsCells(base: Row, rows: seq<Row>, source: string, id: string)
    ensures var r := MediateColumns(base, rows, source, id);
      source + "_label" in r && "viaf_id" in r && source + "_nb_items" in r && source + "_nb_collections" in r &&
      r[source + "_label"] == SourceCell(rows, "viaf_id", id, "short_name") &&
      r["viaf_id"] == SourceCell(rows, "viaf_id", id, "viaf_id") &&
      r[source + "_nb_items"] == SourceCell(rows, "viaf_id", id, "nb_items") &&
      r[source + "_nb_collections"] == SourceCell(rows, "viaf_id", id, "nb_collections")
  {
    MediateColumnsDiffer(source);
  }

  /** Script 02's row: the shared columns of the binding, then the MEDIATE
      columns of the first source row with the binding's VIAF ID. */
  function MediateRow(rows: seq<Row>, source: string, b: Binding): (r: Row)
    ensures forall c :: c in r <==>
      c in CommonColumns || c == source + "_label" || c == "viaf_id" || c == source + "_nb_items" || c == source + "_nb_collections"
    ensures r[source + "_label"] == SourceCell(rows, "viaf_id", b.id, "short_name")
    ensures r["viaf_id"] == SourceCell(rows, "viaf_id", b.id, "viaf_id")
    ensures r[source + "_nb_items"] == SourceCell(rows, "viaf_id", b.id, "nb_items")
    ensures r[source + "_nb_collections"] == SourceCell(rows, "viaf_id", b.id, "nb_collections")
    ensures forall c :: (c in CommonColumns && c != source + "_label" && c != "viaf_id" &&
      c != source + "_nb_items" && c != source + "_nb_collections") ==> c in r && r[c] == CommonFields(b)[c]
  {
    MediateColumnsKeys(CommonFields(b), rows, source, b.id);
    MediateColumnsCells(CommonFields(b), rows, source, b.id);
    MediateColumns(CommonFields(b), rows, source, b.id)
  }

  /** Script 03's columns on top of `base`: the Trismegistos name of the first
      source row with the TM ID `id`, and the TM ID itself. */
  function TrismegistosColumns(base: Row, rows: seq<Row>, source: string, id: string): (r: Row)
    ensures r.Keys == base.Keys + {source + "_label", source + "_id"}
    ensures r[source + "_id"] == Str(id)
    ensures r[source + "_label"] == SourceCell(rows, "ID", id, "Author Name")
    ensures forall c :: c in base && c != source + "_label" && c != source + "_id" ==> r[c] == base[c]
  {
    var r1 := Extend(base, source + "_label", SourceCell(rows, "ID", id, "Author Name"));
    Extend(r1, source + "_id", Str(id))
  }

  /** Script 03's row: the shared columns of the binding, then the
      Trismegistos columns of the first source row with the binding's TM ID. */
  function TrismegistosRow(rows: seq<Row>, source: string, b: Binding): (r: Row)
    ensures r.Keys == CommonColumns + {source + "_label", source + "_id"}
    ensures r[source + "_id"] == Str(b.id)
    ensures r[source + "_label"] == SourceCell(rows, "ID", b.id, "Author Name")
    ensures forall c :: c in CommonColumns && c != source + "_label" && c != source + "_id" ==> r[c] == CommonFields(b)[c]
  {
    TrismegistosColumns(CommonFields(b), rows, source, b.id)
  }

  /** The script a row is built for. */
  datatype Script = Mediate | Trismegistos

  function RowOf(script: Script, rows: seq<Row>, source: string): Binding -> Row {
    match script
    case Mediate => b => MediateRow(rows, source, b)
    case Trismegistos => b => TrismegistosRow(rows, source, b)
  }

  /** `for result in bindings: data.append({...})`: one row per binding, in
      answer order. */
  method BuildRows(rowOf: Binding -> Row, bindings: seq<Binding>) returns (data: seq<Row>)
    ensures |data| == |bindings|
    ensures forall i :: 0 <= i < |bindings| ==> data[i] == rowOf(bindings[i])
  {
    data := [];
    for i := 0 to |bindings|
      invariant |data| == i
      invariant forall j :: 0 <= j < i ==> data[j] == rowOf(bindings[j])
    {
      var row := rowOf(bindings[i]);
      data := data + [row];
    }
  }

  // The IDs Wikidata did not match.

  function MatchedIds(bindings: seq<Binding>): set<string> {
    set i | 0 <= i < |bindings| :: bindings[i].id
  }

  function NotIn(ids: set<string>): string -> bool {
    id => id !in ids
  }

  /** `[id_ for id_ in author_ids if id_ not in matched]`. */
  function NotMatched(ids: seq<string>, bindings: seq<Binding>): seq<string> {
    Filter(ids, NotIn(MatchedIds(bindings)))
  }

  /** An ID is reported unmatched exactly when it was queried and no binding
      carries it. */
  lemma NotMatchedSpec(ids: seq<string>, bindings: seq<Binding>, id: string)
    ensures id in NotMatched(ids, bindings) <==> id in ids && forall i :: 0 <= i < |bindings| ==> bindings[i].id != id
  {
    if id in ids && forall i :: 0 <= i < |bindings| ==> bindings[i].id != id {
      var k :| 0 <= k < |ids| && ids[k] == id;
      assert NotIn(MatchedIds(bindings))(ids[k]);
    }
  }

  function IdIn(column: string, ids: seq<string>): Row -> bool {
    r => Stringify(Cell(r, column)) in ids
  }

  /** `df[df[column].astype(str).isin(not_matched)]`, or an empty frame when
      nothing was left unmatched. */
  function UnmatchedRows(rows: seq<Row>, column: string, notMatched: seq<string>): (r: seq<Row>)
    ensures forall e :: e in r <==> e in rows && Stringify(Cell(e, column)) in notMatched
  {
    if notMatched == [] then [] else Filter(rows, IdIn(column, notMatched))
  }

  // The two scripts.

  /** What a call returns: the output rows, whether a path to the saved CSV
      is returned, and the rows of the unmatched IDs. */
  datatype Retrieval = Retrieval(output: seq<Row>, pathReturned: bool, unmatched: seq<Row>)

  /** How a call ends: early with None when there is no ID to query, with an
      exception escaping the function, or by returning. */
  datatype Ending = NoIds | Raised | Returned(value: Retrieval)

  /** `retrieve_qids_aliases_lang_wikidata` (02) and
      `retrieve_qids_aliases_lang_trismegistos_wikidata` (03). Encoding the list
      columns of an empty frame raises KeyError, which is caught and logged, so
      an empty answer saves no output CSV; the rows of the unmatched IDs are
      still set apart (and saved). Script 02 names that CSV's directory afresh,
      but script 03 reuses a directory variable assigned only after the
      encoding, so there an empty answer to a non-empty query ends in
      UnboundLocalError. Otherwise script 03 returns a path variable that is
      never assigned. */
  method Retrieve(script: Script, rows: seq<Row>, source: string, specificIds: Option<seq<Value>>,
                  nbIds: Option<int>, bindings: seq<Binding>) returns (r: Ending)
    ensures var idColumn := if script == Mediate then "viaf_id" else "ID";
      var ids := AuthorIds(rows, idColumn, specificIds, nbIds);
      (r.NoIds? <==> ids == []) &&
      (r.Raised? <==> ids != [] && script == Trismegistos && bindings == []) &&
      (r.Returned? ==>
        |r.value.output| == |bindings| &&
        (forall i :: 0 <= i < |bindings| ==> r.value.output[i] == RowOf(script, rows, source)(bindings[i])) &&
        (r.value.pathReturned <==> script == Mediate && bindings != []) &&
        r.value.unmatched == UnmatchedRows(rows, idColumn, NotMatched(ids, bindings)))
  {
    var idColumn := if script == Mediate then "viaf_id" else "ID";
    var ids := AuthorIds(rows, idColumn, specificIds, nbIds);
    if ids == [] {
      return NoIds;
    }
    var notMatched := NotMatched(ids, bindings);
    var data := BuildRows(RowOf(script, rows, source), bindings);
    var saved := data != [];
    if script == Trismegistos && !saved {
      // Every queried ID is unmatched, and their CSV's directory is unset.
      return Raised;
    }
    var pathReturned := script == Mediate && saved;
    r := Returned(Retrieval(data, pathReturned, UnmatchedRows(rows, idColumn, notMatched)));
  }
}
