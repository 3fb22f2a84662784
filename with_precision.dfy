/** `ancient_authors_wikidata_with_precision.py`: one query lists every author
    with an identifier in one of eighteen classical-studies catalogues, and
    `process_results` keeps the first binding per author, drops anonymous
    authors and authors dated after the year 500, and lays out the CSV rows. */
module WithPrecision {
  import opened Values
  import opened Strings
  import opened Wdqs
  import opened Retry

  /** The header row of `write_csv`. */
  const Headers: seq<string> := [
    "wikidata_id", "name_en", "viaf_id", "bnf_id",
    "birth_year", "birth_precision",
    "death_year", "death_precision",
    "floruit_year", "floruit_precision"
  ]

  /** The result variables behind the columns after `wikidata_id`, in header order. */
  const ResultVars: seq<string> := [
    "name_en", "viaf_ids", "bnf",
    "birth_year", "birth_precision",
    "death_year", "death_precision",
    "floruit_year", "floruit_precision"
  ]

  /** A name `process_results` drops: it starts, ignoring case, with
      "anonymous", "author of" or "authors of". */
  predicate ExcludedName(name: string) {
    var l := Lower(name);
    StartsWith(l, "anonymous") || StartsWith(l, "author of") || StartsWith(l, "authors of")
  }

  /** A year that drops the author: non-empty, all digits and greater than 500.
      A negative year such as "-300" is not all digits and never drops one. */
  predicate ExcludingYear(year: string) {
    year != "" && AllDigits(year) && DigitsValue(year) > 500
  }

  /** The filters after the check for an already seen identifier. */
  predicate Kept(b: Binding) {
    !ExcludedName(Gv(b, "name_en", "")) &&
    !ExcludingYear(Gv(b, "floruit_year", "")) &&
    !ExcludingYear(Gv(b, "birth_year", "")) &&
    !ExcludingYear(Gv(b, "death_year", ""))
  }

  /** The row appended for a binding that survives. It lines up with the
      header: the identifier, then the variable behind each column, "" when it
      is not bound. */
  function PrecisionRow(b: Binding): (row: seq<string>)
    ensures |row| == |Headers| && row[0] == SubjectQid(b)
    ensures forall k :: 1 <= k < |Headers| ==> row[k] == Gv(b, ResultVars[k - 1], "")
  {
    [
      SubjectQid(b),
      Gv(b, "name_en", ""),
      Gv(b, "viaf_ids", ""),
      Gv(b, "bnf", ""),
      Gv(b, "birth_year", ""),
      Gv(b, "birth_precision", ""),
      Gv(b, "death_year", ""),
      Gv(b, "death_precision", ""),
      Gv(b, "floruit_year", ""),
      Gv(b, "floruit_precision", "")
    ]
  }

  /** Binding `i` is the first one with its identifier. */
  predicate FirstOfId(bs: seq<Binding>, i: nat)
    requires i < |bs|
  {
    SubjectQid(bs[i]) !in Ids(bs[..i])
  }

  function KeptBy(): Binding -> bool {
    b => Kept(b)
  }

  /** The rows `process_results` returns when `keep` is its filter: an
      identifier is marked seen by its first binding whether or not that
      binding survives the filter. */
  function ProcessedBy(bs: seq<Binding>, keep: Binding -> bool): (rows: seq<seq<string>>)
    ensures forall t :: 0 <= t < |rows| ==> |rows[t]| == |Headers| && rows[t][0] in Ids(bs)
  {
    if bs == [] then []
    else
      var p := bs[..|bs| - 1];
      var b := bs[|bs| - 1];
      assert forall i :: 0 <= i < |p| ==> p[i] == bs[i];
      ProcessedBy(p, keep) + (if SubjectQid(b) !in Ids(p) && keep(b) then [PrecisionRow(b)] else [])
  }

  function Processed(bs: seq<Binding>): seq<seq<string>> {
    ProcessedBy(bs, KeptBy())
  }

  /** `process_results`. */
  method ProcessResults(bs: seq<Binding>) returns (processed: seq<seq<string>>)
    ensures processed == Processed(bs)
  {
    processed := [];
    var seenIds: set<string> := {};
    for i := 0 to |bs|
      invariant seenIds == set j | 0 <= j < i :: SubjectQid(bs[j])
      invariant processed == Processed(bs[..i])
    {
      ProcessedSnoc(bs, i);
      seenIds, processed := ProcessBinding(bs[i], seenIds, processed);
    }
    assert bs[..|bs|] == bs;
  }

  /** One turn of the loop: a repeated identifier is skipped; otherwise the
      identifier is marked as seen and the row is kept unless a filter rejects
      it. */
  method ProcessBinding(b: Binding, seenIds: set<string>, processed: seq<seq<string>>)
    returns (seenOut: set<string>, processedOut: seq<seq<string>>)
    ensures seenOut == seenIds + {SubjectQid(b)}
    ensures processedOut == processed + if SubjectQid(b) !in seenIds && Kept(b) then [PrecisionRow(b)] else []
  {
    seenOut, processedOut := seenIds, processed;
    var wikidataId := SubjectQid(b);
    if wikidataId in seenIds {
      return;
    }
    seenOut := seenIds + {wikidataId};
    var nameEn := Gv(b, "name_en", "");
    if ExcludedName(nameEn) {
      return;
    }
    if ExcludingYear(Gv(b, "floruit_year", "")) {
      return;
    }
    if ExcludingYear(Gv(b, "birth_year", "")) {
      return;
    }
    if ExcludingYear(Gv(b, "death_year", "")) {
      return;
    }
    processedOut := processed + [PrecisionRow(b)];
  }

  /** One more binding adds its row exactly when it is the first with its
      identifier and passes the filters, and adds its identifier to those seen. */
  lemma ProcessedSnoc(bs: seq<Binding>, i: nat)
    requires i < |bs|
    ensures Processed(bs[..i + 1]) ==
      Processed(bs[..i]) + (if SubjectQid(bs[i]) !in Ids(bs[..i]) && Kept(bs[i]) then [PrecisionRow(bs[i])] else [])
    ensures (set j | 0 <= j < i + 1 :: SubjectQid(bs[j])) == (set j | 0 <= j < i :: SubjectQid(bs[j])) + {SubjectQid(bs[i])}
    ensures SubjectQid(bs[i]) in (set j | 0 <= j < i :: SubjectQid(bs[j])) <==> SubjectQid(bs[i]) in Ids(bs[..i])
  {
    assert bs[..i + 1][..i] == bs[..i] && bs[..i + 1][i] == bs[i];
    if SubjectQid(bs[i]) in Ids(bs[..i]) {
      var j :| 0 <= j < i && Ids(bs[..i])[j] == SubjectQid(bs[i]);
      assert SubjectQid(bs[j]) in (set j | 0 <= j < i :: SubjectQid(bs[j]));
    }
  }

  /** A row is output exactly for a binding that is the first with its
      identifier and passes the filters. */
  lemma ProcessedOrigin(bs: seq<Binding>, row: seq<string>)
    ensures row in Processed(bs) <==>
      exists i :: 0 <= i < |bs| && FirstOfId(bs, i) && Kept(bs[i]) && row == PrecisionRow(bs[i])
  {
    ProcessedByOrigin(bs, KeptBy(), row);
  }

  lemma ProcessedByOrigin(bs: seq<Binding>, keep: Binding -> bool, row: seq<string>)
    ensures row in ProcessedBy(bs, keep) <==>
      exists i :: 0 <= i < |bs| && FirstOfId(bs, i) && keep(bs[i]) && row == PrecisionRow(bs[i])
  {
    if row in ProcessedBy(bs, keep) {
      var i := OriginOfRow(bs, keep, row);
    }
    if exists i :: 0 <= i < |bs| && FirstOfId(bs, i) && keep(bs[i]) && row == PrecisionRow(bs[i]) {
      var i :| 0 <= i < |bs| && FirstOfId(bs, i) && keep(bs[i]) && row == PrecisionRow(bs[i]);
      RowOfOrigin(bs, keep, i);
    }
  }

  /** Every output row comes from a binding that is the first with its
      identifier and passes the filter: `i` is that binding. */
  lemma {:induction false} OriginOfRow(bs: seq<Binding>, keep: Binding -> bool, row: seq<string>) returns (i: nat)
    requires row in ProcessedBy(bs, keep)
    ensures i < |bs| && FirstOfId(bs, i) && keep(bs[i]) && row == PrecisionRow(bs[i])
  {
    var p := bs[..|bs| - 1];
    var b := bs[|bs| - 1];
    assert ProcessedBy(bs, keep) ==
      ProcessedBy(p, keep) + (if SubjectQid(b) !in Ids(p) && keep(b) then [PrecisionRow(b)] else []);
    if row in ProcessedBy(p, keep) {
      i := OriginOfRow(p, keep, row);
      SamePrefix(bs, i);
    } else {
      i := |p|;
      assert bs[..i] == p;
    }
  }

  /** The first binding of an identifier that passes the filter has its row output. */
  lemma {:induction false} RowOfOrigin(bs: seq<Binding>, keep: Binding -> bool, i: nat)
    requires i < |bs| && FirstOfId(bs, i) && keep(bs[i])
    ensures PrecisionRow(bs[i]) in ProcessedBy(bs, keep)
  {
    var p := bs[..|bs| - 1];
    var b := bs[|bs| - 1];
    assert ProcessedBy(bs, keep) ==
      ProcessedBy(p, keep) + (if SubjectQid(b) !in Ids(p) && keep(b) then [PrecisionRow(b)] else []);
    if i < |p| {
      SamePrefix(bs, i);
      RowOfOrigin(p, keep, i);
    } else {
      assert bs[..i] == p;
    }
  }

  /** Dropping the last binding changes neither an earlier binding nor what comes before it. */
  lemma SamePrefix(bs: seq<Binding>, i: nat)
    requires i < |bs| - 1
    ensures bs[..|bs| - 1][i] == bs[i] && bs[..|bs| - 1][..i] == bs[..i]
  {
  }

  /** There is at most one row per identifier. */
  lemma ProcessedUnique(bs: seq<Binding>)
    ensures forall s, t :: 0 <= s < t < |Processed(bs)| ==> Processed(bs)[s][0] != Processed(bs)[t][0]
  {
    ProcessedByUnique(bs, KeptBy());
  }

  lemma {:induction false} ProcessedByUnique(bs: seq<Binding>, keep: Binding -> bool)
    ensures forall s, t :: 0 <= s < t < |ProcessedBy(bs, keep)| ==>
      ProcessedBy(bs, keep)[s][0] != ProcessedBy(bs, keep)[t][0]
  {
    if bs != [] {
      var p := bs[..|bs| - 1];
      ProcessedByUnique(p, keep);
    }
  }

  /** Two bindings that are each the first with their identifier have
      different identifiers. */
  lemma FirstOfIdUnique(bs: seq<Binding>, i: nat, j: nat)
    requires i < j < |bs| && FirstOfId(bs, j)
    ensures SubjectQid(bs[i]) != SubjectQid(bs[j])
  {
    assert Ids(bs[..j])[i] == SubjectQid(bs[i]);
  }

  /** When the first binding of an identifier is filtered out, that identifier
      gets no row at all: the later bindings were skipped as already seen. */
  lemma FilteredFirstHidesId(bs: seq<Binding>, i: nat)
    requires i < |bs| && FirstOfId(bs, i) && !Kept(bs[i])
    ensures forall t :: 0 <= t < |Processed(bs)| ==> Processed(bs)[t][0] != SubjectQid(bs[i])
  {
    forall t | 0 <= t < |Processed(bs)|
      ensures Processed(bs)[t][0] != SubjectQid(bs[i])
    {
      var row := Processed(bs)[t];
      ProcessedOrigin(bs, row);
      var j :| 0 <= j < |bs| && FirstOfId(bs, j) && Kept(bs[j]) && row == PrecisionRow(bs[j]);
      IdsDiffer(bs, i, j);
    }
  }

  lemma IdsDiffer(bs: seq<Binding>, i: nat, j: nat)
    requires i < |bs| && j < |bs| && FirstOfId(bs, i) && FirstOfId(bs, j) && i != j
    ensures SubjectQid(bs[i]) != SubjectQid(bs[j])
  {
    if i < j {
      FirstOfIdUnique(bs, i, j);
    } else {
      FirstOfIdUnique(bs, j, i);
    }
  }

  /** `main`: the query under `run_query_with_backoff` (at most six attempts,
      a sleep after each failure, then a `RuntimeError`), then
      `process_results` on its answer. `None` is the `RuntimeError`. */
  method Harvest(outcome: nat -> Attempt<seq<Binding>>) returns (data: Option<seq<seq<string>>>)
    ensures match FirstAnswer(outcome, AttemptLimit(MaxRetries))
      case Some(k) => data == Some(Processed(outcome(k).value))
      case None => data.None?
  {
    var ending, _ := BackoffGiveUp(MaxRetries, outcome);
    match ending
    case Returned(results) =>
      var rows := ProcessResults(results);
      data := Some(rows);
    case _ =>
      data := None;
  }
}
