/** `ancient_authors_wikidata_item_metrics.py`: for every author Q-identifier,
    batches of 50 are sent to the Query Service and each result binding becomes
    one CSV row of statement, identifier and sitelink counts and the language
    codes of the sitelinks per Wikimedia project. */
module ItemMetrics {
  import opened Strings
  import opened Seqs
  import opened Wdqs

  const BatchSize: nat := 50

  /** The count columns: `total_sitelinks` and the fourteen `_count` columns,
      whose missing values read "0". */
  const CountColumns: seq<string> := [
    "total_sitelinks",
    "wikipedia_count", "wiktionary_count", "wikiquote_count", "wikisource_count",
    "wikibooks_count", "wikinews_count", "wikiversity_count", "wikivoyage_count",
    "commons_count", "meta_count", "wikispecies_count", "wikidata_count",
    "incubator_count", "wikifunctions_count"
  ]

  /** The language-code columns, one per Wikimedia project. */
  const LangColumns: seq<string> := [
    "wikipedia_langs", "wiktionary_langs", "wikiquote_langs", "wikisource_langs",
    "wikibooks_langs", "wikinews_langs", "wikiversity_langs", "wikivoyage_langs",
    "commons_langs", "meta_langs", "wikispecies_langs", "wikidata_langs",
    "incubator_langs", "wikifunctions_langs"
  ]

  /** The header row of `write_csv`. */
  const Headers: seq<string> := ["wikidata_id", "statements", "identifiers"] + CountColumns + LangColumns

  /** The count cells: `total_sitelinks` and the fourteen `_count` columns. */
  predicate IsCountCell(k: nat) {
    3 <= k < 18
  }

  /** `gv(name, default)` for each of `names`, in order. */
  function GvAll(b: Binding, names: seq<string>, default: string): seq<string> {
    seq(|names|, i requires 0 <= i < |names| => Gv(b, names[i], default))
  }

  /** The row `main` builds for one binding. */
  function MetricsRow(b: Binding): seq<string> {
    [SubjectQid(b), Gv(b, "statements", ""), Gv(b, "identifiers", "")]
      + GvAll(b, CountColumns, "0") + GvAll(b, LangColumns, "")
  }

  function MetricsRowOf(): Binding -> seq<string> {
    b => MetricsRow(b)
  }

  /** A row lines up with the header: it starts with the item's identifier,
      every other cell holds the variable named by its header, and a missing
      variable reads "0" in the count cells and "" elsewhere. */
  lemma MetricsRowSpec(b: Binding)
    ensures |MetricsRow(b)| == |Headers| == 32
    ensures MetricsRow(b)[0] == SubjectQid(b)
    ensures forall k :: 1 <= k < |Headers| ==>
      MetricsRow(b)[k] == Gv(b, Headers[k], if IsCountCell(k) then "0" else "")
  {
  }

  /** `main`: read the identifiers, then one row per binding of every batch. */
  method Harvest(input: seq<CsvRow>, answer: seq<string> -> seq<Binding>) returns (rows: seq<seq<string>>)
    ensures var bindings := BatchedBindings(NormalisedQids(input), BatchSize, answer);
      |rows| == |bindings| && forall t :: 0 <= t < |rows| ==> rows[t] == MetricsRow(bindings[t])
  {
    var qids := ReadQids(input);
    rows := BatchRows(qids, BatchSize, answer, MetricsRowOf());
  }
}
