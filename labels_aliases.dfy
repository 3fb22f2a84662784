/** `ancient_authors_wikidata_labels_aliases.py`: for every author
    Q-identifier, batches of 200 are sent to the Query Service, which answers
    one binding per author and language; each binding becomes one CSV row of
    the label and the concatenated aliases in that language. */
module LabelsAliases {
  import opened Seqs
  import opened Wdqs

  const BatchSize: nat := 200

  /** The header row of `write_csv`. */
  const Headers: seq<string> := ["wikidata_id", "lang_code", "label", "aliases"]

  /** The row `main` builds for one binding. It lines up with the header: the
      author's identifier, then the variable each header names, "" when it is
      not bound. */
  function LabelsAliasesRow(b: Binding): (row: seq<string>)
    ensures |row| == |Headers|
    ensures row[0] == SubjectQid(b)
    ensures forall k :: 1 <= k < |Headers| ==> row[k] == Gv(b, Headers[k], "")
  {
    [SubjectQid(b), Gv(b, "lang_code", ""), Gv(b, "label", ""), Gv(b, "aliases", "")]
  }

  function LabelsAliasesRowOf(): Binding -> seq<string> {
    b => LabelsAliasesRow(b)
  }

  /** `main`: read the identifiers, then one row per binding of every batch. */
  method Harvest(input: seq<CsvRow>, answer: seq<string> -> seq<Binding>) returns (rows: seq<seq<string>>)
    ensures var bindings := BatchedBindings(NormalisedQids(input), BatchSize, answer);
      |rows| == |bindings| && forall t :: 0 <= t < |rows| ==> rows[t] == LabelsAliasesRow(bindings[t])
  {
    var qids := ReadQids(input);
    rows := BatchRows(qids, BatchSize, answer, LabelsAliasesRowOf());
  }
}
