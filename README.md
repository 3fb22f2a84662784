# canonical-lists reconciliation scripts, modelled in Dafny

This project models the data-reconciliation scripts of the canonical-lists
repository. They build canonical lists of ancient authors from several
sources: the MECANO author list, the MEDIATE library-catalogue export, the
Trismegistos author list and Wikidata.

- **Use case 1** (`query-1.py`, module `AliasCuration`): each CSV line of the
  MECANO list becomes an author record. Wikidata identifiers are attached, and
  aliases are filled from Wikidata's aliases and labels. A few anonymous
  authors get fixed aliases. Every alias list is lower-cased and
  de-duplicated. Targeted aliases are removed from the authors they were
  confused with. The record list is an `array` that each pass updates in place.
- **Use case 2** (`python_scripts/01`-`06`):
  - `CleanMediate` cleans the MEDIATE export: it names the columns,
    quarantines rows without a VIAF identifier, extracts the numeric VIAF ID,
    drops authors born after 500 or dead after 600 CE, and coerces the counts.
  - `WikidataLookup` covers scripts 02 and 03. They look the MEDIATE authors
    (by VIAF ID) and the Trismegistos authors (by TM ID) up on Wikidata. They
    build one row per answer binding and collect the IDs Wikidata did not know.
  - `CompareSources` compares the two lists by QID. It quarantines duplicated
    QIDs and forms the exclusive parts, the intersection and the union.
  - `ViafMatching` matches the Trismegistos-only authors to MEDIATE authors by
    VIAF ID. A match counts only when exactly one QID carries the ID. The
    matches are appended and the result is ranked.
  - `ManualAdditions` appends hand-made author records, drops repeated QIDs
    and optionally ranks the list.
- **Use case 3** (five `ancient_authors_wikidata_*` scripts): they harvest
  Wikidata in batches, with exponential back-off on failed queries.
  - `WithPrecision`: authors with dates and their precision, filtered.
  - `WikidataIds`: catalogue identifiers, merged per author.
  - `ItemMetrics`: item metrics, one row per binding.
  - `LabelsAliases`: labels and aliases per language, one row per binding.
  - `AuthorLanguages`: the languages of each author, resolved to English names.

  `Wdqs` holds what these scripts share: reading the identifier column, a
  result binding, and the batch loop. `Retry` holds the two shapes of
  `run_query_with_backoff`.

Shared modules model the Python and pandas behaviour the scripts rely on:

| module | models |
|---|---|
| `Values` | cells, truthiness, `json.dumps`/`loads`, `to_numeric` coercion |
| `Strings` | `strip`, `split`, `join`, `lower`, `rsplit("/")[-1]` |
| `Seqs` | order-keeping de-duplication, filtering, flattening, batching |
| `Dicts` | the insertion-ordered `dict` |
| `Ranking` | the descending `sort_values` with NaN last |
| `Records` | table rows |

Every call to the outside world is a parameter of the model:

- a Wikidata query answer is a list of bindings, or a function from a batch
  of identifiers to the bindings of its answer;
- a query failure is an `Attempt` outcome numbered by its attempt;
- a file is read as the rows it contains and written as the rows returned;
- sleeps are returned as the list of their delays.

Each script's loops are methods proved against specification functions. The
lemmas beside them state what the outputs mean: each identifier once in
first-seen order, the last binding wins, exactly one row per input identifier,
partitions that neither lose nor duplicate rows, and round trips such as
`json.loads(json.dumps(x)) == x`.

## Model

| member | source | states |
|---|---|---|
| AliasCuration.Unquote | use-case-1/query-1.py:10 | `str(cell).strip('"')`: the text left neither starts nor ends with a double quote |
| AliasCuration.Tags | use-case-1/query-1.py:11 | none exactly when `(` or `)` is missing (the `index` ValueError); otherwise the slice from the first `(` through the first `)`, which starts with `(`, ends with `)` and has no `)` before its end; the empty string when the first `)` comes before the first `(` |
| AliasCuration.Record | use-case-1/query-1.py:9-15 | the record built per CSV line has exactly the five keys `author`, `tags`, `perseus`, `wikipedia`, `trimegistos`, each holding the given text |
| AliasCuration.ParseRow | use-case-1/query-1.py:9-15 | one CSV line fails exactly when it has fewer than six cells or its tags cell lacks a bracket; otherwise it becomes the record of its cleaned cells 1-5 |
| AliasCuration.WikidataIdOf | use-case-1/query-1.py:22-42 | `get_wikidata_id`: none exactly when the query failed or bound nothing; otherwise the last `/`-segment of the first item URI, a suffix without slashes that a slash precedes whenever it is shorter than the URI |
| AliasCuration.FirstFailure | use-case-1/query-1.py:45-164 | the index of the first record on which a pass raises: every record before it succeeds, the one at it fails |
| AliasCuration.RunSteps | use-case-1/query-1.py:45-164 | one `for author in authors_dict` pass: same number of records; it runs to its end exactly when no record raises; records up to the first failure are rewritten, later ones are left as they were |
| AliasCuration.ForEachEntry | use-case-1/query-1.py:45-164 | the in-place pass over the record array leaves the array as `RunSteps` describes and reports whether it ran to its end |
| AliasCuration.LookupNeverRuns | use-case-1/query-1.py:45-48 | the lookup asks for key `trismegistos_id`, the parsed records store `trimegistos`, so the lookup pass leaves every parsed record unchanged |
| AliasCuration.OverrideStep | use-case-1/query-1.py:57-61 | raises (KeyError) exactly when the record has no `author`; Poseidippos of Pella gets Q1392801, Marcus Manilius gets Q352684, every other record is unchanged |
| AliasCuration.NanEntries | use-case-1/query-1.py:64 | the listed records are exactly the records whose `wikidata_id` is None or missing |
| AliasCuration.AliasesStepSpec | use-case-1/query-1.py:86-89 | the alias pass never raises; a record with a truthy identifier holds exactly that item's aliases, other records are unchanged |
| AliasCuration.AliasesThenLabels | use-case-1/query-1.py:86-117 | after the alias pass the label pass never raises, and a record with an identifier holds its aliases followed by its labels |
| AliasCuration.AnonymousStep | use-case-1/query-1.py:120-130 | raises exactly when `author` is missing; the five listed authors get their fixed alias list, every other record is unchanged |
| AliasCuration.LowerAll | use-case-1/query-1.py:135 | `list(set(alias.lower() ...))`: the result has no repeats, only lower-case aliases, and holds exactly the lower-cased inputs |
| AliasCuration.LowercaseStep | use-case-1/query-1.py:133-135 | raises exactly when the record has no alias list; otherwise the aliases become their distinct lower-cased forms |
| AliasCuration.LowercaseCurates | use-case-1/query-1.py:133-135 | after the lower-casing pass a record's aliases are distinct and lower-case |
| AliasCuration.Remove | use-case-1/query-1.py:140 | `list.remove`: ValueError exactly when the alias is absent; otherwise one element shorter and the multiset loses exactly one copy |
| AliasCuration.RemoveDistinct | use-case-1/query-1.py:137-164 | on distinct aliases, `remove` leaves a distinct list without that alias and with every other alias |
| AliasCuration.ExclusionSpec | use-case-1/query-1.py:143-151 | one exclusion leaves records of other authors unchanged; for the named author it raises exactly when the alias is absent, and otherwise removes that alias only, keeping the other keys and the curated form |
| AliasCuration.RemoveAllKeepsCurated | use-case-1/query-1.py:137-164 | any sequence of removals keeps a record's aliases distinct and lower-case |
| AliasCuration.FirstMissing | use-case-1/query-1.py:137-141 | how many of the aliases to remove are present in turn before the first missing one |
| AliasCuration.RemoveAllSpec | use-case-1/query-1.py:137-164 | removing distinct aliases in turn from a curated record raises exactly when one is missing, leaving the record with the aliases removed before it; otherwise exactly the listed aliases go, the other keys are unchanged and the record stays curated |
| AliasCuration.ExclusionsSpec | use-case-1/query-1.py:137-141 | an exclusion of several distinct aliases (Augustus at lines 137-141, Iustinus martyr at 161-164) leaves other authors unchanged; for the named author it raises exactly when one alias is missing, otherwise it removes exactly those aliases, and it keeps the other keys and the curated form |
| AliasCuration.EphraemSpec | use-case-1/query-1.py:153-158 | Ephraem Graecus is left with the single alias `ephraem graecus`; Ephraem of Syria loses it, raising exactly when it did not have it |
| AliasCuration.CurateAuthors | use-case-1/query-1.py:44-164 | the passes run in the script's order over the record array, stopping at the first exception, and leave the array as the composed `Script` says |
| CleanMediate.ReadCell | use-case-2/python_scripts/01_cleaning_mediate_results_xlsx.py:24 | `na_values=['None']`: a cell is NaN exactly when it was empty or the text `None`; otherwise it is kept |
| CleanMediate.NameColumns | use-case-2/python_scripts/01_cleaning_mediate_results_xlsx.py:51-63 | renaming succeeds exactly for lines of 1 + 19 cells; the row then has exactly the eight kept columns, each holding the cell at its position after the dropped index |
| CleanMediate.LoadSheet | use-case-2/python_scripts/01_cleaning_mediate_results_xlsx.py:45-63 | the sheet loads exactly when every line has the full width, into one named row per line in order |
| CleanMediate.TrailingDigits | use-case-2/python_scripts/01_cleaning_mediate_results_xlsx.py:100 | the longest run of digits that ends the text: all digits, with a non-digit before it |
| CleanMediate.ExtractTrailingId | use-case-2/python_scripts/01_cleaning_mediate_results_xlsx.py:100 | soundness of `/(\d+)/?$`: a result is a non-empty run of digits that follows a slash and is followed only by an allowed tail (`/`, a final newline, both, or nothing) |
| CleanMediate.DroppedTail | use-case-2/python_scripts/01_cleaning_mediate_results_xlsx.py:100 | what precedes the optional final slash and newline, followed by what was taken off, is the text again, and what was taken off is an allowed tail |
| CleanMediate.ExtractTrailingIdComplete | use-case-2/python_scripts/01_cleaning_mediate_results_xlsx.py:100 | completeness of the same pattern: every URL `<p>/<digits><tail>` yields exactly its digits |
| CleanMediate.ExtractViaf | use-case-2/python_scripts/01_cleaning_mediate_results_xlsx.py:100 | `.str.extract` on one cell: digits only from a text cell that matches; NaN for non-text cells and non-matching text |
| CleanMediate.WithExtractedViaf | use-case-2/python_scripts/01_cleaning_mediate_results_xlsx.py:100 | only `viaf_id` changes, to the extracted identifier |
| CleanMediate.DropMissingViaf | use-case-2/python_scripts/01_cleaning_mediate_results_xlsx.py:73-104 | the quarantined rows are exactly the rows with NaN `viaf_id`; kept plus quarantined count the input; the identifier is extracted only when some row was quarantined, otherwise the rows are kept as they were |
| CleanMediate.StrictDateYear | use-case-2/python_scripts/01_cleaning_mediate_results_xlsx.py:134 | a year is found only for text of the strict `DD-MM-YYYY` shape, optionally followed by one final newline, and it is the value of the four year digits, so below 10000 |
| CleanMediate.DateCutoff | use-case-2/python_scripts/01_cleaning_mediate_results_xlsx.py:137-158 | a strict date triggers the check exactly when its year is strictly after the cutoff, so 500 and 600 themselves are kept |
| CleanMediate.CheckNeedsStrictText | use-case-2/python_scripts/01_cleaning_mediate_results_xlsx.py:144-158 | NaN cells and text in any other format never trigger the check |
| CleanMediate.TrimDate | use-case-2/python_scripts/01_cleaning_mediate_results_xlsx.py:115-164 | NaN stays NaN, any other cell becomes its stripped text form |
| CleanMediate.DropLateAuthors | use-case-2/python_scripts/01_cleaning_mediate_results_xlsx.py:167-195 | the masked rows are saved apart and the rest kept in order; no kept row fails the check; together they are a permutation of the input |
| CleanMediate.CoerceCounts | use-case-2/python_scripts/01_cleaning_mediate_results_xlsx.py:204-209 | both counts become integers (invalid or NaN as 0), every other column is unchanged |
| CleanMediate.CleanMediateResults | use-case-2/python_scripts/01_cleaning_mediate_results_xlsx.py:24-231 | the script succeeds exactly when the sheet loads; the three tables written together account for every input line; every result row has integer counts; every quarantined row lacks a VIAF identifier |
| WikidataLookup.TakePrefix | use-case-2/python_scripts/02_retrieving_wikidata_info_mediate_cleaned_results.py:76 | `iloc[:n]` with Python slice semantics: the first `n` rows, or all but the last `-n` when `n` is negative |
| WikidataLookup.PresentAsText | use-case-2/python_scripts/02_retrieving_wikidata_info_mediate_cleaned_results.py:73-78 | the non-NaN values as text: nothing else, and every non-NaN value appears |
| WikidataLookup.AuthorIds | use-case-2/python_scripts/02_retrieving_wikidata_info_mediate_cleaned_results.py:72-78 | the IDs to query: the given `specific_ids`, else the IDs of the first `nb_ids` rows, else every ID of the column, NaN dropped in each case |
| WikidataLookup.AllRowsQueried | use-case-2/python_scripts/03_retrieving_wikidata_info_trismegistos_authors.py:73-79 | with neither option given, every row with an ID has that ID queried |
| WikidataLookup.QidOfUri | use-case-2/python_scripts/02_retrieving_wikidata_info_mediate_cleaned_results.py:179-180 | the QID is None exactly when the URI is empty; otherwise the URI's last `/`-segment, a slash-free suffix that a slash precedes when shorter |
| WikidataLookup.SplitDistinct | use-case-2/python_scripts/02_retrieving_wikidata_info_mediate_cleaned_results.py:185-196 | `list(set(filter(None, s.split(", "))))`: distinct, non-empty pieces of the split, and every non-empty piece appears |
| WikidataLookup.SplitDistinctOfEmpty | use-case-2/python_scripts/02_retrieving_wikidata_info_mediate_cleaned_results.py:185-196 | an absent GROUP_CONCAT gives the empty list |
| WikidataLookup.FirstRowWithId | use-case-2/python_scripts/02_retrieving_wikidata_info_mediate_cleaned_results.py:199-203 | the first source row whose ID text equals the binding's ID; none exactly when no row has it |
| WikidataLookup.SourceCellIsFirstRow | use-case-2/python_scripts/03_retrieving_wikidata_info_trismegistos_authors.py:195-196 | the source value always comes from the first row with the binding's ID |
| WikidataLookup.OutputFields | use-case-2/python_scripts/02_retrieving_wikidata_info_mediate_cleaned_results.py:206-219 | the shared output columns hold exactly the labels, QID and lists given |
| WikidataLookup.CommonFields | use-case-2/python_scripts/02_retrieving_wikidata_info_mediate_cleaned_results.py:206-219 | a binding's shared columns are exactly the eight common output columns |
| WikidataLookup.CommonFieldsSpec | use-case-2/python_scripts/02_retrieving_wikidata_info_mediate_cleaned_results.py:174-239 | missing labels become "", the QID is None exactly for an empty URI and otherwise its last segment, and each list column decodes to the binding's distinct non-empty pieces |
| WikidataLookup.MediateRow | use-case-2/python_scripts/02_retrieving_wikidata_info_mediate_cleaned_results.py:198-219 | script 02's row adds four cells from the first source row with the binding's VIAF ID: the `short_name` label, its `viaf_id` (overwriting the queried one), `nb_items` and `nb_collections`, each None when no row has that ID. The shared columns are kept |
| WikidataLookup.TrismegistosRow | use-case-2/python_scripts/03_retrieving_wikidata_info_trismegistos_authors.py:195-210 | script 03's row adds the Trismegistos name of the first source row with the binding's TM ID and the TM ID itself, keeping the shared columns |
| WikidataLookup.BuildRows | use-case-2/python_scripts/02_retrieving_wikidata_info_mediate_cleaned_results.py:169-219 | one output row per binding, in answer order |
| WikidataLookup.NotMatchedSpec | use-case-2/python_scripts/03_retrieving_wikidata_info_trismegistos_authors.py:155-158 | an ID is reported unmatched exactly when it was queried and no binding carries it |
| WikidataLookup.UnmatchedRows | use-case-2/python_scripts/02_retrieving_wikidata_info_mediate_cleaned_results.py:277-282 | the unmatched rows are exactly the source rows whose ID is among the unmatched IDs |
| WikidataLookup.Retrieve | use-case-2/python_scripts/02_retrieving_wikidata_info_mediate_cleaned_results.py:31-310 | the call ends early (None) exactly when there is no ID. Script 03 raises `UnboundLocalError` exactly when it queried IDs and the answer is empty. The `KeyError` of its lines 223-226 is caught at line 263, and line 282 then reads a directory variable that only line 241 sets. Otherwise it returns one row per binding and the source rows of the unmatched IDs, which script 02 sets apart even after an empty answer. Only script 02 returns a path, and only when the answer is not empty |
| CompareSources.NormaliseQid | use-case-2/python_scripts/04_comparing_mediate_trismegistos_qids_authors.py:64-65 | the QID cell becomes the stripped text of the cell and every other cell is kept |
| CompareSources.NormalisedKeyTrimmed | use-case-2/python_scripts/04_comparing_mediate_trismegistos_qids_authors.py:64-65 | a normalised QID has no whitespace at either end |
| CompareSources.QidsConcat | use-case-2/python_scripts/04_comparing_mediate_trismegistos_qids_authors.py:68 | the QID column of two consecutive runs of rows is the first run's followed by the second's |
| CompareSources.QuarantineRemovesFlagged | use-case-2/python_scripts/04_comparing_mediate_trismegistos_qids_authors.py:68-105 | `~isin(duplicates['q_identifier'])` removes exactly the rows flagged by `duplicated(keep=False)`, and nothing when no row is flagged |
| CompareSources.RepeatIsDuplicate | use-case-2/python_scripts/04_comparing_mediate_trismegistos_qids_authors.py:68 | a row whose QID occurred earlier in its list is flagged |
| CompareSources.QuarantineUnique | use-case-2/python_scripts/04_comparing_mediate_trismegistos_qids_authors.py:107-109 | after the quarantine every QID occurs once in its list: the `is_unique` assertion that the source leaves commented out holds |
| CompareSources.KeptUnique | use-case-2/python_scripts/04_comparing_mediate_trismegistos_qids_authors.py:68-105 | for every prefix of a list the unflagged rows have distinct QIDs, all drawn from that prefix |
| CompareSources.IntersectRow | use-case-2/python_scripts/04_comparing_mediate_trismegistos_qids_authors.py:120-126 | an intersection row has the columns of both lists; MEDIATE values on every MEDIATE column, Trismegistos values on the columns only it has |
| CompareSources.PartnersOfUnique | use-case-2/python_scripts/04_comparing_mediate_trismegistos_qids_authors.py:120 | with distinct QIDs a QID has one merge partner when present and none otherwise |
| CompareSources.InnerMergeSize | use-case-2/python_scripts/04_comparing_mediate_trismegistos_qids_authors.py:120 | the inner merge has one row per MEDIATE row whose QID the Trismegistos list also has |
| CompareSources.FirstPartner | use-case-2/python_scripts/04_comparing_mediate_trismegistos_qids_authors.py:120 | for a shared QID the partner is a Trismegistos row with that QID |
| CompareSources.InnerMergeRows | use-case-2/python_scripts/04_comparing_mediate_trismegistos_qids_authors.py:120 | the inner merge over every MEDIATE prefix is its shared rows, in order, each joined with its own partner |
| CompareSources.IntersectionIsPairing | use-case-2/python_scripts/04_comparing_mediate_trismegistos_qids_authors.py:120-126 | the intersection is exactly the shared MEDIATE rows in MEDIATE order, each joined with the Trismegistos row of the same QID |
| CompareSources.JoinWithPartners | use-case-2/python_scripts/04_comparing_mediate_trismegistos_qids_authors.py:132 | an outer-merge MEDIATE row yields one joined row per partner, or one row with no Trismegistos side |
| CompareSources.TmOnly | use-case-2/python_scripts/04_comparing_mediate_trismegistos_qids_authors.py:132 | one joined row per Trismegistos-only row; that these rows bring the Trismegistos-only QIDs into the union is proved by `CompareSources.UnionKeys` |
| CompareSources.OuterMergeLeftSize | use-case-2/python_scripts/04_comparing_mediate_trismegistos_qids_authors.py:132 | with distinct Trismegistos QIDs every MEDIATE row yields exactly one union row |
| CompareSources.FilterUniqueCount | use-case-2/python_scripts/04_comparing_mediate_trismegistos_qids_authors.py:112-113 | with distinct QIDs the rows selected by `isin(ks)` are as many as the list's QIDs in `ks` |
| CompareSources.UnionSize | use-case-2/python_scripts/04_comparing_mediate_trismegistos_qids_authors.py:132-133 | with distinct QIDs in both lists, the union has \|M\| + \|T\| - \|intersection\| rows |
| CompareSources.UnionKeys | use-case-2/python_scripts/04_comparing_mediate_trismegistos_qids_authors.py:132-133 | with distinct QIDs in both lists, the outer merge holds each QID at most once, and its QIDs are exactly those of either list |
| CompareSources.ExclusiveAndSharedSplit | use-case-2/python_scripts/04_comparing_mediate_trismegistos_qids_authors.py:112-120 | the exclusive Trismegistos QIDs and the shared QIDs are disjoint and together are all the Trismegistos QIDs |
| CompareSources.UnionPrefersMediate | use-case-2/python_scripts/04_comparing_mediate_trismegistos_qids_authors.py:146-152 | a paired union column takes the MEDIATE value unless it is NaN or "", then the Trismegistos value, with "" again counting as NaN |
| CompareSources.BaseUnionRow | use-case-2/python_scripts/04_comparing_mediate_trismegistos_qids_authors.py:132 | before the paired columns are combined, a union row holds the unpaired columns with their union values |
| CompareSources.CoalesceUnion | use-case-2/python_scripts/04_comparing_mediate_trismegistos_qids_authors.py:139-159 | the column loop leaves one row per joined row with the columns of both lists, each holding its coalesced value |
| CompareSources.CompareAuthorLists | use-case-2/python_scripts/04_comparing_mediate_trismegistos_qids_authors.py:30-209 | raises `UnboundLocalError` at line 209 exactly when a list lacks `q_identifier`: the `KeyError` of lines 64-65 is caught and logged at lines 191-196, and none of the returned frames was assigned; otherwise the quarantined duplicates, both exclusive lists, the intersection as the inner merge, and the union: its size, one row per QID of either quarantined list with no QID twice, and its coalesced cells |
| ViafMatching.FormatViaf | use-case-2/python_scripts/05_matching_exclusive_trismegistos_authors_to_existing_mediate_authors.py:78-84 | the formatted VIAF ID is None exactly when the URL is falsy; a truthy non-text URL raises; a non-empty URL gives the last `/`-segment after trailing slashes are stripped: a slash-free suffix that a slash precedes when shorter, and never ending in `/` |
| ViafMatching.FormatEntry | use-case-2/python_scripts/05_matching_exclusive_trismegistos_authors_to_existing_mediate_authors.py:76-91 | one entry gains `viaf_id` with the formatted value, or stays as it was when formatting raised; no other field changes |
| ViafMatching.FailedEntries | use-case-2/python_scripts/05_matching_exclusive_trismegistos_authors_to_existing_mediate_authors.py:86-91 | the logged entry numbers are one-based, increasing, and exactly the entries whose formatting raised |
| ViafMatching.ModifyViafIds | use-case-2/python_scripts/05_matching_exclusive_trismegistos_authors_to_existing_mediate_authors.py:76-91 | the loop over the raw MEDIATE table rewrites every entry in place as `FormatEntry` says and logs exactly the failed entries |
| ViafMatching.ViafsForSpec | use-case-2/python_scripts/05_matching_exclusive_trismegistos_authors_to_existing_mediate_authors.py:196-204 | a VIAF ID is listed for a QID exactly when some binding for that QID's item carries it, non-empty |
| ViafMatching.QidViafMap | use-case-2/python_scripts/05_matching_exclusive_trismegistos_authors_to_existing_mediate_authors.py:194-204 | the `defaultdict(list)` loop: a QID is a key exactly when some binding gives it a VIAF ID, and its list is then the distinct VIAF IDs in first-seen order |
| ViafMatching.ViafMapAt | use-case-2/python_scripts/05_matching_exclusive_trismegistos_authors_to_existing_mediate_authors.py:194-204 | the map built after any sequence of bindings has keys and lists as `QidViafMap` promises |
| ViafMatching.NoViafMeansNoBinding | use-case-2/python_scripts/05_matching_exclusive_trismegistos_authors_to_existing_mediate_authors.py:216-225 | a row's encoded list is `'[]'` exactly when no binding gives its QID a VIAF ID |
| ViafMatching.ViafIdsOfTrismegistosAuthors | use-case-2/python_scripts/05_matching_exclusive_trismegistos_authors_to_existing_mediate_authors.py:215-244 | the rows without a VIAF list and those with one are the `== '[]'` and `!= '[]'` selections, and together they count every row |
| ViafMatching.TmViafDict | use-case-2/python_scripts/05_matching_exclusive_trismegistos_authors_to_existing_mediate_authors.py:352 | `set_index(...).to_dict()` gives a dictionary with distinct keys; what a lookup gives is proved by `ViafMatching.TmViafDictLast` |
| ViafMatching.TmViafDictLast | use-case-2/python_scripts/05_matching_exclusive_trismegistos_authors_to_existing_mediate_authors.py:352 | looking a QID up gives the VIAF list of the last row with that QID |
| ViafMatching.Candidates | use-case-2/python_scripts/05_matching_exclusive_trismegistos_authors_to_existing_mediate_authors.py:361 | the candidate QIDs are keys of the dictionary |
| ViafMatching.CandidatesSpec | use-case-2/python_scripts/05_matching_exclusive_trismegistos_authors_to_existing_mediate_authors.py:361 | a QID is a candidate exactly when its VIAF list holds the target ID |
| ViafMatching.CandidateLabels | use-case-2/python_scripts/05_matching_exclusive_trismegistos_authors_to_existing_mediate_authors.py:363 | a label is listed exactly when some Trismegistos row with a candidate QID carries it, and there are no more labels than rows |
| ViafMatching.FindQidsByViaf | use-case-2/python_scripts/05_matching_exclusive_trismegistos_authors_to_existing_mediate_authors.py:360-376 | no candidate: None; exactly one: that QID; several: None and one ambiguity record with every candidate and its labels appended |
| ViafMatching.MatchedQid | use-case-2/python_scripts/05_matching_exclusive_trismegistos_authors_to_existing_mediate_authors.py:389-400 | an entry is matched exactly when its VIAF ID is truthy and held by exactly one QID that is itself truthy, and it is matched to that QID |
| ViafMatching.TmRowFor | use-case-2/python_scripts/05_matching_exclusive_trismegistos_authors_to_existing_mediate_authors.py:406-425 | `.loc[...].iloc[0]`: a found row is the first Trismegistos row with that QID; none is found only when no row has it |
| ViafMatching.MatchRow | use-case-2/python_scripts/05_matching_exclusive_trismegistos_authors_to_existing_mediate_authors.py:431-444 | the appended row has exactly the twelve match columns, and its `q_identifier` is the QID it was built for |
| ViafMatching.MatchRowMediateCells | use-case-2/python_scripts/05_matching_exclusive_trismegistos_authors_to_existing_mediate_authors.py:427-439 | the VIAF ID, MEDIATE name and both counts of a match row are the entry's own cells |
| ViafMatching.MatchRowTrismegistosLabels | use-case-2/python_scripts/05_matching_exclusive_trismegistos_authors_to_existing_mediate_authors.py:406-433 | the three label columns of a match row are the Trismegistos row's labels, None without a row |
| ViafMatching.MatchRowTrismegistosLists | use-case-2/python_scripts/05_matching_exclusive_trismegistos_authors_to_existing_mediate_authors.py:415-443 | the three alias columns and the writing languages are the Trismegistos row's lists, read and written back as JSON, `[]` when there is no row or the cell is None |
| ViafMatching.MatchEntries | use-case-2/python_scripts/05_matching_exclusive_trismegistos_authors_to_existing_mediate_authors.py:385-457 | the matches and the ambiguity records are the per-entry contributions, in table order |
| ViafMatching.MatchEntry | use-case-2/python_scripts/05_matching_exclusive_trismegistos_authors_to_existing_mediate_authors.py:385-444 | one entry adds its unique-match row and its ambiguity record, if any, to the two lists: one without a VIAF ID adds nothing |
| ViafMatching.MatchedQidsSpec | use-case-2/python_scripts/05_matching_exclusive_trismegistos_authors_to_existing_mediate_authors.py:524 | a QID is among the matched rows exactly when some entry was matched to it |
| ViafMatching.MatchedEntryRow | use-case-2/python_scripts/05_matching_exclusive_trismegistos_authors_to_existing_mediate_authors.py:524 | a matched entry's QID is among the matched rows |
| ViafMatching.MatchedRowOrigin | use-case-2/python_scripts/05_matching_exclusive_trismegistos_authors_to_existing_mediate_authors.py:431-444 | every matched row comes from an entry matched to that row's QID |
| ViafMatching.MatchRowQid | use-case-2/python_scripts/05_matching_exclusive_trismegistos_authors_to_existing_mediate_authors.py:435 | a match row carries the QID it was built for |
| ViafMatching.MatchOfRow | use-case-2/python_scripts/05_matching_exclusive_trismegistos_authors_to_existing_mediate_authors.py:396-444 | a row contributed by an entry is the match row of that entry's unique QID |
| ViafMatching.AmbiguousQidsSpec | use-case-2/python_scripts/05_matching_exclusive_trismegistos_authors_to_existing_mediate_authors.py:515 | a QID is named by an ambiguity record exactly when it is one of several candidates for some entry's VIAF ID |
| ViafMatching.AmbiguityOrigin | use-case-2/python_scripts/05_matching_exclusive_trismegistos_authors_to_existing_mediate_authors.py:515 | a QID named by an ambiguity record comes from an entry whose VIAF ID it is one of several candidates for |
| ViafMatching.AmbiguityReported | use-case-2/python_scripts/05_matching_exclusive_trismegistos_authors_to_existing_mediate_authors.py:515 | every QID among several candidates for an entry's VIAF ID is named by an ambiguity record |
| ViafMatching.UnmatchedSpec | use-case-2/python_scripts/05_matching_exclusive_trismegistos_authors_to_existing_mediate_authors.py:523-529 | a Trismegistos row is reported unmatched exactly when no entry was matched to its QID and its QID was not one of several candidates |
| ViafMatching.CoerceMediateCounts | use-case-2/python_scripts/05_matching_exclusive_trismegistos_authors_to_existing_mediate_authors.py:547-548 | both MEDIATE counts become integers (invalid or NaN as 0) and nothing else changes |
| ViafMatching.FinalTable | use-case-2/python_scripts/05_matching_exclusive_trismegistos_authors_to_existing_mediate_authors.py:544-551 | the concatenated table has every row of both tables once, as a permutation, with integer counts, sorted by `mediate_nb_collections` descending |
| ViafMatching.MatchViafIds | use-case-2/python_scripts/05_matching_exclusive_trismegistos_authors_to_existing_mediate_authors.py:276-568 | the matches, the ambiguity records, the unmatched rows and the final sorted table are the ones the lemmas above describe |
| ManualAdditions.EncodeListColumns | use-case-2/python_scripts/06_manually_adding_authors_to_final_mediate_csv.py:300-303 | the four list columns hold their `json.dumps` encoding, every other cell is kept |
| ManualAdditions.AddedFrame | use-case-2/python_scripts/06_manually_adding_authors_to_final_mediate_csv.py:296-303 | building the added frame fails (KeyError) exactly when no added record has one of the four list columns; otherwise every record, in order, with its list columns encoded |
| ManualAdditions.EncodeRoundTrip | use-case-2/python_scripts/06_manually_adding_authors_to_final_mediate_csv.py:300-303 | decoding an encoded list column gives back the record's own value |
| ManualAdditions.DuplicatedMask | use-case-2/python_scripts/06_manually_adding_authors_to_final_mediate_csv.py:330 | one flag per row of the concatenation |
| ManualAdditions.DuplicatedIsLaterOccurrence | use-case-2/python_scripts/06_manually_adding_authors_to_final_mediate_csv.py:330 | `keep='first'`: a row is flagged exactly when an earlier row has its QID |
| ManualAdditions.Select | use-case-2/python_scripts/06_manually_adding_authors_to_final_mediate_csv.py:330 | `df[mask]` or `df[~mask]` is never longer than the frame |
| ManualAdditions.SelectMember | use-case-2/python_scripts/06_manually_adding_authors_to_final_mediate_csv.py:330 | a row is selected exactly when it stands at a position whose flag is the one wanted |
| ManualAdditions.SelectPartition | use-case-2/python_scripts/06_manually_adding_authors_to_final_mediate_csv.py:330-337 | the flagged and unflagged rows together are the rows, as a multiset and in number |
| ManualAdditions.SelectNoneFlagged | use-case-2/python_scripts/06_manually_adding_authors_to_final_mediate_csv.py:335-337 | with nothing flagged, the unflagged rows are all the rows, so skipping the drop changes nothing |
| ManualAdditions.DropDuplicatesKeys | use-case-2/python_scripts/06_manually_adding_authors_to_final_mediate_csv.py:337 | the surviving QIDs are the QIDs of the concatenation, each once, in the order of their first occurrence |
| ManualAdditions.SurvivorIsFirstOccurrence | use-case-2/python_scripts/06_manually_adding_authors_to_final_mediate_csv.py:337 | every survivor is the row at its QID's first occurrence |
| ManualAdditions.DropDuplicatesUnique | use-case-2/python_scripts/06_manually_adding_authors_to_final_mediate_csv.py:337 | the survivors carry distinct QIDs |
| ManualAdditions.DuplicatesAreDropped | use-case-2/python_scripts/06_manually_adding_authors_to_final_mediate_csv.py:330-348 | the rows saved as duplicates are exactly the rows the drop removes |
| ManualAdditions.ManuallyAddAuthors | use-case-2/python_scripts/06_manually_adding_authors_to_final_mediate_csv.py:269-379 | fails exactly when the added frame cannot be built; otherwise the added frame, the duplicates file, and the updated list: the deduplicated concatenation, unchanged without `sort` and a permutation of it ranked by `mediate_nb_collections` with `sort`, shorter by exactly the duplicates |
| ManualAdditions.PermutationKeepsDistinct | use-case-2/python_scripts/06_manually_adding_authors_to_final_mediate_csv.py:352-354 | ranking cannot create duplicate QIDs: a permutation of rows with distinct QIDs has distinct QIDs |
| ManualAdditions.KeyInPermutation | use-case-2/python_scripts/06_manually_adding_authors_to_final_mediate_csv.py:352-354 | a permutation keeps every QID |
| ManualAdditions.UpdatedQidsUnique | use-case-2/python_scripts/06_manually_adding_authors_to_final_mediate_csv.py:325-375 | whatever `sort` is, the updated list carries every QID of the concatenation exactly once |
| Values.NatToDecimal | use-case-2/python_scripts/01_cleaning_mediate_results_xlsx.py:208-209 | the decimal text of a count is non-empty and all digits |
| Values.JsonDumps | use-case-2/python_scripts/02_retrieving_wikidata_info_mediate_cleaned_results.py:235-239 | `json.dumps` of a list always gives a non-empty, truthy text |
| Values.LoadsDumps | use-case-2/python_scripts/05_matching_exclusive_trismegistos_authors_to_existing_mediate_authors.py:319-322 | `json.loads` undoes `json.dumps`: a list column written by one script is read back unchanged by the next |
| Values.CoerceCount | use-case-2/python_scripts/01_cleaning_mediate_results_xlsx.py:204-209 | `to_numeric(errors='coerce').fillna(0).astype(int)`: an integer stays; integer text (an optional sign, then digits) becomes its signed value; other text and a missing value become 0 |
| Values.DecimalRoundTrip | use-case-2/python_scripts/01_cleaning_mediate_results_xlsx.py:204-209 | reading the decimal text of a count gives the count back |
| Values.CoerceDecimal | use-case-2/python_scripts/05_matching_exclusive_trismegistos_authors_to_existing_mediate_authors.py:547-548 | coercing the decimal text of a count gives the count back |
| Values.CoerceSignedDecimal | use-case-2/python_scripts/01_cleaning_mediate_results_xlsx.py:204-209 | a `-` or `+` before the decimal text of a count is honoured: coercing gives the negated count or the count |
| Strings.LStripSpec | use-case-1/query-1.py:10 | the text left is a suffix, everything dropped before it is a stripped character, and it does not start with one |
| Strings.RStripSpec | use-case-2/python_scripts/05_matching_exclusive_trismegistos_authors_to_existing_mediate_authors.py:81 | the text left is a prefix, everything dropped after it is a stripped character, and it does not end with one |
| Strings.StripSpec | use-case-2/python_scripts/04_comparing_mediate_trismegistos_qids_authors.py:64-65 | stripping removes a run of stripped characters from each end and leaves a text that neither starts nor ends with one |
| Strings.StripIdempotent | use-case-2/python_scripts/04_comparing_mediate_trismegistos_qids_authors.py:64-65 | stripping twice is stripping once |
| Strings.StripUnpadded | use-case-3/ancient_authors_wikidata_author_languages.py:46 | a text that neither starts nor ends with a stripped character is left as it is |
| Strings.Find | use-case-1/query-1.py:11 | the position of the first occurrence of a separator, none exactly when it does not occur |
| Strings.Split | use-case-2/python_scripts/02_retrieving_wikidata_info_mediate_cleaned_results.py:185-191 | `str.split(sep)` gives at least one part |
| Strings.JoinSplit | use-case-2/python_scripts/02_retrieving_wikidata_info_mediate_cleaned_results.py:185-191 | joining the parts of a split with the separator gives the text back |
| Strings.SplitPartsFree | use-case-2/python_scripts/02_retrieving_wikidata_info_mediate_cleaned_results.py:185-191 | no part of a split contains the separator |
| Strings.LastSegmentSpec | use-case-2/python_scripts/02_retrieving_wikidata_info_mediate_cleaned_results.py:179-180 | `split("/")[-1]` is a slash-free suffix that a slash precedes whenever it is shorter than the text |
| Strings.LastSegmentOfPlain | use-case-2/python_scripts/02_retrieving_wikidata_info_mediate_cleaned_results.py:179-180 | a text without a slash is its own last segment |
| Strings.Lower | use-case-1/query-1.py:135 | lower-casing keeps the length, leaves no ASCII or Latin-1 capital, turns each capital into the letter 32 code points above it, and keeps every other character |
| Strings.LowerIdempotent | use-case-1/query-1.py:135 | lower-casing twice is lower-casing once |
| Seqs.Dedup | use-case-2/python_scripts/02_retrieving_wikidata_info_mediate_cleaned_results.py:192-196 | `list(set(...))` as first-occurrence de-duplication: without repetitions, holding exactly the input's elements, never longer |
| Seqs.FirstIndex | use-case-2/python_scripts/06_manually_adding_authors_to_final_mediate_csv.py:330 | the first position of an element: it is there and not before |
| Seqs.FirstIndexPrefix | use-case-2/python_scripts/06_manually_adding_authors_to_final_mediate_csv.py:330 | the first position of an element met in a prefix is its first position in the prefix |
| Seqs.DedupFirstOccurrenceOrder | use-case-2/python_scripts/02_retrieving_wikidata_info_mediate_cleaned_results.py:192-196 | de-duplication orders its elements by their first occurrence in the input |
| Seqs.DedupSnoc | use-case-3/ancient_authors_wikidata_author_languages.py:114-117 | one more element extends the de-duplication by it exactly when it is new |
| Seqs.DedupOfDistinct | use-case-3/ancient_authors_wikidata_author_languages.py:202-206 | a list without repetitions is left as it is |
| Seqs.Filter | use-case-2/python_scripts/02_retrieving_wikidata_info_mediate_cleaned_results.py:192 | `filter`: never longer, every element kept satisfies the predicate and every satisfying element is kept |
| Seqs.FilterConcat | use-case-2/python_scripts/02_retrieving_wikidata_info_mediate_cleaned_results.py:192 | filtering distributes over concatenation |
| Seqs.FilterSnoc | use-case-3/ancient_authors_wikidata_author_languages.py:114-117 | filtering one more element appends it exactly when it is kept |
| Seqs.FilterAll | use-case-3/ancient_authors_wikidata_author_languages.py:205 | a filter that keeps everything changes nothing |
| Seqs.Reject | use-case-2/python_scripts/04_comparing_mediate_trismegistos_qids_authors.py:93 | the complement of a filter: never longer, every element left fails the predicate, and every failing element is left |
| Seqs.RejectOfNone | use-case-2/python_scripts/04_comparing_mediate_trismegistos_qids_authors.py:93 | when nothing is kept, everything is left |
| Seqs.FilterPartition | use-case-2/python_scripts/04_comparing_mediate_trismegistos_qids_authors.py:93 | a filter and its complement together hold each element exactly as often as the input |
| Seqs.FilterAsReject | use-case-2/python_scripts/04_comparing_mediate_trismegistos_qids_authors.py:93 | filtering by the negation of a predicate is rejecting by it |
| Seqs.FlattenCons | use-case-3/ancient_authors_wikidata_author_languages.py:202-206 | concatenating one more list in front extends the concatenation |
| Seqs.FlattenMember | use-case-3/ancient_authors_wikidata_author_languages.py:202-206 | an element of a concatenation of lists is an element of one of them |
| Seqs.FlattenEmpty | use-case-3/ancient_authors_wikidata_author_languages.py:202-206 | concatenating empty lists gives nothing |
| Seqs.ConcatMapMember | use-case-3/ancient_authors_wikidata_author_languages.py:45-51 | an element of a loop's accumulated output comes from one of the pieces |
| Seqs.ConcatMapConcat | use-case-3/ancient_authors_wikidata_author_languages.py:45-51 | the accumulated output of two runs is the concatenation of their outputs |
| Seqs.ConcatMapPointwise | use-case-3/ancient_authors_wikidata_author_languages.py:45-51 | pieces that agree give the same accumulated output |
| Seqs.ConcatMapPrefix | use-case-3/ancient_authors_wikidata_author_languages.py:140-146 | one more loop turn appends its piece |
| Seqs.DedupFilterMember | use-case-2/python_scripts/02_retrieving_wikidata_info_mediate_cleaned_results.py:192-196 | an element survives filtering and de-duplication exactly when it is kept and present |
| Seqs.Chunks | use-case-3/ancient_authors_wikidata_author_languages.py:140-141 | `[s[i:i + n] for i in range(0, len(s), n)]`: every batch is non-empty and at most `n` long |
| Seqs.ChunksCover | use-case-3/ancient_authors_wikidata_author_languages.py:140-141 | the batches cover the identifiers exactly once, in order |
| Seqs.ChunkAt | use-case-3/ancient_authors_wikidata_author_languages.py:140-141 | batch `k` exists exactly when its offset `k * n` is below the length, and it is `s[k * n : k * n + n]` |
| Dicts.Keys | use-case-2/python_scripts/05_matching_exclusive_trismegistos_authors_to_existing_mediate_authors.py:194-204 | the keys of a `dict`, in insertion order |
| Dicts.Get | use-case-2/python_scripts/05_matching_exclusive_trismegistos_authors_to_existing_mediate_authors.py:194-204 | `d.get(k)`: none exactly when `k` is not a key, otherwise a value stored under `k` |
| Dicts.GetPut | use-case-2/python_scripts/05_matching_exclusive_trismegistos_authors_to_existing_mediate_authors.py:194-204 | after `d[k] = v`, `k` gives `v` and every other key gives what it gave before |
| Dicts.PutKeys | use-case-3/ancient_authors_wikidata_ids.py:95 | an existing key keeps its place in the order; a new key goes at the end |
| Dicts.PutEntries | use-case-3/ancient_authors_wikidata_ids.py:95-99 | every entry after `d[k] = v` is the new one or was there before |
| Dicts.PutValid | use-case-3/ancient_authors_wikidata_ids.py:95 | assigning keeps every key once |
| Dicts.AssignAllSnoc | use-case-3/ancient_authors_wikidata_author_languages.py:152-157 | one more assignment updates the key of that element |
| Dicts.AssignAllSpec | use-case-3/ancient_authors_wikidata_author_languages.py:146-157 | a key is present exactly when some element assigned it, and it holds the value of the last such element |
| Dicts.AssignIfSnoc | use-case-3/ancient_authors_wikidata_author_languages.py:180-181 | one more conditional assignment updates its key only when the condition holds |
| Dicts.AssignIfSpec | use-case-3/ancient_authors_wikidata_author_languages.py:176-181 | a key is present exactly when some kept element assigned it; it holds the value of the last kept element that assigned it |
| Ranking.Insert | use-case-2/python_scripts/05_matching_exclusive_trismegistos_authors_to_existing_mediate_authors.py:551 | inserting a row into a descending list keeps it descending, with NaN last, and adds exactly that row |
| Ranking.SortDescending | use-case-2/python_scripts/06_manually_adding_authors_to_final_mediate_csv.py:352-354 | `sort_values(ascending=False)`: descending by the count with NaN last, and a permutation of the rows |
| Retry.Delays | use-case-3/ancient_authors_wikidata_author_languages.py:26-39 | the list of sleeps after `n` failures has `n` entries; the `k`-th is `5 * 2^k` seconds without a cap, and the smaller of that and 60 with the cap |
| Retry.FirstAnswer | use-case-3/ancient_authors_wikidata_author_languages.py:27-30 | the first attempt that answers within the limit: every earlier attempt failed; none exactly when every attempt within the limit failed |
| Retry.BackoffReraise | use-case-3/ancient_authors_wikidata_author_languages.py:24-39 | with `max_retries + 1` attempts: the first answer is returned after one sleep per earlier failure; when all fail, the last failure propagates after `max_retries` sleeps (none after the last call); a negative retry count never calls and returns None; the optional cap of 60 bounds the delays |
| Retry.BackoffGiveUp | use-case-3/ancient_authors_wikidata_ids.py:39-52 | with `max_retries + 1` attempts: the first answer is returned after one sleep per earlier failure; when all fail, every failure including the last was followed by a doubled sleep, then a `RuntimeError` is raised |
| Retry.FirstAnswerStable | use-case-3/ancient_authors_wikidata_author_languages.py:27-30 | once an attempt has answered, allowing more attempts changes nothing |
| Retry.UncappedDelay | use-case-3/ancient_authors_wikidata_item_metrics.py:21-34 | without a cap, the sleep after failure `k` is `5 * 2^k` seconds |
| Retry.CappedDelay | use-case-3/ancient_authors_wikidata_author_languages.py:26-39 | with the cap, the sleeps run 5, 10, 20, 40 and then stay at 60 |
| Wdqs.NormaliseQid | use-case-3/ancient_authors_wikidata_author_languages.py:46-51 | a cell yields no identifier exactly when stripping leaves nothing; otherwise the identifier is a suffix of the stripped cell, the stripped cell itself unless it starts with `http`, and slash-free when it does |
| Wdqs.ReadQids | use-case-3/ancient_authors_wikidata_author_languages.py:41-52 | `read_qids_from_csv` returns, in row order, the normalised identifier of every row whose cell is not blank |
| Wdqs.NormalisedQidsConcat | use-case-3/ancient_authors_wikidata_author_languages.py:45-51 | reading keeps the row order: two runs of rows give their identifiers one after the other |
| Wdqs.NormalisedQidsMember | use-case-3/ancient_authors_wikidata_author_languages.py:45-51 | an identifier is read exactly when some row's cell normalises to it |
| Wdqs.NormaliseBare | use-case-3/ancient_authors_wikidata_author_languages.py:46-51 | an unpadded identifier not starting with `http` (such as `Q42`) is read unchanged |
| Wdqs.NormaliseEntityUri | use-case-3/ancient_authors_wikidata_author_languages.py:49-50 | an entity URI `http://www.wikidata.org/entity/Q42` is read as `Q42` |
| Wdqs.BatchAdvance | use-case-3/ancient_authors_wikidata_author_languages.py:140-141 | at offset `i = k * n` below the length, batch `k` exists and is `ids[i:i + n]`, the answers so far grow by its answer, and a further batch exists exactly when `i + n` is below the length |
| Wdqs.BatchRows | use-case-3/ancient_authors_wikidata_labels_aliases.py:102-116 | the batch loop yields one row per binding of all the batched answers, in batch and binding order |
| Wdqs.AppendRows | use-case-3/ancient_authors_wikidata_labels_aliases.py:109-116 | the rows of one batch are the earlier rows followed by one row per binding, in binding order |
| AuthorLanguages.FirstNonEmptyDedup | use-case-3/ancient_authors_wikidata_author_languages.py:110-118 | the `seen`-set loop equals keeping the first occurrence of each non-empty part, in order |
| AuthorLanguages.SplitDedup | use-case-3/ancient_authors_wikidata_author_languages.py:107-118 | `split_dedup` returns the non-empty stripped parts of the split text, each once, in first-occurrence order, with the early `[]` for empty text agreeing with that |
| AuthorLanguages.SplitDedupOfEmpty | use-case-3/ancient_authors_wikidata_author_languages.py:108-109 | the general loop also gives `[]` for the empty text, so the early return changes nothing |
| AuthorLanguages.SplitDedupIsDedup | use-case-3/ancient_authors_wikidata_author_languages.py:107-118 | the result is the de-duplication of the non-empty stripped parts: without repetitions and ordered by first occurrence |
| AuthorLanguages.SplitDedupMember | use-case-3/ancient_authors_wikidata_author_languages.py:112-117 | an identifier is returned exactly when it is non-empty and the stripping of some part |
| AuthorLanguages.SplitDedupStripped | use-case-3/ancient_authors_wikidata_author_languages.py:113-114 | every returned identifier is non-empty and already stripped |
| AuthorLanguages.TrimAllMember | use-case-3/ancient_authors_wikidata_author_languages.py:113 | a stripped part is exactly the stripping of some part |
| AuthorLanguages.FirstNonEmptyMember | use-case-3/ancient_authors_wikidata_author_languages.py:114-117 | the loop keeps exactly the non-empty parts it met |
| AuthorLanguages.CollectLanguageIds | use-case-3/ancient_authors_wikidata_author_languages.py:138-158 | step A: `per_author_ids` holds, for every author some binding of the batched answers names, the four lists of the last such binding, missing variables read as "" |
| AuthorLanguages.CollectNextBatch | use-case-3/ancient_authors_wikidata_author_languages.py:140-157 | one turn of step A advances to the next batch and collects its bindings |
| AuthorLanguages.CollectBatch | use-case-3/ancient_authors_wikidata_author_languages.py:146-157 | the bindings of one batch each overwrite their author's entry, in order |
| AuthorLanguages.NoEmptyLangId | use-case-3/ancient_authors_wikidata_author_languages.py:161-166 | no author contributes an empty identifier, so `discard("")` removes nothing |
| AuthorLanguages.AllLangIds | use-case-3/ancient_authors_wikidata_author_languages.py:161-166 | `all_lang_ids` is exactly the union of `split_dedup` of the four lists of every author, and holds no empty identifier |
| AuthorLanguages.UnionOfIds | use-case-3/ancient_authors_wikidata_author_languages.py:161-164 | the loop over the values collects exactly the identifiers some author's lists contribute |
| AuthorLanguages.AddAuthorIds | use-case-3/ancient_authors_wikidata_author_languages.py:163-164 | the inner loop adds exactly the identifiers of one author's four lists |
| AuthorLanguages.ListOf | use-case-3/ancient_authors_wikidata_author_languages.py:170 | `list(all_lang_ids)` holds every identifier of the set exactly once, in an order left open |
| AuthorLanguages.LangLabelsSpec | use-case-3/ancient_authors_wikidata_author_languages.py:176-181 | a language has a label exactly when some binding gave it a non-empty one; the label stored is non-empty and is that of the last binding with a non-empty label |
| AuthorLanguages.CollectLabels | use-case-3/ancient_authors_wikidata_author_languages.py:169-182 | step B: `lang_label` is the label map of all bindings of the batched label answers |
| AuthorLanguages.LabelNextBatch | use-case-3/ancient_authors_wikidata_author_languages.py:171-181 | one turn of step B advances to the next batch and collects its labels |
| AuthorLanguages.LabelBatch | use-case-3/ancient_authors_wikidata_author_languages.py:176-181 | the bindings of one batch set the label of each language with a non-empty English label, in order |
| AuthorLanguages.MapNamesSpec | use-case-3/ancient_authors_wikidata_author_languages.py:193-194 | a name is produced exactly when it is the non-empty label of one of the identifiers |
| AuthorLanguages.MapNamesConcat | use-case-3/ancient_authors_wikidata_author_languages.py:193-194 | names keep the identifiers' order: mapping two runs gives their names one after the other |
| AuthorLanguages.AllNames | use-case-3/ancient_authors_wikidata_author_languages.py:202-206 | the nested loop yields each non-empty name of the lists once, in order of first occurrence in their concatenation |
| AuthorLanguages.NamesUnionSpec | use-case-3/ancient_authors_wikidata_author_languages.py:202-206 | the union has no repetitions and holds exactly the non-empty names of the lists, in first-occurrence order when no list holds an empty name |
| AuthorLanguages.NonEmptyFlatten | use-case-3/ancient_authors_wikidata_author_languages.py:205 | when no list holds an empty name, the `if n` test drops nothing |
| AuthorLanguages.RowOfFour | use-case-3/ancient_authors_wikidata_author_languages.py:208-215 | a row is the author identifier followed by the four lists and the union, each joined with `|` |
| AuthorLanguages.ComposeRow | use-case-3/ancient_authors_wikidata_author_languages.py:186-215 | the row for one author: its four name lists, from its identifier lists through `split_dedup` and `map_names`, and their union |
| AuthorLanguages.NamesOf | use-case-3/ancient_authors_wikidata_author_languages.py:188-199 | the names of one list are `map_names` of its `split_dedup` |
| AuthorLanguages.ComposeRows | use-case-3/ancient_authors_wikidata_author_languages.py:185-215 | one row per input identifier, in input order, each the row of that author |
| AuthorLanguages.AuthorRowShape | use-case-3/ancient_authors_wikidata_author_languages.py:120-128 | every row has the header's six columns and starts with its author's identifier; an author with no binding gets five empty cells |
| AuthorLanguages.Harvest | use-case-3/ancient_authors_wikidata_author_languages.py:134-217 | `main`: one row per identifier read, each built from step A's lists and the labels step B collected over some duplicate-free order of exactly the identifiers of all authors |
| WikidataIds.IdColumnIsNoProp | use-case-3/ancient_authors_wikidata_ids.py:32 | `wikidata_id` is none of the 18 catalogue column names of `ID_PROPS`, so the header has no repeated column |
| WikidataIds.ReadIdsMember | use-case-3/ancient_authors_wikidata_ids.py:68-71 | an identifier is read exactly when it is some row's non-empty `wikidata_id` cell, as written (not stripped) |
| WikidataIds.ReadIdsConcat | use-case-3/ancient_authors_wikidata_ids.py:71 | reading keeps the row order |
| WikidataIds.RowAgrees | use-case-3/ancient_authors_wikidata_ids.py:71 | for an empty or bare identifier cell, this reader and the stripping reader of the other scripts agree |
| WikidataIds.ReadIdsAgree | use-case-3/ancient_authors_wikidata_ids.py:68-71 | when every cell is empty or a bare identifier, this script reads the same list as the scripts that strip and shorten |
| WikidataIds.IdRecord | use-case-3/ancient_authors_wikidata_ids.py:94-99 | a binding leaves a record with exactly the header's keys: its identifier, and every catalogue column's value or "" |
| WikidataIds.MergeUnfold | use-case-3/ancient_authors_wikidata_ids.py:93-99 | merging the bindings is merging all but the last, then storing the last one's record under its identifier |
| WikidataIds.MergeStep | use-case-3/ancient_authors_wikidata_ids.py:93-99 | one more binding stores its record under its identifier |
| WikidataIds.MergeShape | use-case-3/ancient_authors_wikidata_ids.py:95-99 | every merged record has all the header's keys and carries its own identifier |
| WikidataIds.StoredRecord | use-case-3/ancient_authors_wikidata_ids.py:95-99 | a stored record has exactly the header's keys |
| WikidataIds.Merge | use-case-3/ancient_authors_wikidata_ids.py:84-99 | `merged` after the batch loop is the merge of all the batched bindings |
| WikidataIds.MergeNextBatch | use-case-3/ancient_authors_wikidata_ids.py:86-99 | one turn of the batch loop advances to the next batch and merges its bindings |
| WikidataIds.MergeBatch | use-case-3/ancient_authors_wikidata_ids.py:93-99 | one batch extends the merge by its bindings |
| WikidataIds.FillRecord | use-case-3/ancient_authors_wikidata_ids.py:95-99 | filling the `defaultdict` record overwrites every column, so the result does not depend on the record found there |
| WikidataIds.IdsSnoc | use-case-3/ancient_authors_wikidata_ids.py:94 | the identifiers of one more binding end with its identifier |
| WikidataIds.KeysStep | use-case-3/ancient_authors_wikidata_ids.py:95 | storing under a key keeps the keys the first-occurrence de-duplication of the identifiers seen |
| WikidataIds.MergeKeys | use-case-3/ancient_authors_wikidata_ids.py:84-99 | there is one record per distinct identifier, in first-seen order |
| WikidataIds.MergeLast | use-case-3/ancient_authors_wikidata_ids.py:95-99 | an identifier's record is the one its last binding leaves: a later binding overwrites every column, empty values included |
| WikidataIds.IdRowsShape | use-case-3/ancient_authors_wikidata_ids.py:102 | one row per record, as wide as the header, starting with the record's key |
| WikidataIds.MergedRows | use-case-3/ancient_authors_wikidata_ids.py:102 | one row per distinct identifier, as wide as the header, starting with the identifiers in first-seen order |
| WikidataIds.HeaderCount | use-case-3/ancient_authors_wikidata_ids.py:11-32 | the header has 19 columns |
| WikidataIds.Harvest | use-case-3/ancient_authors_wikidata_ids.py:79-103 | `main` writes the rows of the merge of all batched answers over the identifiers read |
| WithPrecision.PrecisionRow | use-case-3/ancient_authors_wikidata_with_precision.py:130-162 | a surviving binding's row lines up with the header: its identifier, then each column's variable, "" when not bound |
| WithPrecision.ProcessedBy | use-case-3/ancient_authors_wikidata_with_precision.py:120-164 | every row output is as wide as the header and belongs to one of the bindings |
| WithPrecision.ProcessResults | use-case-3/ancient_authors_wikidata_with_precision.py:120-164 | `process_results` returns the rows of the bindings that are first with their identifier and survive the name and year filters, in order |
| WithPrecision.ProcessBinding | use-case-3/ancient_authors_wikidata_with_precision.py:125-164 | one binding: its identifier is always marked as seen, and its row is appended exactly when the identifier was not seen before and no name or year filter rejects it |
| WithPrecision.ProcessedOrigin | use-case-3/ancient_authors_wikidata_with_precision.py:124-162 | a row is output exactly for a binding that is the first with its identifier and is not dropped by its name or by a year above 500 |
| WithPrecision.ProcessedByOrigin | use-case-3/ancient_authors_wikidata_with_precision.py:124-162 | for any filter, a row is output exactly for a first binding of its identifier that passes the filter |
| WithPrecision.ProcessedUnique | use-case-3/ancient_authors_wikidata_with_precision.py:122-128 | at most one row per identifier |
| WithPrecision.ProcessedByUnique | use-case-3/ancient_authors_wikidata_with_precision.py:122-128 | at most one row per identifier, whatever the filter |
| WithPrecision.FirstOfIdUnique | use-case-3/ancient_authors_wikidata_with_precision.py:126-128 | a binding first with its identifier has an identifier no earlier binding has |
| WithPrecision.FilteredFirstHidesId | use-case-3/ancient_authors_wikidata_with_precision.py:126-149 | when an identifier's first binding is filtered out, it gets no row: its later bindings were skipped as already seen |
| WithPrecision.IdsDiffer | use-case-3/ancient_authors_wikidata_with_precision.py:126-128 | two distinct first bindings have distinct identifiers |
| WithPrecision.Harvest | use-case-3/ancient_authors_wikidata_with_precision.py:104-118 | `main`: when one of the six attempts answers, the data is `process_results` of the first answer; otherwise a `RuntimeError` |
| ItemMetrics.MetricsRowSpec | use-case-3/ancient_authors_wikidata_item_metrics.py:160-180 | a row has the header's 32 columns, starts with the item's identifier, and every other cell holds the variable of its header; a missing one reads "0" in the count cells and "" elsewhere |
| ItemMetrics.Harvest | use-case-3/ancient_authors_wikidata_item_metrics.py:146-186 | `main` writes one row per binding of all batched answers, in order, over the identifiers read |
| LabelsAliases.LabelsAliasesRow | use-case-3/ancient_authors_wikidata_labels_aliases.py:109-116 | a row has the header's four columns: the identifier, then the variable of each header, "" when not bound |
| LabelsAliases.Harvest | use-case-3/ancient_authors_wikidata_labels_aliases.py:95-121 | `main` writes one row per binding of all batched answers, in order, over the identifiers read |

## Left out

- Reading and writing files (CSV, XLSX, JSON), creating directories, timestamps and console output are not modelled. A file is the list of rows it holds.
- The text of the SPARQL queries and what Wikidata computes for them are not modelled. That covers the `GROUP_CONCAT`, `STRAFTER`, `VALUES`, language filters, `GROUP BY` and `LIMIT`. An answer is a parameter, a list of bindings.
- The `INCLUDE_WORK_LANGS` switch of the author-languages script only changes the query text. Its effect is part of the answer.
- `time.sleep` and the throttling pauses are not modelled. The back-off returns its delays instead of sleeping.
- Per-binding `try`/`except` blocks in scripts 02, 03 and 05 are not modelled: a binding that raises is taken to be well formed. The error logs they write are not modelled either.
- The HTTP 429 recursion of `get_wikidata_id` in `query-1.py` is not modelled. A lookup either answers with bindings or fails.
- In the batch scripts of use case 3, `run_query_with_backoff` is taken to answer every batch. The `Retry` module proves both back-off shapes on their own. Only `WithPrecision.Harvest`, which runs one query, composes the back-off with its result, including the `RuntimeError`.
- The interactive function of script 02 (lines 314-441) is not modelled, because it reads `input()` from the user.
- `query-1.py` line 141 lacks a closing parenthesis. It is modelled as if the parenthesis were closed.
- The `KeyError`/`ValueError` that ends `query-1.py` is modelled as a failed step that stops the run. Everything done before it is kept.
- In `use-case-3/ancient_authors_wikidata_ids.py` (line 84), the loop changes the `defaultdict(dict)` entry through its alias `record`. `WikidataIds.FillRecord` models this as reading the stored record, rewriting it and putting it back. In script 05 (line 193), `defaultdict(list)` is modelled by `ViafMatching.QidViafMap`: a missing key reads as the empty list.
- Python's `set` iteration order is not modelled. `list(set(...))` is the first-occurrence de-duplication in `Seqs.Dedup`; `AuthorLanguages.ListOf` keeps any duplicate-free order of the set.
- `CompareSources.CoalesceUnion`: the rows of the pandas outer merge come MEDIATE first, then the Trismegistos-only rows. pandas sorts the merge keys, and that order is not modelled.
- `Ranking.SortDescending` promises order and permutation only. The tie order of pandas' unstable sort is not modelled.
- The mixed-type comparison that `sort_values` may meet in script 06 is not modelled. Counts are integers or NaN.
- The literal author dictionaries of script 06 (lines 113-262) are not modelled. They are data: the added records are a parameter.
- `Strings.Lower` lower-cases ASCII and Latin-1 capitals only. Full Unicode case mapping is not modelled.
- `str.isdigit` is modelled for ASCII digits only.
- CleanMediate.TrailingDigits and CleanMediate.ExtractTrailingId: the regex `\d` of `r'/(\d+)/?$'` (script 01, line 100) is modelled as an ASCII digit, although on a Python `str` it matches every Unicode decimal digit.
- CleanMediate.StrictDateYear: the same holds for the `\d` of `r'^(\d{2})-(\d{2})-(\d{4})$'` (script 01, line 134).
- Floating-point values, pandas dtypes and NA token parsing are not modelled. Float cells such as `123.0`, Excel date cells, and column-suffix collisions of `merge` are left out too. A missing value is `Null`, and its text form is `"nan"`.
- A cell in the VIAF column of script 05 that is not a list is not modelled.
- `Values.LoadsDumps` models a JSON-encoded list as a tagged value. Quoting, escaping and `ensure_ascii` are not modelled.
- HTTP timeouts, `SPARQLWrapper` settings (POST, headers, timeout) and the endpoint URL are not modelled. They do not affect the data.
