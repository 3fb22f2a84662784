/** `ancient_authors_wikidata_author_languages.py`: for every author
    Q-identifier, the identifiers of the languages the author spoke or wrote,
    wrote in, had as native language, and wrote works in are fetched in
    batches of 50 (step A); every language identifier met is then sent, in
    batches of 200, for its English label (step B); and each author becomes
    one row of label lists joined by `|`, plus their ordered union. */
module AuthorLanguages {
  import opened Strings
  import opened Seqs
  import opened Dicts
  import opened Wdqs

  const AuthorBatchSize: nat := 50
  const LangBatchSize: nat := 200
  const Comma: string := ","
  const Bar: string := "|"

  /** The header row of `write_csv`. */
  const Headers: seq<string> := [
    "wikidata_id",
    "spoken_written_language_names",
    "writing_language_names",
    "native_language_names",
    "languages_of_works_names",
    "all_languages_names"
  ]

  // ---------------------------------------------------------------------
  // split_dedup

  function TrimAll(parts: seq<string>): seq<string> {
    seq(|parts|, k requires 0 <= k < |parts| => Trim(parts[k]))
  }

  function NonEmpty(): string -> bool {
    p => p != ""
  }

  /** The stripped parts of `s.split(sep)` that are not empty, in order. */
  function NonEmptyParts(s: string, sep: string): seq<string>
    requires |sep| > 0
  {
    Filter(TrimAll(Split(s, sep)), NonEmpty())
  }

  /** The loop of `split_dedup` over the stripped parts `ts`: a part is
      appended unless it is empty or already there. */
  function FirstNonEmpty(ts: seq<string>): seq<string> {
    if ts == [] then []
    else
      var out := FirstNonEmpty(ts[..|ts| - 1]);
      var p := ts[|ts| - 1];
      if p == "" || p in out then out else out + [p]
  }

  /** What `split_dedup` returns. */
  function SplitDedupOf(s: string, sep: string): seq<string>
    requires |sep| > 0
  {
    FirstNonEmpty(TrimAll(Split(s, sep)))
  }

  /** The loop keeps the first occurrence of every non-empty part: it is the
      order-keeping de-duplication of the non-empty parts. */
  lemma {:induction false} FirstNonEmptyDedup(ts: seq<string>)
    ensures FirstNonEmpty(ts) == Dedup(Filter(ts, NonEmpty()))
  {
    if ts != [] {
      var p := ts[..|ts| - 1];
      var x := ts[|ts| - 1];
      FirstNonEmptyDedup(p);
      assert ts == p + [x];
      FilterSnoc(p, x, NonEmpty());
      DedupSnoc(Filter(p, NonEmpty()), x);
    }
  }

  /** `split_dedup(csv_str, sep)`: the loop over the parts with the `seen` set. */
  method SplitDedup(csvStr: string, sep: string) returns (out: seq<string>)
    requires |sep| > 0
    ensures out == SplitDedupOf(csvStr, sep)
  {
    if csvStr == "" {
      SplitDedupOfEmpty(sep);
      return [];
    }
    out := [];
    var seen: set<string> := {};
    var parts := Split(csvStr, sep);
    ghost var trimmed := TrimAll(parts);
    for t := 0 to |parts|
      invariant out == FirstNonEmpty(trimmed[..t])
      invariant seen == set x | x in out
    {
      var p := Trim(parts[t]);
      TakeSnoc(trimmed, t);
      if p == "" || p in seen {
        continue;
      }
      seen := seen + {p};
      out := out + [p];
    }
    assert trimmed[..|parts|] == trimmed;
  }

  /** The early `return []` for an empty text agrees with the general case:
      the single empty part is dropped. */
  lemma SplitDedupOfEmpty(sep: string)
    requires |sep| > 0
    ensures SplitDedupOf("", sep) == []
  {
    assert Split("", sep) == [""];
    assert Trim("") == "";
    assert TrimAll([""]) == [""];
    assert [""][..0] == [];
  }

  /** `split_dedup` is the order-keeping de-duplication of the non-empty
      stripped parts: they come out pairwise different, in the order in which
      they first occur. */
  lemma SplitDedupIsDedup(s: string, sep: string)
    requires |sep| > 0
    ensures SplitDedupOf(s, sep) == Dedup(NonEmptyParts(s, sep))
    ensures Distinct(SplitDedupOf(s, sep))
    ensures var r := SplitDedupOf(s, sep);
      forall i, j :: 0 <= i < j < |r| ==>
        FirstIndex(NonEmptyParts(s, sep), r[i]) < FirstIndex(NonEmptyParts(s, sep), r[j])
  {
    FirstNonEmptyDedup(TrimAll(Split(s, sep)));
    DedupFirstOccurrenceOrder(NonEmptyParts(s, sep));
  }

  /** An identifier is returned exactly when it is the non-empty stripping of
      some part of the split. */
  lemma SplitDedupMember(s: string, sep: string, x: string)
    requires |sep| > 0
    ensures x in SplitDedupOf(s, sep) <==> x != "" && x in TrimAll(Split(s, sep))
    ensures x in SplitDedupOf(s, sep) <==>
      x != "" && exists i :: 0 <= i < |Split(s, sep)| && x == Trim(Split(s, sep)[i])
  {
    TrimAllMember(Split(s, sep), x);
    FirstNonEmptyMember(TrimAll(Split(s, sep)), x);
  }

  /** Every identifier returned is stripped already. */
  lemma SplitDedupStripped(s: string, sep: string, x: string)
    requires |sep| > 0 && x in SplitDedupOf(s, sep)
    ensures x != "" && Trim(x) == x
  {
    var parts := Split(s, sep);
    SplitDedupMember(s, sep, x);
    TrimAllMember(parts, x);
    var i :| 0 <= i < |parts| && x == Trim(parts[i]);
    StripIdempotent(parts[i], IsSpace);
  }

  /** The stripped parts are the stripping of each part. */
  lemma TrimAllMember(parts: seq<string>, x: string)
    ensures x in TrimAll(parts) <==> exists i :: 0 <= i < |parts| && x == Trim(parts[i])
  {
    var t := TrimAll(parts);
    assert forall i :: 0 <= i < |parts| ==> t[i] == Trim(parts[i]);
  }

  lemma {:induction false} FirstNonEmptyMember(ts: seq<string>, x: string)
    ensures x in FirstNonEmpty(ts) <==> x != "" && x in ts
  {
    if ts != [] {
      var p := ts[..|ts| - 1];
      FirstNonEmptyMember(p, x);
      assert ts == p + [ts[|ts| - 1]];
    }
  }

  // ---------------------------------------------------------------------
  // Step A: the language identifiers of every author

  /** The four comma-separated identifier lists kept for one author. */
  datatype LangIds = LangIds(spokenWritten: string, writing: string, native: string, works: string)

  /** `per_author_ids[author_qid] = {...}` for one binding. */
  function LangIdsOf(): Binding -> LangIds {
    b => LangIds(
      Gv(b, "spoken_written_language_ids", ""),
      Gv(b, "writing_language_ids", ""),
      Gv(b, "native_language_ids", ""),
      Gv(b, "languages_of_works_ids", ""))
  }

  function SubjectKey(): Binding -> string {
    b => SubjectQid(b)
  }

  /** `per_author_ids` after the bindings `bs`: the author of each binding is
      assigned its lists, a later binding for the same author overwriting. */
  function PerAuthorOf(bs: seq<Binding>): map<string, LangIds> {
    AssignAll(bs, SubjectKey(), LangIdsOf())
  }

  /** Step A of `main`. */
  method CollectLanguageIds(qids: seq<string>, answer: seq<string> -> seq<Binding>)
    returns (per: map<string, LangIds>)
    ensures per == PerAuthorOf(BatchedBindings(qids, AuthorBatchSize, answer))
  {
    ghost var chunks := Chunks(qids, AuthorBatchSize);
    ghost var seen: seq<Binding> := [];
    ghost var k: nat := 0;
    per := map[];
    var i := 0;
    ChunkAt(qids, AuthorBatchSize, 0, 0);
    while i < |qids|
      invariant i == k * AuthorBatchSize && k <= |chunks|
      invariant k < |chunks| <==> i < |qids|
      invariant seen == ConcatMap(chunks[..k], answer)
      invariant per == PerAuthorOf(seen)
      decreases |qids| - i
    {
      per, seen := CollectNextBatch(qids, answer, per, i, k, seen);
      i := i + AuthorBatchSize;
      k := k + 1;
    }
    assert chunks[..k] == chunks;
  }

  /** One turn of the batch loop of step A: the batch at offset `i` is sent
      and its bindings are collected. */
  method CollectNextBatch(qids: seq<string>, answer: seq<string> -> seq<Binding>, per: map<string, LangIds>,
                          i: nat, ghost k: nat, ghost seen: seq<Binding>)
    returns (after: map<string, LangIds>, ghost seen': seq<Binding>)
    requires i == k * AuthorBatchSize && i < |qids| && k < |Chunks(qids, AuthorBatchSize)|
    requires seen == ConcatMap(Chunks(qids, AuthorBatchSize)[..k], answer)
    requires per == PerAuthorOf(seen)
    ensures i + AuthorBatchSize == (k + 1) * AuthorBatchSize
    ensures seen' == ConcatMap(Chunks(qids, AuthorBatchSize)[..k + 1], answer)
    ensures after == PerAuthorOf(ConcatMap(Chunks(qids, AuthorBatchSize)[..k + 1], answer))
    ensures k + 1 < |Chunks(qids, AuthorBatchSize)| <==> i + AuthorBatchSize < |qids|
  {
    BatchAdvance(qids, AuthorBatchSize, answer, k, i);
    var batch := qids[i..Min(i + AuthorBatchSize, |qids|)];
    var bindings := answer(batch);
    after := CollectBatch(per, seen, bindings);
    seen' := seen + bindings;
  }

  /** The inner loop of step A: every binding of one batch overwrites the
      entry of its author. */
  method CollectBatch(per: map<string, LangIds>, ghost seen: seq<Binding>, bindings: seq<Binding>)
    returns (after: map<string, LangIds>)
    requires per == PerAuthorOf(seen)
    ensures after == PerAuthorOf(seen + bindings)
  {
    after := per;
    assert seen + bindings[..0] == seen;
    for j := 0 to |bindings|
      invariant after == PerAuthorOf(seen + bindings[..j])
    {
      var b := bindings[j];
      SnocPrefix(seen, bindings, j);
      AssignAllSnoc(seen + bindings[..j], b, SubjectKey(), LangIdsOf());
      after := after[SubjectQid(b) := LangIdsOf()(b)];
    }
    assert bindings[..|bindings|] == bindings;
  }

  // ---------------------------------------------------------------------
  // The set of language identifiers to label

  /** The four lists in the order of the `for key in (...)` loop. */
  function Fields(v: LangIds): seq<string> {
    [v.spokenWritten, v.writing, v.native, v.works]
  }

  function SplitDedupComma(): string -> seq<string> {
    f => SplitDedupOf(f, Comma)
  }

  /** The language identifiers one author contributes, list after list. */
  function AuthorLangIds(v: LangIds): seq<string> {
    ConcatMap(Fields(v), SplitDedupComma())
  }

  /** No author contributes an empty identifier, so `discard("")` removes
      nothing. */
  lemma NoEmptyLangId(v: LangIds)
    ensures "" !in AuthorLangIds(v)
  {
    ConcatMapMember(Fields(v), SplitDedupComma(), "");
    forall i | 0 <= i < |Fields(v)| ensures "" !in SplitDedupComma()(Fields(v)[i]) {
      SplitDedupMember(Fields(v)[i], Comma, "");
    }
  }

  /** Some author among `vs` contributes `x`. */
  predicate Contributes(vs: set<LangIds>, x: string) {
    exists w :: w in vs && x in AuthorLangIds(w)
  }

  /** `all_lang_ids`: the union of `split_dedup` over the four lists of every
      author, without "". */
  method AllLangIds(per: map<string, LangIds>) returns (ids: set<string>)
    ensures forall x :: x in ids <==> exists a :: a in per && x in AuthorLangIds(per[a])
    ensures "" !in ids
  {
    ids := UnionOfIds(per.Values);
    ContributesOfValues(per, ids);
    assert ids - {""} == ids;
    ids := ids - {""};
  }

  /** The loop over `per_author.values()`: every author's identifiers are
      added to the set. */
  method UnionOfIds(vs: set<LangIds>) returns (ids: set<string>)
    ensures forall x :: x in ids <==> Contributes(vs, x)
  {
    ids := {};
    var rest := vs;
    ghost var done: set<LangIds> := {};
    while rest != {}
      invariant done + rest == vs
      invariant forall x :: x in ids <==> Contributes(done, x)
      decreases |rest|
    {
      var v :| v in rest;
      ids := AddAuthorIds(ids, v);
      ContributesAdd(done, v);
      rest := rest - {v};
      done := done + {v};
    }
  }

  /** One more author's lists contribute their own identifiers. */
  lemma ContributesAdd(done: set<LangIds>, v: LangIds)
    ensures forall x :: Contributes(done + {v}, x) <==> Contributes(done, x) || x in AuthorLangIds(v)
  {
    forall x ensures Contributes(done + {v}, x) <==> Contributes(done, x) || x in AuthorLangIds(v) {
      if Contributes(done + {v}, x) {
        var w :| w in done + {v} && x in AuthorLangIds(w);
      }
    }
  }

  /** What all the authors contribute, read back through the map, holds no
      empty identifier. */
  lemma ContributesOfValues(per: map<string, LangIds>, ids: set<string>)
    requires forall x :: x in ids <==> Contributes(per.Values, x)
    ensures forall x :: x in ids <==> exists a :: a in per && x in AuthorLangIds(per[a])
    ensures "" !in ids
  {
    forall x ensures x in ids <==> exists a :: a in per && x in AuthorLangIds(per[a]) {
      if x in ids {
        var w :| w in per.Values && x in AuthorLangIds(w);
        var a :| a in per && per[a] == w;
      }
    }
    if "" in ids {
      var a :| a in per && "" in AuthorLangIds(per[a]);
      NoEmptyLangId(per[a]);
    }
  }

  /** The inner `for key in (...)` loop: `update` with `split_dedup` of each
      of the author's four lists. */
  method AddAuthorIds(ids: set<string>, v: LangIds) returns (after: set<string>)
    ensures forall x :: x in after <==> x in ids || x in AuthorLangIds(v)
  {
    after := ids;
    var fields := Fields(v);
    for j := 0 to |fields|
      invariant forall x :: x in after <==> x in ids || x in ConcatMap(fields[..j], SplitDedupComma())
    {
      var part := SplitDedup(fields[j], Comma);
      ConcatMapPrefix(fields, j, SplitDedupComma());
      after := after + set x | x in part;
    }
    assert fields[..|fields|] == fields;
  }

  /** `list(all_lang_ids)`: each element once, in an order the set does not
      fix. */
  method ListOf(s: set<string>) returns (xs: seq<string>)
    ensures Distinct(xs)
    ensures forall x :: x in xs <==> x in s
  {
    xs := [];
    var rest := s;
    while rest != {}
      invariant rest <= s && Distinct(xs)
      invariant forall x :: x in xs <==> x in s - rest
      decreases |rest|
    {
      var x :| x in rest;
      assert x !in xs;
      xs := xs + [x];
      rest := rest - {x};
    }
  }

  // ---------------------------------------------------------------------
  // Step B: the English label of every language

  function LabelOf(b: Binding): string {
    Gv(b, "label_en", "")
  }

  function Labelled(): Binding -> bool {
    b => LabelOf(b) != ""
  }

  function LabelOfFn(): Binding -> string {
    b => LabelOf(b)
  }

  /** `lang_label` after the bindings `bs`: only a non-empty label is stored,
      under the last `/`-segment of the language URI. */
  function LangLabels(bs: seq<Binding>): map<string, string> {
    AssignIf(bs, Labelled(), SubjectKey(), LabelOfFn())
  }

  /** A language has a label exactly when some binding gave it a non-empty
      one; the label stored is never empty, and it is the one of the last
      binding with a non-empty label: later bindings overwrite, bindings
      without a label do not. */
  lemma LangLabelsSpec(bs: seq<Binding>, q: string)
    ensures q in LangLabels(bs) <==>
      exists i :: 0 <= i < |bs| && SubjectQid(bs[i]) == q && LabelOf(bs[i]) != ""
    ensures q in LangLabels(bs) ==> LangLabels(bs)[q] != ""
    ensures forall i ::
      (0 <= i < |bs| && SubjectQid(bs[i]) == q && LabelOf(bs[i]) != "" &&
       forall j :: i < j < |bs| && SubjectQid(bs[j]) == q ==> LabelOf(bs[j]) == "") ==>
      LangLabels(bs)[q] == LabelOf(bs[i])
  {
    AssignIfSpec(bs, Labelled(), SubjectKey(), LabelOfFn(), q);
  }

  /** Step B of `main`, over the identifiers in the order `list` gave them. */
  method CollectLabels(langIds: seq<string>, answer: seq<string> -> seq<Binding>)
    returns (labels: map<string, string>)
    ensures labels == LangLabels(BatchedBindings(langIds, LangBatchSize, answer))
  {
    ghost var chunks := Chunks(langIds, LangBatchSize);
    ghost var seen: seq<Binding> := [];
    ghost var k: nat := 0;
    labels := map[];
    var i := 0;
    ChunkAt(langIds, LangBatchSize, 0, 0);
    while i < |langIds|
      invariant i == k * LangBatchSize && k <= |chunks|
      invariant k < |chunks| <==> i < |langIds|
      invariant seen == ConcatMap(chunks[..k], answer)
      invariant labels == LangLabels(seen)
      decreases |langIds| - i
    {
      labels, seen := LabelNextBatch(langIds, answer, labels, i, k, seen);
      i := i + LangBatchSize;
      k := k + 1;
    }
    assert chunks[..k] == chunks;
  }

  /** One turn of the batch loop of step B. */
  method LabelNextBatch(langIds: seq<string>, answer: seq<string> -> seq<Binding>, labels: map<string, string>,
                        i: nat, ghost k: nat, ghost seen: seq<Binding>)
    returns (after: map<string, string>, ghost seen': seq<Binding>)
    requires i == k * LangBatchSize && i < |langIds| && k < |Chunks(langIds, LangBatchSize)|
    requires seen == ConcatMap(Chunks(langIds, LangBatchSize)[..k], answer)
    requires labels == LangLabels(seen)
    ensures i + LangBatchSize == (k + 1) * LangBatchSize
    ensures seen' == ConcatMap(Chunks(langIds, LangBatchSize)[..k + 1], answer)
    ensures after == LangLabels(ConcatMap(Chunks(langIds, LangBatchSize)[..k + 1], answer))
    ensures k + 1 < |Chunks(langIds, LangBatchSize)| <==> i + LangBatchSize < |langIds|
  {
    BatchAdvance(langIds, LangBatchSize, answer, k, i);
    var batch := langIds[i..Min(i + LangBatchSize, |langIds|)];
    var bindings := answer(batch);
    after := LabelBatch(labels, seen, bindings);
    seen' := seen + bindings;
  }

  /** The inner loop of step B: a binding with a non-empty English label sets
      the label of its language. */
  method LabelBatch(labels: map<string, string>, ghost seen: seq<Binding>, bindings: seq<Binding>)
    returns (after: map<string, string>)
    requires labels == LangLabels(seen)
    ensures after == LangLabels(seen + bindings)
  {
    after := labels;
    assert seen + bindings[..0] == seen;
    for j := 0 to |bindings|
      invariant after == LangLabels(seen + bindings[..j])
    {
      var b := bindings[j];
      SnocPrefix(seen, bindings, j);
      AssignIfSnoc(seen + bindings[..j], b, Labelled(), SubjectKey(), LabelOfFn());
      var lqid := SubjectQid(b);
      var labelEn := LabelOf(b);
      if labelEn != "" {
        after := after[lqid := labelEn];
      }
    }
    assert bindings[..|bindings|] == bindings;
  }

  // ---------------------------------------------------------------------
  // Composing the rows

  /** `map_names(id_list)`: the non-empty labels of the identifiers, in order. */
  function MapNames(ids: seq<string>, labels: map<string, string>): seq<string> {
    if ids == [] then []
    else
      var q := ids[|ids| - 1];
      MapNames(ids[..|ids| - 1], labels) + (if q in labels && labels[q] != "" then [labels[q]] else [])
  }

  /** Every name is the non-empty label of one of the identifiers, and every
      identifier with a non-empty label contributes it. */
  lemma {:induction false} MapNamesSpec(ids: seq<string>, labels: map<string, string>)
    ensures forall n :: n in MapNames(ids, labels) <==>
      n != "" && exists i :: 0 <= i < |ids| && ids[i] in labels && n == labels[ids[i]]
  {
    if ids != [] {
      var p := ids[..|ids| - 1];
      MapNamesSpec(p, labels);
      assert forall i :: 0 <= i < |p| ==> p[i] == ids[i];
    }
  }

  /** Names keep the order of the identifiers: mapping two runs of
      identifiers one after the other gives the two name lists one after the
      other. */
  lemma {:induction false} MapNamesConcat(a: seq<string>, b: seq<string>, labels: map<string, string>)
    ensures MapNames(a + b, labels) == MapNames(a, labels) + MapNames(b, labels)
    decreases |b|
  {
    if b == [] {
      assert a + b == a;
    } else {
      var b' := b[..|b| - 1];
      MapNamesConcat(a, b', labels);
      assert (a + b)[..|a + b| - 1] == a + b';
    }
  }

  /** `all_names` for the name lists `parts`: each non-empty name once, in the
      order of first occurrence in the concatenated lists. */
  function NamesUnion(parts: seq<seq<string>>): seq<string> {
    Dedup(Filter(Flatten(parts), NonEmpty()))
  }

  /** The nested loop that builds `all_names`. */
  method AllNames(parts: seq<seq<string>>) returns (all: seq<string>)
    ensures all == NamesUnion(parts)
  {
    all := [];
    for i := 0 to |parts|
      invariant all == Dedup(Filter(Flatten(parts[..i]), NonEmpty()))
    {
      ghost var before := Flatten(parts[..i]);
      assert before + parts[i][..0] == before;
      for j := 0 to |parts[i]|
        invariant all == Dedup(Filter(before + parts[i][..j], NonEmpty()))
      {
        var n := parts[i][j];
        SnocPrefix(before, parts[i], j);
        FilterSnoc(before + parts[i][..j], n, NonEmpty());
        DedupSnoc(Filter(before + parts[i][..j], NonEmpty()), n);
        if n != "" && n !in all {
          all := all + [n];
        }
      }
      assert parts[i][..|parts[i]|] == parts[i];
      assert parts[..i + 1][..i] == parts[..i];
    }
    assert parts[..|parts|] == parts;
  }

  /** The union holds each non-empty name of every list exactly once, and
      nothing else; for lists of non-empty names, such as `map_names` returns,
      it is the first-occurrence de-duplication of their concatenation. */
  lemma NamesUnionSpec(parts: seq<seq<string>>)
    ensures Distinct(NamesUnion(parts))
    ensures forall n :: n in NamesUnion(parts) <==> n != "" && exists i :: 0 <= i < |parts| && n in parts[i]
    ensures (forall i, t :: 0 <= i < |parts| && 0 <= t < |parts[i]| ==> parts[i][t] != "") ==>
      NamesUnion(parts) == Dedup(Flatten(parts))
  {
    var flat := Flatten(parts);
    forall n ensures n in NamesUnion(parts) <==> n != "" && exists i :: 0 <= i < |parts| && n in parts[i] {
      FlattenMember(parts, n);
      assert n in NamesUnion(parts) <==> n in Filter(flat, NonEmpty());
    }
    NonEmptyFlatten(parts);
  }

  lemma NonEmptyFlatten(parts: seq<seq<string>>)
    ensures (forall i, t :: 0 <= i < |parts| && 0 <= t < |parts[i]| ==> parts[i][t] != "") ==>
      Filter(Flatten(parts), NonEmpty()) == Flatten(parts)
  {
    var flat := Flatten(parts);
    if forall i, t :: 0 <= i < |parts| && 0 <= t < |parts[i]| ==> parts[i][t] != "" {
      forall k | 0 <= k < |flat| ensures NonEmpty()(flat[k]) {
        FlattenMember(parts, flat[k]);
      }
      FilterAll(flat, NonEmpty());
    }
  }

  /** `per_author_ids.get(author_qid, {})` read list by list: an author the
      query did not return has four empty lists. */
  function AuthorLists(per: map<string, LangIds>, qid: string): LangIds {
    if qid in per then per[qid] else LangIds("", "", "", "")
  }

  /** `map_names(split_dedup(field, ","))`: the names of one list. */
  function NamesOfList(field: string, labels: map<string, string>): seq<string> {
    MapNames(SplitDedupOf(field, Comma), labels)
  }

  /** The name lists of an author's four identifier lists. */
  function ListsNames(v: LangIds, labels: map<string, string>): seq<seq<string>> {
    [NamesOfList(v.spokenWritten, labels), NamesOfList(v.writing, labels),
     NamesOfList(v.native, labels), NamesOfList(v.works, labels)]
  }

  /** The name lists of one author, one per field. */
  function AuthorNames(per: map<string, LangIds>, qid: string, labels: map<string, string>): seq<seq<string>> {
    ListsNames(AuthorLists(per, qid), labels)
  }

  /** The row of an author identifier and its four name lists. */
  function RowOfNames(qid: string, names: seq<seq<string>>): seq<string> {
    var cells := names + [NamesUnion(names)];
    [qid] + seq(|cells|, k requires 0 <= k < |cells| => Join(cells[k], Bar))
  }

  /** The row written for one author. */
  function AuthorRow(qid: string, per: map<string, LangIds>, labels: map<string, string>): seq<string> {
    RowOfNames(qid, AuthorNames(per, qid, labels))
  }

  lemma RowOfFour(qid: string, a: seq<string>, b: seq<string>, c: seq<string>, d: seq<string>)
    ensures RowOfNames(qid, [a, b, c, d]) ==
      [qid, Join(a, Bar), Join(b, Bar), Join(c, Bar), Join(d, Bar), Join(NamesUnion([a, b, c, d]), Bar)]
  {
  }

  /** The body of the `for author_qid in qids` loop. */
  method ComposeRow(qid: string, per: map<string, LangIds>, labels: map<string, string>) returns (row: seq<string>)
    ensures row == AuthorRow(qid, per, labels)
  {
    var v := AuthorLists(per, qid);
    var swNames := NamesOf(v.spokenWritten, labels);
    var wrNames := NamesOf(v.writing, labels);
    var nvNames := NamesOf(v.native, labels);
    var wkNames := NamesOf(v.works, labels);
    var allNames := AllNames([swNames, wrNames, nvNames, wkNames]);
    row := [qid, Join(swNames, Bar), Join(wrNames, Bar), Join(nvNames, Bar), Join(wkNames, Bar),
            Join(allNames, Bar)];
    RowOfFour(qid, swNames, wrNames, nvNames, wkNames);
  }

  /** `split_dedup` of one list, then `map_names`. */
  method NamesOf(field: string, labels: map<string, string>) returns (names: seq<string>)
    ensures names == NamesOfList(field, labels)
  {
    var ids := SplitDedup(field, Comma);
    names := MapNames(ids, labels);
  }

  /** Composing the final CSV: one row per author identifier, in input order. */
  method ComposeRows(qids: seq<string>, per: map<string, LangIds>, labels: map<string, string>)
    returns (rows: seq<seq<string>>)
    ensures |rows| == |qids|
    ensures forall t :: 0 <= t < |qids| ==> rows[t] == AuthorRow(qids[t], per, labels)
  {
    rows := [];
    for t := 0 to |qids|
      invariant |rows| == t
      invariant forall s :: 0 <= s < t ==> rows[s] == AuthorRow(qids[s], per, labels)
    {
      var row := ComposeRow(qids[t], per, labels);
      rows := rows + [row];
    }
  }

  /** Every row has the header's six columns and starts with the author's
      identifier; an author the query did not return gets five empty cells. */
  lemma AuthorRowShape(qid: string, per: map<string, LangIds>, labels: map<string, string>)
    ensures |AuthorRow(qid, per, labels)| == |Headers|
    ensures AuthorRow(qid, per, labels)[0] == qid
    ensures qid !in per ==> AuthorRow(qid, per, labels) == [qid, "", "", "", "", ""]
  {
    var v := AuthorLists(per, qid);
    var a, b, c, d := NamesOfList(v.spokenWritten, labels), NamesOfList(v.writing, labels),
      NamesOfList(v.native, labels), NamesOfList(v.works, labels);
    assert AuthorNames(per, qid, labels) == [a, b, c, d];
    RowOfFour(qid, a, b, c, d);
    if qid !in per {
      SplitDedupOfEmpty(Comma);
      assert a == [] && b == [] && c == [] && d == [];
      EmptyNamesUnion();
    }
  }

  lemma EmptyNamesUnion()
    ensures NamesUnion([[], [], [], []]) == []
  {
    FlattenEmpty<string>([[], [], [], []]);
    assert Filter([], NonEmpty()) == [];
  }

  /** `main`: read the authors, collect their language identifiers, label them
      in whatever order `list` yields, and write one row per author. */
  method Harvest(input: seq<CsvRow>, answerIds: seq<string> -> seq<Binding>, answerLabels: seq<string> -> seq<Binding>)
    returns (rows: seq<seq<string>>)
    ensures |rows| == |NormalisedQids(input)|
    ensures var per := PerAuthorOf(BatchedBindings(NormalisedQids(input), AuthorBatchSize, answerIds));
      exists order: seq<string> ::
        Distinct(order) &&
        (forall x :: x in order <==> exists a :: a in per && x in AuthorLangIds(per[a])) &&
        forall t :: 0 <= t < |rows| ==>
          rows[t] == AuthorRow(NormalisedQids(input)[t], per,
                               LangLabels(BatchedBindings(order, LangBatchSize, answerLabels)))
  {
    var qids := ReadQids(input);
    var per := CollectLanguageIds(qids, answerIds);
    var allLangIds := AllLangIds(per);
    var langIdsList := ListOf(allLangIds);
    var labels := CollectLabels(langIdsList, answerLabels);
    rows := ComposeRows(qids, per, labels);
  }
}
