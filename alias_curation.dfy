/** The MECANO author list of use-case 1 (query-1.py): each CSV line becomes an
    author record (a dict), Wikidata identifiers are attached, the records'
    aliases are filled from Wikidata aliases and labels, a few anonymous authors
    get fixed aliases, every alias list is lower-cased and de-duplicated, and
    targeted aliases are removed from the authors they were confused with. The
    records form one list, and every pass mutates its records in place; an
    exception (KeyError, ValueError) ends the script where it is raised. */
module AliasCuration {
  import opened Values
  import opened Strings
  import opened Seqs
  import opened Records

  // Parsing a CSV line.

  /** `str(cell).strip('"')`. */
  function Unquote(v: Value): (r: string)
    ensures r == [] || (!IsQuote(r[0]) && !IsQuote(r[|r| - 1]))
  {
    StripSpec(Stringify(v), IsQuote);
    Strip(Stringify(v), IsQuote)
  }

  /** `s[s.index('('):s.index(')') + 1]`: from the first `(` through the first
      `)`, empty when that `)` comes first; None when either is missing. */
  function Tags(s: string): (r: Option<string>)
    ensures r.None? <==> '(' !in s || ')' !in s
    ensures r.Some? && FirstIndex(s, '(') < FirstIndex(s, ')') ==>
      (var t := r.value;
       |t| >= 2 && t[0] == '(' && t[|t| - 1] == ')' && ')' !in t[..|t| - 1] &&
       t == s[FirstIndex(s, '(')..FirstIndex(s, ')') + 1])
    ensures r.Some? && FirstIndex(s, ')') < FirstIndex(s, '(') ==> r.value == ""
  {
    if '(' in s && ')' in s then
      var i := FirstIndex(s, '(');
      var j := FirstIndex(s, ')');
      if i <= j then
        assert s[i..j + 1][..j - i] == s[i..j];
        assert ')' !in s[i..j] by {
          forall k | 0 <= k < j - i ensures s[i..j][k] != ')' {
            assert s[i..j][k] == s[..j][i + k];
          }
        }
        Some(s[i..j + 1])
      else Some("")
    else None
  }

  const RecordKeys: set<string> := {"author", "tags", "perseus", "wikipedia", "trimegistos"}

  /** The record the parsing lambda builds. */
  function Record(author: string, tags: string, perseus: string, wikipedia: string, trimegistos: string): (r: Row)
    ensures r.Keys == RecordKeys
    ensures r["author"] == Str(author) && r["tags"] == Str(tags) && r["perseus"] == Str(perseus)
    ensures r["wikipedia"] == Str(wikipedia) && r["trimegistos"] == Str(trimegistos)
  {
    map["author" := Str(author), "tags" := Str(tags), "perseus" := Str(perseus),
        "wikipedia" := Str(wikipedia), "trimegistos" := Str(trimegistos)]
  }

  /** One line of `df_authors.values` as an author record; None when the line
      is too short or its tags cell lacks a bracket. */
  function ParseRow(line: seq<Value>): (r: Option<Row>)
    ensures r.None? <==> |line| < 6 || Tags(Stringify(line[2])).None?
    ensures r.Some? ==>
      r.value == Record(Unquote(line[1]), Tags(Stringify(line[2])).value, Unquote(line[3]),
                        Unquote(line[4]), Unquote(line[5]))
  {
    if |line| < 6 then None
    else
      match Tags(Stringify(line[2]))
      case None => None
      case Some(t) => Some(Record(Unquote(line[1]), t, Unquote(line[3]), Unquote(line[4]), Unquote(line[5])))
  }

  // Wikidata identifiers.

  /** `get_wikidata_id` given the query's answer: the item URIs bound, or None
      for an HTTP error other than 429. Only the first binding is read. */
  function WikidataIdOf(answer: Option<seq<string>>): (r: Option<string>)
    ensures r.None? <==> answer.None? || answer.value == []
    ensures r.Some? ==>
      var u := answer.value[0];
      |r.value| <= |u| && r.value == u[|u| - |r.value|..] &&
      (forall k :: 0 <= k < |r.value| ==> r.value[k] != '/') &&
      (|r.value| < |u| ==> u[|u| - |r.value| - 1] == '/')
  {
    if answer.None? || answer.value == [] then None
    else
      LastSegmentSpec(answer.value[0]);
      Some(LastSegment(answer.value[0]))
  }

  /** Python's None or the identifier, as stored in the record. */
  function IdValue(id: Option<string>): Value {
    if id.Some? then Str(id.value) else Null
  }

  // One pass over the records.

  /** What one pass does to one record: the record as it is left, and whether
      the pass raised on it. */
  datatype StepResult = Done(entry: Row) | Failed(entry: Row)

  /** The records after a pass, and whether the pass ran to its end. */
  datatype Outcome = Outcome(entries: seq<Row>, ok: bool)

  /** The first record on which a pass raises, or the number of records. */
  function FirstFailure(s: seq<Row>, step: Row -> StepResult): (k: nat)
    ensures k <= |s|
    ensures forall i :: 0 <= i < k ==> step(s[i]).Done?
    ensures k < |s| ==> step(s[k]).Failed?
  {
    if s == [] then 0
    else if step(s[0]).Failed? then 0
    else 1 + FirstFailure(s[1..], step)
  }

  /** `for author in authors_dict: <step>`: every record up to the first that
      raises is rewritten (that one as it was left), the rest are untouched. */
  function RunSteps(s: seq<Row>, step: Row -> StepResult): (o: Outcome)
    ensures |o.entries| == |s|
    ensures o.ok <==> forall i :: 0 <= i < |s| ==> step(s[i]).Done?
    ensures forall i :: 0 <= i < |s| && i <= FirstFailure(s, step) ==> o.entries[i] == step(s[i]).entry
    ensures forall i :: 0 <= i < |s| && FirstFailure(s, step) < i ==> o.entries[i] == s[i]
  {
    var k := FirstFailure(s, step);
    Outcome(seq(|s|, i requires 0 <= i < |s| => if i <= k then step(s[i]).entry else s[i]), k == |s|)
  }

  /** The first failure is wherever the records before it all succeed and it
      does not. */
  lemma FirstFailureAt(s: seq<Row>, step: Row -> StepResult, i: nat)
    requires i <= |s| && forall j :: 0 <= j < i ==> step(s[j]).Done?
    requires i < |s| ==> step(s[i]).Failed?
    ensures FirstFailure(s, step) == i
  {
  }

  /** One pass, in place. */
  method ForEachEntry(a: array<Row>, step: Row -> StepResult) returns (ok: bool)
    modifies a
    ensures Outcome(a[..], ok) == RunSteps(old(a[..]), step)
  {
    ghost var s := a[..];
    var i := 0;
    while i < a.Length
      invariant 0 <= i <= a.Length
      invariant forall j :: 0 <= j < i ==> step(s[j]).Done? && a[j] == step(s[j]).entry
      invariant forall j :: i <= j < a.Length ==> a[j] == s[j]
    {
      var r := step(a[i]);
      a[i] := r.entry;
      if r.Failed? {
        FirstFailureAt(s, step, i);
        return false;
      }
      i := i + 1;
    }
    FirstFailureAt(s, step, i);
    return true;
  }

  // The passes.

  /** Lines 45-48: the lookup reads a `trismegistos_id` key. */
  function LookupStep(lookup: string -> Option<seq<string>>): Row -> StepResult {
    (e: Row) =>
      var tid := Cell(e, "trismegistos_id");
      if Truthy(tid) then Done(e["wikidata_id" := IdValue(WikidataIdOf(lookup(Stringify(tid))))])
      else Done(e)
  }

  /** The parsed records store the identifier under `trimegistos`, so the
      lookup pass leaves every one of them as it is. */
  lemma LookupNeverRuns(e: Row, lookup: string -> Option<seq<string>>)
    requires e.Keys == RecordKeys
    ensures LookupStep(lookup)(e) == Done(e)
  {
    assert "trismegistos_id" !in e;
    assert !Truthy(Cell(e, "trismegistos_id"));
  }

  /** `author_entry['author']`, with the KeyError it raises. */
  function AuthorOf(e: Row): Option<Value> {
    if "author" in e then Some(e["author"]) else None
  }

  /** Lines 57-61: two hard-coded identifiers. */
  function OverrideStep(e: Row): (r: StepResult)
    ensures r.Failed? <==> "author" !in e
    ensures r.Failed? ==> r.entry == e
    ensures "author" in e && e["author"] == Str("Poseidippos of Pella") ==> r.entry == e["wikidata_id" := Str("Q1392801")]
    ensures "author" in e && e["author"] == Str("Marcus Manilius") ==> r.entry == e["wikidata_id" := Str("Q352684")]
    ensures "author" in e && e["author"] != Str("Poseidippos of Pella") && e["author"] != Str("Marcus Manilius") ==> r.entry == e
  {
    match AuthorOf(e)
    case None => Failed(e)
    case Some(name) =>
      if name == Str("Poseidippos of Pella") then Done(e["wikidata_id" := Str("Q1392801")])
      else if name == Str("Marcus Manilius") then Done(e["wikidata_id" := Str("Q352684")])
      else Done(e)
  }

  /** Line 64: the records without a Wikidata identifier. */
  function NanEntries(s: seq<Row>): (r: seq<Row>)
    ensures forall e :: e in r <==> e in s && Cell(e, "wikidata_id").Null?
  {
    Filter(s, NoWikidataId())
  }

  function NoWikidataId(): Row -> bool {
    e => Cell(e, "wikidata_id").Null?
  }

  /** Lines 86-89: a record with an identifier gets that item's aliases. */
  function AliasesStep(aliasesOf: string -> seq<string>): Row -> StepResult {
    (e: Row) =>
      var id := Cell(e, "wikidata_id");
      if Truthy(id) then Done(e["aliases" := List(aliasesOf(Stringify(id)))]) else Done(e)
  }

  /** Every record with an identifier then holds exactly the item's aliases. */
  lemma AliasesStepSpec(aliasesOf: string -> seq<string>, e: Row)
    ensures var r := AliasesStep(aliasesOf)(e);
      r.Done? &&
      (Truthy(Cell(e, "wikidata_id")) ==> r.entry == e["aliases" := List(aliasesOf(Stringify(e["wikidata_id"])))]) &&
      (!Truthy(Cell(e, "wikidata_id")) ==> r.entry == e)
  {
  }

  /** Lines 111-117: the item's labels are appended to its aliases. */
  function ItemNameStep(labelsOf: string -> seq<string>): Row -> StepResult {
    (e: Row) =>
      var id := Cell(e, "wikidata_id");
      var names := if Truthy(id) then labelsOf(Stringify(id)) else [];
      if names == [] then Done(e)
      else if Cell(e, "aliases").List? then Done(e["aliases" := List(e["aliases"].items + names)])
      else Failed(e)
  }

  /** After the alias pass, the label pass never raises, and each record with
      an identifier holds its aliases followed by its labels. */
  lemma AliasesThenLabels(aliasesOf: string -> seq<string>, labelsOf: string -> seq<string>, e: Row)
    ensures var e1 := AliasesStep(aliasesOf)(e).entry;
      var r := ItemNameStep(labelsOf)(e1);
      r.Done? &&
      (Truthy(Cell(e, "wikidata_id")) ==>
        var id := Stringify(e["wikidata_id"]);
        r.entry == e["aliases" := List(aliasesOf(id) + labelsOf(id))])
  {
    var e1 := AliasesStep(aliasesOf)(e).entry;
    if Truthy(Cell(e, "wikidata_id")) {
      var id := Stringify(e["wikidata_id"]);
      assert Cell(e1, "wikidata_id") == e["wikidata_id"];
      if labelsOf(id) == [] {
        assert aliasesOf(id) + labelsOf(id) == aliasesOf(id);
      }
    }
  }

  /** Lines 120-130: five authors get fixed aliases. */
  function AnonymousAliases(name: Value): Option<seq<string>> {
    if name == Str("Anonymi of the Hymni Homerici") then Some(["Hymni Homerici"])
    else if name == Str("Anonymi of the Orphica") then Some(["Orphica"])
    else if name == Str("Theophilos of Kaisareia") then Some(["Theophilos of Kaisareia"])
    else if name == Str("Anonymi of the Corpus Hermeticum") then Some(["Corpus Hermeticum"])
    else if name == Str("Anonymi of the Panegyrici Latini") then Some(["Panegyrici Latini"])
    else None
  }

  function AnonymousStep(e: Row): (r: StepResult)
    ensures r.Failed? <==> "author" !in e
    ensures r.Done? && AnonymousAliases(e["author"]).Some? ==>
      r.entry == e["aliases" := List(AnonymousAliases(e["author"]).value)]
    ensures r.Done? && AnonymousAliases(e["author"]).None? ==> r.entry == e
    ensures r.Failed? ==> r.entry == e
  {
    match AuthorOf(e)
    case None => Failed(e)
    case Some(name) =>
      match AnonymousAliases(name)
      case Some(xs) => Done(e["aliases" := List(xs)])
      case None => Done(e)
  }

  /** `list(set(alias.lower() for alias in aliases))`; the order of a set is
      arbitrary, and this model lists first occurrences in order. */
  function LowerAll(xs: seq<string>): (r: seq<string>)
    ensures Distinct(r)
    ensures forall k :: 0 <= k < |r| ==> Lower(r[k]) == r[k]
    ensures forall y :: y in r <==> exists k :: 0 <= k < |xs| && Lower(xs[k]) == y
  {
    var lowered := seq(|xs|, k requires 0 <= k < |xs| => Lower(xs[k]));
    var r := Dedup(lowered);
    forall k | 0 <= k < |r| ensures Lower(r[k]) == r[k] {
      assert r[k] in r;
      var j :| 0 <= j < |xs| && lowered[j] == r[k];
      LowerIdempotent(xs[j]);
    }
    forall y ensures y in r <==> exists k :: 0 <= k < |xs| && Lower(xs[k]) == y {
      if y in r {
        var k :| 0 <= k < |lowered| && lowered[k] == y;
        assert Lower(xs[k]) == y;
      }
      if exists k :: 0 <= k < |xs| && Lower(xs[k]) == y {
        var k :| 0 <= k < |xs| && Lower(xs[k]) == y;
        assert lowered[k] == y;
      }
    }
    r
  }

  /** Lines 133-135: every record's aliases become the distinct lower-cased
      aliases; a record without aliases raises KeyError. */
  function LowercaseStep(e: Row): (r: StepResult)
    ensures r.Failed? <==> !Cell(e, "aliases").List?
    ensures r.Failed? ==> r.entry == e
    ensures r.Done? ==> r.entry == e["aliases" := List(LowerAll(e["aliases"].items))]
  {
    if Cell(e, "aliases").List? then Done(e["aliases" := List(LowerAll(e["aliases"].items))]) else Failed(e)
  }

  /** The aliases are distinct and lower-case, as the lower-casing pass leaves
      them. */
  predicate Curated(e: Row) {
    Cell(e, "aliases").List? &&
    Distinct(e["aliases"].items) &&
    forall k :: 0 <= k < |e["aliases"].items| ==> Lower(e["aliases"].items[k]) == e["aliases"].items[k]
  }

  lemma LowercaseCurates(e: Row)
    requires LowercaseStep(e).Done?
    ensures Curated(LowercaseStep(e).entry)
  {
  }

  /** `list.remove(x)`: drops the first occurrence, ValueError when absent. */
  function Remove(xs: seq<string>, x: string): (r: Option<seq<string>>)
    ensures r.None? <==> x !in xs
    ensures r.Some? ==> |r.value| == |xs| - 1 && multiset(r.value) == multiset(xs) - multiset{x}
  {
    if x in xs then
      var i := FirstIndex(xs, x);
      assert xs == xs[..i] + [x] + xs[i + 1..];
      Some(xs[..i] + xs[i + 1..])
    else None
  }

  /** On distinct aliases, removing one leaves all the others and only them,
      still distinct. */
  lemma RemoveDistinct(xs: seq<string>, x: string)
    requires Distinct(xs) && x in xs
    ensures var r := Remove(xs, x).value;
      Distinct(r) && x !in r && forall y :: y != x ==> (y in r <==> y in xs)
  {
    var i := FirstIndex(xs, x);
    var r := Remove(xs, x).value;
    assert r == xs[..i] + xs[i + 1..];
    RemovedAt(xs, i);
    forall y | y != x ensures y in r <==> y in xs {
      assert y in multiset(r) <==> y in multiset(xs);
    }
  }

  /** Cutting one element out of a list without repetitions leaves a list
      without repetitions that lacks it. */
  lemma RemovedAt(xs: seq<string>, i: nat)
    requires Distinct(xs) && i < |xs|
    ensures var r := xs[..i] + xs[i + 1..];
      Distinct(r) && xs[i] !in r
  {
    var r := xs[..i] + xs[i + 1..];
    assert forall k :: 0 <= k < |r| ==> r[k] == xs[if k < i then k else k + 1];
  }

  /** Removes the listed aliases in turn; the record is left as it was when
      a removal raises. */
  function RemoveAll(e: Row, xs: seq<string>): StepResult
    decreases |xs|
  {
    if xs == [] then Done(e)
    else if Cell(e, "aliases").List? && Remove(e["aliases"].items, xs[0]).Some? then
      RemoveAll(e["aliases" := List(Remove(e["aliases"].items, xs[0]).value)], xs[1..])
    else Failed(e)
  }

  /** Lines 137-164: the named author loses the listed aliases, other records
      are untouched. */
  function ExclusionStep(name: string, xs: seq<string>): Row -> StepResult {
    (e: Row) => if Cell(e, "author") == Str(name) then RemoveAll(e, xs) else Done(e)
  }

  /** A single exclusion removes exactly the named alias from the named
      author, and nothing else changes; it raises when the alias is absent. */
  lemma ExclusionSpec(name: string, x: string, e: Row)
    requires Curated(e)
    ensures var r := ExclusionStep(name, [x])(e);
      (Cell(e, "author") != Str(name) ==> r == Done(e)) &&
      (Cell(e, "author") == Str(name) ==>
        (r.Failed? <==> x !in e["aliases"].items) &&
        (r.Failed? ==> r.entry == e) &&
        (r.Done? ==>
          (r.entry.Keys == e.Keys &&
           (forall c :: c in e && c != "aliases" ==> r.entry[c] == e[c]) &&
           Curated(r.entry) &&
           x !in r.entry["aliases"].items &&
           forall y :: y != x ==> (y in r.entry["aliases"].items <==> y in e["aliases"].items))))
  {
    if Cell(e, "author") == Str(name) && x in e["aliases"].items {
      var xs := e["aliases"].items;
      RemoveDistinct(xs, x);
      var rest := Remove(xs, x).value;
      assert [x][1..] == [];
      assert RemoveAll(e, [x]) == RemoveAll(e["aliases" := List(rest)], []);
      assert ExclusionStep(name, [x])(e) == Done(e["aliases" := List(rest)]);
      forall k | 0 <= k < |rest| ensures Lower(rest[k]) == rest[k] {
        assert rest[k] in xs;
      }
    }
  }

  /** The removals keep every alias list distinct and lower-case, so each
      `remove` takes out the only copy of its alias. */
  lemma {:induction false} RemoveAllKeepsCurated(e: Row, xs: seq<string>)
    requires Curated(e)
    ensures Curated(RemoveAll(e, xs).entry)
    decreases |xs|
  {
    if xs != [] && Remove(e["aliases"].items, xs[0]).Some? {
      var items := e["aliases"].items;
      var rest := Remove(items, xs[0]).value;
      RemoveDistinct(items, xs[0]);
      var e1 := e["aliases" := List(rest)];
      forall k | 0 <= k < |rest| ensures Lower(rest[k]) == rest[k] {
        assert rest[k] in items;
      }
      assert Curated(e1);
      RemoveAllKeepsCurated(e1, xs[1..]);
    }
  }

  /** How many of the aliases to remove are found in turn before the first
      one that is missing (all of them when none is). */
  function FirstMissing(items: seq<string>, xs: seq<string>): (j: nat)
    ensures j <= |xs|
    ensures forall i :: 0 <= i < j ==> xs[i] in items
    ensures j < |xs| ==> xs[j] !in items
  {
    if xs == [] || xs[0] !in items then 0 else 1 + FirstMissing(items, xs[1..])
  }

  /** Removing distinct aliases in turn from a curated record: it raises
      exactly when one of them is missing, and the record is then left with
      the aliases removed before it; otherwise exactly the listed aliases go.
      No other key changes, and the record stays curated. */
  lemma {:induction false} RemoveAllSpec(e: Row, xs: seq<string>)
    requires Curated(e) && Distinct(xs)
    ensures var r := RemoveAll(e, xs);
      var j := FirstMissing(e["aliases"].items, xs);
      (r.Failed? <==> j < |xs|) &&
      r.entry.Keys == e.Keys && (forall c :: c in e && c != "aliases" ==> r.entry[c] == e[c]) &&
      Curated(r.entry) &&
      forall y :: y in r.entry["aliases"].items <==> y in e["aliases"].items && y !in xs[..j]
    decreases |xs|
  {
    var items := e["aliases"].items;
    if xs != [] && xs[0] in items {
      var rest := Remove(items, xs[0]).value;
      var e1 := e["aliases" := List(rest)];
      CuratedAfterRemove(e, xs[0]);
      var tail := xs[1..];
      DistinctTail(xs);
      RemoveAllSpec(e1, tail);
      assert RemoveAll(e, xs) == RemoveAll(e1, tail);
      MissingAfterRemoval(items, rest, xs);
      var r := RemoveAll(e1, tail);
      RemovedInTurn(items, rest, r.entry["aliases"].items, xs, FirstMissing(rest, tail));
    }
  }

  /** Removing a present alias from a curated record keeps it curated, and
      takes out exactly that alias. */
  lemma CuratedAfterRemove(e: Row, x: string)
    requires Curated(e) && x in e["aliases"].items
    ensures var rest := Remove(e["aliases"].items, x).value;
      Curated(e["aliases" := List(rest)]) && x !in rest &&
      forall y :: y != x ==> (y in rest <==> y in e["aliases"].items)
  {
    var items := e["aliases"].items;
    var rest := Remove(items, x).value;
    RemoveDistinct(items, x);
    forall k | 0 <= k < |rest| ensures Lower(rest[k]) == rest[k] {
      assert rest[k] in items;
    }
  }

  lemma DistinctTail(xs: seq<string>)
    requires Distinct(xs) && xs != []
    ensures Distinct(xs[1..]) && xs[0] !in xs[1..]
  {
    var tail := xs[1..];
    forall i, k | 0 <= i < k < |tail| ensures tail[i] != tail[k] {
      assert tail[i] == xs[i + 1] && tail[k] == xs[k + 1];
    }
    forall i | 0 <= i < |tail| ensures tail[i] != xs[0] {
      assert tail[i] == xs[i + 1];
    }
  }

  /** The aliases left after removing the first alias and then the next `n`
      are those not among the first `n + 1`. */
  lemma RemovedInTurn(items: seq<string>, rest: seq<string>, left: seq<string>, xs: seq<string>, n: nat)
    requires xs != [] && n < |xs|
    requires xs[0] !in rest && forall y :: y != xs[0] ==> (y in rest <==> y in items)
    requires forall y :: y in left <==> y in rest && y !in xs[1..][..n]
    ensures forall y :: y in left <==> y in items && y !in xs[..n + 1]
  {
    assert xs[..n + 1] == [xs[0]] + xs[1..][..n];
  }

  /** Once the first alias is removed, the rest are found in turn just as far
      as they were before: no later alias is the first one. */
  lemma MissingAfterRemoval(items: seq<string>, rest: seq<string>, xs: seq<string>)
    requires Distinct(xs) && xs != [] && xs[0] in items
    requires forall y :: y != xs[0] ==> (y in rest <==> y in items)
    ensures FirstMissing(items, xs) == 1 + FirstMissing(rest, xs[1..])
  {
    MissingSame(items, rest, xs[1..], xs[0]);
  }

  lemma {:induction false} MissingSame(items: seq<string>, rest: seq<string>, ys: seq<string>, x: string)
    requires x !in ys
    requires forall y :: y != x ==> (y in rest <==> y in items)
    ensures FirstMissing(rest, ys) == FirstMissing(items, ys)
    decreases |ys|
  {
    if ys != [] {
      assert ys[0] != x;
      MissingSame(items, rest, ys[1..], x);
    }
  }

  /** An exclusion of several distinct aliases (lines 137-141 and 161-164):
      records of other authors are untouched; for the named author it raises
      exactly when one of the aliases is missing, and otherwise removes exactly
      those aliases and changes nothing else. */
  lemma ExclusionsSpec(name: string, xs: seq<string>, e: Row)
    requires Curated(e) && Distinct(xs)
    ensures var r := ExclusionStep(name, xs)(e);
      (Cell(e, "author") != Str(name) ==> r == Done(e)) &&
      (Cell(e, "author") == Str(name) ==>
        (r.Failed? <==> exists j :: 0 <= j < |xs| && xs[j] !in e["aliases"].items) &&
        r.entry.Keys == e.Keys && (forall c :: c in e && c != "aliases" ==> r.entry[c] == e[c]) &&
        Curated(r.entry) &&
        (r.Done? ==> forall y :: y in r.entry["aliases"].items <==> y in e["aliases"].items && y !in xs))
  {
    if Cell(e, "author") == Str(name) {
      RemoveAllSpec(e, xs);
      var j := FirstMissing(e["aliases"].items, xs);
      if j == |xs| {
        assert xs[..j] == xs;
      }
    }
  }

  /** Lines 154-158: Ephraem Graecus keeps one alias, which Ephraem of Syria
      loses. */
  function EphraemStep(e: Row): StepResult {
    var e1 := if Cell(e, "author") == Str("Ephraem Graecus") then e["aliases" := List(["ephraem graecus"])] else e;
    if Cell(e1, "author") == Str("Ephraem of Syria") then RemoveAll(e1, ["ephraem graecus"]) else Done(e1)
  }

  lemma EphraemSpec(e: Row)
    requires Curated(e)
    ensures var r := EphraemStep(e);
      (Cell(e, "author") == Str("Ephraem Graecus") ==> r == Done(e["aliases" := List(["ephraem graecus"])])) &&
      (Cell(e, "author") == Str("Ephraem of Syria") && r.Done? ==> "ephraem graecus" !in r.entry["aliases"].items) &&
      (Cell(e, "author") == Str("Ephraem of Syria") ==> (r.Failed? <==> "ephraem graecus" !in e["aliases"].items))
  {
    if Cell(e, "author") == Str("Ephraem of Syria") {
      ExclusionSpec("Ephraem of Syria", "ephraem graecus", e);
      assert EphraemStep(e) == ExclusionStep("Ephraem of Syria", ["ephraem graecus"])(e);
    }
  }

  // The whole script.

  /** The next pass, when the previous one ran to its end. */
  function Then(o: Outcome, step: Row -> StepResult): Outcome {
    if o.ok then RunSteps(o.entries, step) else o
  }

  /** The script after parsing: every pass in order over the same records,
      stopping at the first exception. */
  function Script(s: seq<Row>, lookup: string -> Option<seq<string>>,
                  aliasesOf: string -> seq<string>, labelsOf: string -> seq<string>): Outcome
  {
    var o0 := RunSteps(s, LookupStep(lookup));
    var o1 := Then(o0, OverrideStep);
    var o2 := Then(o1, AliasesStep(aliasesOf));
    var o3 := Then(o2, ItemNameStep(labelsOf));
    var o4 := Then(o3, AnonymousStep);
    var o5 := Then(o4, LowercaseStep);
    var o6 := Then(o5, ExclusionStep("Augustus", ["césar", "gaius julius caesar"]));
    var o7 := Then(o6, ExclusionStep("Clemens of Alexandria", ["saint clement"]));
    var o8 := Then(o7, ExclusionStep("Seneca rhetor", ["lucius annaeus seneca"]));
    var o9 := Then(o8, EphraemStep);
    Then(o9, ExclusionStep("Iustinus martyr", ["giustino", "justin"]))
  }

  method CurateAuthors(a: array<Row>, lookup: string -> Option<seq<string>>,
                       aliasesOf: string -> seq<string>, labelsOf: string -> seq<string>) returns (ok: bool)
    modifies a
    ensures Outcome(a[..], ok) == Script(old(a[..]), lookup, aliasesOf, labelsOf)
  {
    ok := ForEachEntry(a, LookupStep(lookup));
    if !ok { return; }
    ok := ForEachEntry(a, OverrideStep);
    if !ok { return; }
    ok := ForEachEntry(a, AliasesStep(aliasesOf));
    if !ok { return; }
    ok := ForEachEntry(a, ItemNameStep(labelsOf));
    if !ok { return; }
    ok := ForEachEntry(a, AnonymousStep);
    if !ok { return; }
    ok := ForEachEntry(a, LowercaseStep);
    if !ok { return; }
    ok := ForEachEntry(a, ExclusionStep("Augustus", ["césar", "gaius julius caesar"]));
    if !ok { return; }
    ok := ForEachEntry(a, ExclusionStep("Clemens of Alexandria", ["saint clement"]));
    if !ok { return; }
    ok := ForEachEntry(a, ExclusionStep("Seneca rhetor", ["lucius annaeus seneca"]));
    if !ok { return; }
    ok := ForEachEntry(a, EphraemStep);
    if !ok { return; }
    ok := ForEachEntry(a, ExclusionStep("Iustinus martyr", ["giustino", "justin"]));
  }
}
