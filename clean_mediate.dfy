/** The cleaning of the MEDIATE export (use-case-2, script 01): positional column
    naming, the quarantine of records without a VIAF cluster identifier, the
    extraction of the numeric VIAF identifier from its URL, the removal of
    records whose DD-MM-YYYY birth date is after 500 CE or death date after
    600 CE, and the coercion of the two counts to integers. Every step rewrites
    the whole frame, so each is a function from rows to rows. */
module CleanMediate {
  import opened Values
  import opened Strings
  import opened Seqs
  import opened Records

  /** The names given to the export's columns, after its first (index) column
      is dropped. */
  const RawColumns: seq<string> := [
    "nb_items", "nb_collections", "short_name", "first_names", "surname", "sex",
    "city_of_birth", "date_of_birth", "city_of_death", "date_of_death", "collections",
    "viaf_id", "publisher_cerl", "notes", "bibliography", "normalised_date_of_birth",
    "normalised_date_of_death", "earliest_edition_year", "relations"]

  /** The columns kept for the rest of the pipeline. */
  const KeptColumns: seq<string> := [
    "short_name", "nb_items", "nb_collections", "first_names", "surname",
    "date_of_birth", "date_of_death", "viaf_id"]

  const DobCutoff: nat := 500
  const DodCutoff: nat := 600

  /** A spreadsheet cell as `read_excel(na_values=['None'])` reads it. */
  function ReadCell(v: Value): (r: Value)
    ensures r.Null? <==> v.Null? || v == Str("None")
    ensures !r.Null? ==> r == v
  {
    if v == Str("None") then Null else v
  }

  /** One spreadsheet line: its first cell is the index, the next nineteen are
      named by position, and only the kept columns remain. Renaming fails when
      the line does not have exactly that many cells. */
  function NameColumns(line: seq<Value>): (r: Option<Row>)
    ensures r.Some? <==> |line| == |RawColumns| + 1
    ensures r.Some? ==> forall c :: c in r.value <==> c in KeptColumns
    ensures r.Some? ==> forall k :: 0 <= k < |RawColumns| && RawColumns[k] in KeptColumns ==>
      r.value[RawColumns[k]] == ReadCell(line[k + 1])
  {
    if |line| != |RawColumns| + 1 then None
    else
      Some(map[
        "short_name" := ReadCell(line[3]),
        "nb_items" := ReadCell(line[1]),
        "nb_collections" := ReadCell(line[2]),
        "first_names" := ReadCell(line[4]),
        "surname" := ReadCell(line[5]),
        "date_of_birth" := ReadCell(line[8]),
        "date_of_death" := ReadCell(line[10]),
        "viaf_id" := ReadCell(line[12])])
  }

  /** The whole sheet, or None when renaming fails (pandas frames have one
      width, so this is the width check). */
  function LoadSheet(lines: seq<seq<Value>>): (r: Option<seq<Row>>)
    ensures r.Some? <==> forall i :: 0 <= i < |lines| ==> |lines[i]| == |RawColumns| + 1
    ensures r.Some? ==>
      (|r.value| == |lines| && forall i :: 0 <= i < |lines| ==> Some(r.value[i]) == NameColumns(lines[i]))
  {
    if lines == [] then Some([])
    else
      match LoadSheet(lines[..|lines| - 1])
      case None => None
      case Some(rows) =>
        match NameColumns(lines[|lines| - 1])
        case None => None
        case Some(row) => Some(rows + [row])
  }

  /** `replace('', pd.NA)` on the `viaf_id` column. */
  function BlankViafToNa(r: Row): Row {
    if Cell(r, "viaf_id") == Str("") then r["viaf_id" := Null] else r
  }

  predicate MissingViaf(r: Row) {
    Cell(r, "viaf_id").Null?
  }

  /** The tails `/(\d+)/?$` lets follow the digits: `$` also matches just before a
      final newline. */
  const UrlTails: seq<string> := ["", "/", "\n", "/\n"]

  /** `s` ends with a slash, the digits `d`, then one of the allowed tails. */
  predicate EndsWithId(s: string, d: string, tail: string) {
    |d| + 1 + |tail| <= |s| &&
    s[|s| - |tail|..] == tail &&
    s[|s| - |tail| - |d|..|s| - |tail|] == d &&
    s[|s| - |tail| - |d| - 1] == '/'
  }

  /** The length of the longest run of ASCII digits ending `s`. */
  function TrailingDigits(s: string): (n: nat)
    ensures n <= |s|
    ensures forall k :: |s| - n <= k < |s| ==> IsAsciiDigit(s[k])
    ensures n < |s| ==> !IsAsciiDigit(s[|s| - n - 1])
  {
    if s == [] || !IsAsciiDigit(s[|s| - 1]) then 0
    else TrailingDigits(s[..|s| - 1]) + 1
  }

  /** `s` without its last character when that character is `c`. */
  function DropFinal(s: string, c: char): (r: string)
    ensures s == r + (if |r| < |s| then [c] else [])
  {
    if |s| > 0 && s[|s| - 1] == c then s[..|s| - 1] else s
  }

  /** `re.search(r'/(\d+)/?$', s).group(1)`, or None when there is no match. */
  function ExtractTrailingId(s: string): (r: Option<string>)
    ensures r.Some? ==>
      (|r.value| > 0 && AllDigits(r.value) && exists t :: t in UrlTails && EndsWithId(s, r.value, t))
  {
    var w := DropFinal(DropFinal(s, '\n'), '/');
    var n := TrailingDigits(w);
    if 0 < n < |w| && w[|w| - n - 1] == '/' then
      var t := DroppedTail(s);
      DigitsAfterSlash(w, n, t);
      Some(w[|w| - n..])
    else None
  }

  /** What the optional final newline and slash taken off were. */
  function DroppedTail(s: string): (t: string)
    ensures t in UrlTails && s == DropFinal(DropFinal(s, '\n'), '/') + t
  {
    var u := DropFinal(s, '\n');
    var w := DropFinal(u, '/');
    if |w| < |u| then (if |u| < |s| then "/\n" else "/") else (if |u| < |s| then "\n" else "")
  }

  /** The `n` trailing digits of `w`, after a slash, followed by a tail. */
  lemma DigitsAfterSlash(w: string, n: nat, t: string)
    requires 0 < n < |w| && w[|w| - n - 1] == '/'
    requires forall k :: |w| - n <= k < |w| ==> IsAsciiDigit(w[k])
    ensures AllDigits(w[|w| - n..]) && EndsWithId(w + t, w[|w| - n..], t)
  {
    var s := w + t;
    assert s[|s| - |t|..] == t;
    assert s[|s| - |t| - n..|s| - |t|] == w[|w| - n..];
  }

  lemma {:induction false} TrailingDigitsAfterSlash(p: string, d: string)
    requires AllDigits(d)
    ensures TrailingDigits(p + "/" + d) == |d|
  {
    var s := p + "/" + d;
    if d != [] {
      var d' := d[..|d| - 1];
      TrailingDigitsAfterSlash(p, d');
      assert s[..|s| - 1] == p + "/" + d';
    }
  }

  /** Taking off the optional final newline and slash leaves `…/<digits>`. */
  lemma DropTail(base: string, t: string)
    requires |base| > 0 && base[|base| - 1] != '/' && base[|base| - 1] != '\n'
    requires t in UrlTails
    ensures DropFinal(DropFinal(base + t, '\n'), '/') == base
  {
    var s := base + t;
    if t == "" {
      assert s == base;
    } else if t == "/" {
      assert s[..|s| - 1] == base;
    } else if t == "\n" {
      assert s[..|s| - 1] == base;
    } else {
      assert s[..|s| - 1] == base + ['/'];
      assert (base + ['/'])[..|base|] == base;
    }
  }

  /** Every URL of the shape `…/<digits><tail>` yields exactly its digits: with
      the soundness half in `ExtractTrailingId`'s contract, this pins the
      extraction down. */
  lemma ExtractTrailingIdComplete(p: string, d: string, t: string)
    requires |d| > 0 && AllDigits(d) && t in UrlTails
    ensures ExtractTrailingId(p + "/" + d + t) == Some(d)
  {
    var base := p + "/" + d;
    assert base[|base| - 1] == d[|d| - 1];
    DropTail(base, t);
    TrailingDigitsAfterSlash(p, d);
    assert base[|base| - |d|..] == d;
    assert base[|base| - |d| - 1] == '/';
  }

  /** `.str.extract(r'/(\d+)/?$')` on one cell: text cells give the digits or
      NaN, every other cell gives NaN. */
  function ExtractViaf(v: Value): (r: Value)
    ensures r.Str? ==> v.Str? && ExtractTrailingId(v.s) == Some(r.s)
    ensures r.Null? ==> !v.Str? || ExtractTrailingId(v.s).None?
  {
    if v.Str? then
      match ExtractTrailingId(v.s)
      case Some(d) => Str(d)
      case None => Null
    else Null
  }

  function WithExtractedViaf(r: Row): (out: Row)
    ensures out.Keys == r.Keys + {"viaf_id"}
    ensures out["viaf_id"] == ExtractViaf(Cell(r, "viaf_id"))
    ensures forall c :: c in r && c != "viaf_id" ==> out[c] == r[c]
  {
    r["viaf_id" := ExtractViaf(Cell(r, "viaf_id"))]
  }

  datatype ViafSplit = ViafSplit(kept: seq<Row>, noViaf: seq<Row>)

  /** Quarantines the rows without a VIAF identifier. Only when some were found
      is the identifier then cut out of the remaining URLs; otherwise the rows
      keep their URLs. */
  function DropMissingViaf(rows: seq<Row>): (r: ViafSplit)
    ensures r.noViaf == Filter(rows, MissingViaf)
    ensures |r.kept| + |r.noViaf| == |rows|
    ensures r.noViaf == [] ==> r.kept == rows
    ensures r.noViaf != [] ==>
      (|r.kept| == |Reject(rows, MissingViaf)| &&
       forall i :: 0 <= i < |r.kept| ==> r.kept[i] == WithExtractedViaf(Reject(rows, MissingViaf)[i]))
  {
    var missing := Filter(rows, MissingViaf);
    var present := Reject(rows, MissingViaf);
    FilterPartition(rows, MissingViaf);
    if missing == [] then
      RejectOfNone(rows, MissingViaf);
      ViafSplit(rows, [])
    else
      ViafSplit(seq(|present|, i requires 0 <= i < |present| => WithExtractedViaf(present[i])), missing)
  }

  /** The year of a strict `^(\d{2})-(\d{2})-(\d{4})$` date, or None. */
  function StrictDateYear(s: string): (y: Option<nat>)
    ensures y.Some? ==> y.value < 10000
    ensures y.Some? ==>
      exists dd, mm, yyyy ::
        |dd| == 2 && |mm| == 2 && |yyyy| == 4 &&
        AllDigits(dd) && AllDigits(mm) && AllDigits(yyyy) &&
        (s == DateText(dd, mm, yyyy) || s == DateText(dd, mm, yyyy) + "\n") &&
        y.value == DigitsValue(yyyy)
  {
    if (|s| == 10 || (|s| == 11 && s[10] == '\n')) &&
       AllDigits(s[0..2]) && s[2] == '-' && AllDigits(s[3..5]) && s[5] == '-' &&
       AllDigits(s[6..10])
    then
      DigitsBound(s[6..10]);
      assert s[..10] == DateText(s[0..2], s[3..5], s[6..10]);
      assert s == s[..10] || s == s[..10] + "\n";
      Some(DigitsValue(s[6..10]))
    else None
  }

  lemma {:induction false} DigitsBound(s: string)
    requires AllDigits(s) && |s| <= 4
    ensures DigitsValue(s) < if |s| == 0 then 1 else if |s| == 1 then 10 else if |s| == 2 then 100 else if |s| == 3 then 1000 else 10000
  {
    if s != [] {
      DigitsBound(s[..|s| - 1]);
    }
  }

  /** One side of `check_dob_and_dod`: a text cell in strict DD-MM-YYYY form whose
      year is strictly after the cutoff. */
  predicate AfterCutoff(v: Value, cutoff: nat) {
    v.Str? && match StrictDateYear(v.s)
      case Some(year) => year > cutoff
      case None => false
  }

  /** `check_dob_and_dod`. */
  predicate CheckDobAndDod(r: Row) {
    AfterCutoff(Cell(r, "date_of_birth"), DobCutoff) || AfterCutoff(Cell(r, "date_of_death"), DodCutoff)
  }

  /** The date `dd-mm-yyyy` built from its parts. */
  function DateText(dd: string, mm: string, yyyy: string): string {
    dd + "-" + mm + "-" + yyyy
  }

  /** A strict date is read back to its year: the check is true exactly when the
      year is strictly after the cutoff, so 500 and 600 themselves are kept. */
  lemma DateCutoff(dd: string, mm: string, yyyy: string, cutoff: nat)
    requires |dd| == 2 && |mm| == 2 && |yyyy| == 4
    requires AllDigits(dd) && AllDigits(mm) && AllDigits(yyyy)
    ensures AfterCutoff(Str(DateText(dd, mm, yyyy)), cutoff) <==> DigitsValue(yyyy) > cutoff
  {
    var s := DateText(dd, mm, yyyy);
    assert s[0..2] == dd && s[3..5] == mm && s[6..10] == yyyy;
  }

  /** Non-text cells (NaN) and text in any other format never cause a drop. */
  lemma CheckNeedsStrictText(r: Row)
    requires !Cell(r, "date_of_birth").Str? || StrictDateYear(Cell(r, "date_of_birth").s).None?
    requires !Cell(r, "date_of_death").Str? || StrictDateYear(Cell(r, "date_of_death").s).None?
    ensures !CheckDobAndDod(r)
  {
  }

  /** `where(isnull(), astype(str))` then `.str.strip()` on a date cell. */
  function TrimDate(v: Value): (r: Value)
    ensures v.Null? <==> r.Null?
    ensures r.Str? ==> r.s == Trim(Stringify(v))
  {
    if v.Null? then Null else Str(Trim(Stringify(v)))
  }

  function TrimDates(r: Row): Row {
    r["date_of_birth" := TrimDate(Cell(r, "date_of_birth"))]["date_of_death" := TrimDate(Cell(r, "date_of_death"))]
  }

  datatype DateSplit = DateSplit(kept: seq<Row>, dropped: seq<Row>)

  /** The mask of `check_dob_and_dod` splits the rows: the unmasked rows are
      kept in their order and the masked ones are saved apart. */
  function DropLateAuthors(rows: seq<Row>): (r: DateSplit)
    ensures r.dropped == Filter(rows, CheckDobAndDod)
    ensures r.kept == Reject(rows, CheckDobAndDod)
    ensures forall i :: 0 <= i < |r.kept| ==> !CheckDobAndDod(r.kept[i])
    ensures multiset(r.kept) + multiset(r.dropped) == multiset(rows)
    ensures |r.kept| + |r.dropped| == |rows|
  {
    FilterPartition(rows, CheckDobAndDod);
    DateSplit(Reject(rows, CheckDobAndDod), Filter(rows, CheckDobAndDod))
  }

  /** `pd.to_numeric(errors='coerce').fillna(0).astype(int)` on both counts. */
  function CoerceCounts(r: Row): (out: Row)
    ensures out.Keys == r.Keys + {"nb_items", "nb_collections"}
    ensures out["nb_items"].Int? && out["nb_collections"].Int?
    ensures out["nb_items"] == Int(CoerceCount(Cell(r, "nb_items")))
    ensures out["nb_collections"] == Int(CoerceCount(Cell(r, "nb_collections")))
    ensures forall c :: c in r && c != "nb_items" && c != "nb_collections" ==> out[c] == r[c]
  {
    r["nb_items" := Int(CoerceCount(Cell(r, "nb_items")))]["nb_collections" := Int(CoerceCount(Cell(r, "nb_collections")))]
  }

  /** The three tables the script writes: the cleaned results, the rows without
      a VIAF identifier and the rows dropped for their dates. */
  datatype Cleaned = Cleaned(results: seq<Row>, noViaf: seq<Row>, lateAuthors: seq<Row>)

  /** The whole script on the exported sheet; None when the columns cannot be
      named. */
  function CleanMediateResults(lines: seq<seq<Value>>): (r: Option<Cleaned>)
    ensures r.Some? <==> LoadSheet(lines).Some?
    ensures r.Some? ==> |r.value.results| + |r.value.noViaf| + |r.value.lateAuthors| == |lines|
    ensures r.Some? ==> forall i :: 0 <= i < |r.value.results| ==>
      Cell(r.value.results[i], "nb_items").Int? && Cell(r.value.results[i], "nb_collections").Int?
    ensures r.Some? ==> forall i :: 0 <= i < |r.value.noViaf| ==> MissingViaf(r.value.noViaf[i])
  {
    match LoadSheet(lines)
    case None => None
    case Some(rows) =>
      var split := DropMissingViaf(MapRows(rows, BlankViafToNa));
      var dated := DropLateAuthors(MapRows(split.kept, TrimDates));
      Some(Cleaned(MapRows(dated.kept, CoerceCounts), split.noViaf, dated.dropped))
  }
}
