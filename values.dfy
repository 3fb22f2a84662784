/** Cell values as the reconciliation scripts see them: a pandas cell read from a
    CSV or XLSX file, a field of a `csv.DictReader` row, or a JSON scalar. */
module Values {

  datatype Option<+T> = None | Some(value: T)

  /** `Null` is pandas' NaN (or Python's None, or JSON null). `List` is a Python
      list of strings held in a cell (the alias and language columns), and
      `Dumped(v)` is the text that `json.dumps` produced from `v`; the encoding is
      treated as opaque and lossless. */
  datatype Value =
    | Null
    | Str(s: string)
    | Int(i: int)
    | Bool(b: bool)
    | List(items: seq<string>)
    | Dumped(of: Value)

  /** Python truthiness, as used by `if v:` and `if not v:`. */
  predicate Truthy(v: Value) {
    match v
    case Null => false
    case Str(s) => s != ""
    case Int(i) => i != 0
    case Bool(b) => b
    case List(xs) => xs != []
    case Dumped(_) => true
  }

  /** A cell pandas treats as absent (`isna()`): only NaN/None. */
  predicate IsNa(v: Value) {
    v.Null?
  }

  function Digit(d: nat): char
    requires d < 10
  {
    "0123456789"[d]
  }

  /** `str(n)` for a natural number. */
  function NatToDecimal(n: nat): (r: string)
    ensures |r| > 0
    ensures AllDigits(r)
  {
    if n < 10 then [Digit(n)] else NatToDecimal(n / 10) + [Digit(n % 10)]
  }

  /** `str(i)` for an integer. */
  function IntToDecimal(i: int): string {
    if i < 0 then "-" + NatToDecimal(-i) else NatToDecimal(i)
  }

  function JoinQuoted(xs: seq<string>): string {
    if xs == [] then ""
    else if |xs| == 1 then "'" + xs[0] + "'"
    else "'" + xs[0] + "', " + JoinQuoted(xs[1..])
  }

  /** `str(v)`, which is also what pandas' `astype(str)` gives a cell: NaN
      becomes the text "nan". Lists are printed without escaping. */
  function Stringify(v: Value): string {
    match v
    case Null => "nan"
    case Str(s) => s
    case Int(i) => IntToDecimal(i)
    case Bool(b) => if b then "True" else "False"
    case List(xs) => "[" + JoinQuoted(xs) + "]"
    case Dumped(inner) => "<json>"
  }

  /** The string a value stands for after a pandas `.str` operation: strings
      stay, every other cell becomes NaN. */
  function AsText(v: Value): Option<string> {
    if v.Str? then Some(v.s) else None
  }

  /** `json.dumps`, kept symbolic. */
  function JsonDumps(v: Value): (r: Value)
    ensures Truthy(r)
  {
    Dumped(v)
  }

  /** `json.loads` of a cell `json.dumps` wrote; any other cell is left alone. */
  function JsonLoads(v: Value): Value {
    if v.Dumped? then v.of else v
  }

  lemma LoadsDumps(v: Value)
    ensures JsonLoads(JsonDumps(v)) == v
  {
  }

  predicate IsAsciiDigit(c: char) {
    '0' <= c <= '9'
  }

  predicate AllDigits(s: string) {
    forall k :: 0 <= k < |s| ==> IsAsciiDigit(s[k])
  }

  /** The integer text `pd.to_numeric` accepts: an optional sign then digits. */
  predicate IsIntegerText(s: string) {
    |s| > 0 &&
    if s[0] == '-' || s[0] == '+' then |s| > 1 && AllDigits(s[1..]) else AllDigits(s)
  }

  function DigitValue(c: char): nat
    requires IsAsciiDigit(c)
  {
    c as int - '0' as int
  }

  /** `int(s)` for a string of decimal digits. */
  function DigitsValue(s: string): nat
    requires AllDigits(s)
  {
    if s == [] then 0 else 10 * DigitsValue(s[..|s| - 1]) + DigitValue(s[|s| - 1])
  }

  function IntegerTextValue(s: string): int
    requires IsIntegerText(s)
  {
    if s[0] == '-' then -(DigitsValue(s[1..]) as int)
    else if s[0] == '+' then DigitsValue(s[1..])
    else DigitsValue(s)
  }

  /** `pd.to_numeric(errors='coerce').fillna(0).astype(int)` on one cell: numbers
      stay, integer text is parsed, and everything else (NaN, other text) is 0. */
  function CoerceCount(v: Value): (n: int)
    ensures v.Int? ==> n == v.i
    ensures v.Str? && IsIntegerText(v.s) ==> n == IntegerTextValue(v.s)
    ensures v.Str? && !IsIntegerText(v.s) ==> n == 0
    ensures v.Null? ==> n == 0
  {
    match v
    case Int(i) => i
    case Bool(b) => if b then 1 else 0
    case Str(s) => if IsIntegerText(s) then IntegerTextValue(s) else 0
    case _ => 0
  }

  lemma {:induction false} DecimalRoundTrip(n: nat)
    ensures DigitsValue(NatToDecimal(n)) == n
  {
    var r := NatToDecimal(n);
    if n >= 10 {
      DecimalRoundTrip(n / 10);
      assert r[..|r| - 1] == NatToDecimal(n / 10);
    }
  }

  /** Counting a decimal rendering gives back the number: `int(str(n)) == n`. */
  lemma CoerceDecimal(n: nat)
    ensures CoerceCount(Str(NatToDecimal(n))) == n
  {
    var s := NatToDecimal(n);
    assert IsIntegerText(s);
    DecimalRoundTrip(n);
  }

  /** A sign in front of the digits is honoured: `int("-" + str(n)) == -n` and
      `int("+" + str(n)) == n`. */
  lemma CoerceSignedDecimal(n: nat)
    ensures CoerceCount(Str("-" + NatToDecimal(n))) == -(n as int)
    ensures CoerceCount(Str("+" + NatToDecimal(n))) == n
  {
    var s := NatToDecimal(n);
    assert ("-" + s)[1..] == s && ("+" + s)[1..] == s;
    DecimalRoundTrip(n);
  }
}
