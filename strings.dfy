/** Python's `str` operations the scripts rely on: `strip`, `rstrip`, `split`,
    `join`, `startswith`, `lower` and the last path segment of a URI. */
module Strings {
  import opened Values

  /** `str.isspace()` for one character: Python's whitespace set. */
  predicate IsSpace(c: char) {
    var n := c as int;
    (9 <= n <= 13) || (28 <= n <= 32) || n == 0x85 || n == 0xA0 || n == 0x1680 ||
    (0x2000 <= n <= 0x200A) || n == 0x2028 || n == 0x2029 || n == 0x202F ||
    n == 0x205F || n == 0x3000
  }

  predicate IsSlash(c: char) {
    c == '/'
  }

  predicate IsQuote(c: char) {
    c == '"'
  }

  predicate AllAre(s: string, drop: char -> bool) {
    forall k :: 0 <= k < |s| ==> drop(s[k])
  }

  /** `s.lstrip(chars)`: drops the longest prefix made of dropped characters. */
  function LStrip(s: string, drop: char -> bool): string {
    if |s| > 0 && drop(s[0]) then LStrip(s[1..], drop) else s
  }

  /** `s.rstrip(chars)`: drops the longest suffix made of dropped characters. */
  function RStrip(s: string, drop: char -> bool): string {
    if |s| > 0 && drop(s[|s| - 1]) then RStrip(s[..|s| - 1], drop) else s
  }

  /** What `lstrip` leaves is a suffix, what it drops are dropped characters,
      and it stops at the first character that is kept. */
  lemma {:induction false} LStripSpec(s: string, drop: char -> bool)
    ensures var r := LStrip(s, drop);
      |r| <= |s| && r == s[|s| - |r|..] && AllAre(s[..|s| - |r|], drop) && (r == [] || !drop(r[0]))
  {
    if |s| > 0 && drop(s[0]) {
      LStripSpec(s[1..], drop);
      var r := LStrip(s[1..], drop);
      assert s[1..][..|s| - 1 - |r|] == s[1..|s| - |r|];
    }
  }

  /** What `rstrip` leaves is a prefix, what it drops are dropped characters,
      and it stops at the last character that is kept. */
  lemma {:induction false} RStripSpec(s: string, drop: char -> bool)
    ensures var r := RStrip(s, drop);
      |r| <= |s| && r == s[..|r|] && AllAre(s[|r|..], drop) && (r == [] || !drop(r[|r| - 1]))
  {
    if |s| > 0 && drop(s[|s| - 1]) {
      RStripSpec(s[..|s| - 1], drop);
      var r := RStrip(s[..|s| - 1], drop);
      assert s[|r|..] == s[..|s| - 1][|r|..] + [s[|s| - 1]];
    }
  }

  /** `s.strip(chars)`. */
  function Strip(s: string, drop: char -> bool): string {
    RStrip(LStrip(s, drop), drop)
  }

  /** `s.strip()`. */
  function Trim(s: string): string {
    Strip(s, IsSpace)
  }

  /** Stripping removes exactly a dropped prefix and a dropped suffix. */
  lemma StripSpec(s: string, drop: char -> bool)
    ensures exists a, b ::
      (0 <= a <= b <= |s| && Strip(s, drop) == s[a..b] &&
       AllAre(s[..a], drop) && AllAre(s[b..], drop))
    ensures var r := Strip(s, drop); r == [] || (!drop(r[0]) && !drop(r[|r| - 1]))
  {
    var l := LStrip(s, drop);
    var r := RStrip(l, drop);
    LStripSpec(s, drop);
    RStripSpec(l, drop);
    var a := |s| - |l|;
    var b := a + |r|;
    assert r == s[a..b];
    assert s[b..] == l[|r|..];
  }

  lemma {:induction false} StripIdempotent(s: string, drop: char -> bool)
    ensures Strip(Strip(s, drop), drop) == Strip(s, drop)
  {
    var r := Strip(s, drop);
    StripSpec(s, drop);
    if r != [] {
      assert LStrip(r, drop) == r;
      assert RStrip(r, drop) == r;
    }
  }

  /** Text that neither starts nor ends with a dropped character is left as it is. */
  lemma StripUnpadded(s: string, drop: char -> bool)
    requires s != [] && !drop(s[0]) && !drop(s[|s| - 1])
    ensures Strip(s, drop) == s
  {
    assert LStrip(s, drop) == s;
    assert RStrip(s, drop) == s;
  }

  predicate StartsWith(s: string, prefix: string) {
    |prefix| <= |s| && s[..|prefix|] == prefix
  }

  predicate OccursAt(s: string, sep: string, i: nat) {
    i + |sep| <= |s| && s[i..i + |sep|] == sep
  }

  /** `s.find(sep)`: the first position where `sep` occurs. */
  function Find(s: string, sep: string): (r: Option<nat>)
    ensures r.Some? ==>
      (OccursAt(s, sep, r.value) && forall j :: 0 <= j < r.value ==> !OccursAt(s, sep, j))
    ensures r.None? ==> forall j :: 0 <= j <= |s| ==> !OccursAt(s, sep, j)
  {
    if |s| < |sep| then None
    else if s[..|sep|] == sep then Some(0)
    else
      match Find(s[1..], sep)
      case None =>
        assert forall j :: 1 <= j <= |s| ==> (OccursAt(s, sep, j) <==> OccursAt(s[1..], sep, j - 1));
        None
      case Some(i) =>
        assert forall j :: 1 <= j <= |s| ==> (OccursAt(s, sep, j) <==> OccursAt(s[1..], sep, j - 1));
        Some(i + 1)
  }

  /** `s.split(sep)` for a non-empty separator. */
  function Split(s: string, sep: string): (parts: seq<string>)
    requires |sep| > 0
    ensures |parts| >= 1
    decreases |s|
  {
    match Find(s, sep)
    case None => [s]
    case Some(i) => [s[..i]] + Split(s[i + |sep|..], sep)
  }

  /** `sep.join(parts)`. */
  function Join(parts: seq<string>, sep: string): string {
    if parts == [] then ""
    else if |parts| == 1 then parts[0]
    else parts[0] + sep + Join(parts[1..], sep)
  }

  predicate Contains(s: string, sep: string) {
    exists j :: 0 <= j <= |s| && OccursAt(s, sep, j)
  }

  /** Splitting and joining again gives back the text. */
  lemma {:induction false} JoinSplit(s: string, sep: string)
    requires |sep| > 0
    ensures Join(Split(s, sep), sep) == s
    decreases |s|
  {
    match Find(s, sep)
    case None =>
    case Some(i) =>
      var rest := s[i + |sep|..];
      var tail := Split(rest, sep);
      JoinSplit(rest, sep);
      assert Split(s, sep) == [s[..i]] + tail;
      assert ([s[..i]] + tail)[1..] == tail;
      assert Join(Split(s, sep), sep) == s[..i] + sep + Join(tail, sep);
      assert s[i..i + |sep|] == sep;
      assert s == s[..i] + s[i..i + |sep|] + rest;
  }

  /** No part of a split holds the separator. */
  lemma {:induction false} SplitPartsFree(s: string, sep: string)
    requires |sep| > 0
    ensures forall k :: 0 <= k < |Split(s, sep)| ==> !Contains(Split(s, sep)[k], sep)
    decreases |s|
  {
    match Find(s, sep)
    case None =>
      assert Split(s, sep) == [s];
    case Some(i) =>
      var rest := s[i + |sep|..];
      SplitPartsFree(rest, sep);
      var head := s[..i];
      forall j | 0 <= j <= |head| && OccursAt(head, sep, j)
        ensures false
      {
        assert head[j..j + |sep|] == s[j..j + |sep|];
        assert OccursAt(s, sep, j);
      }
      assert Split(s, sep) == [head] + Split(rest, sep);
  }

  /** `s.split('/')[-1]`, which is also `s.rsplit('/', 1)[-1]`: the text after
      the last slash (Wikidata item URIs end in the Q-identifier). */
  function LastSegment(s: string): string {
    var parts := Split(s, "/");
    parts[|parts| - 1]
  }

  /** The last segment is the slash-free suffix that follows the last slash
      (or the whole text when there is none). */
  lemma {:induction false} LastSegmentSpec(s: string)
    ensures var r := LastSegment(s);
      |r| <= |s| && r == s[|s| - |r|..] &&
      (forall k :: 0 <= k < |r| ==> r[k] != '/') &&
      (|r| < |s| ==> s[|s| - |r| - 1] == '/')
    decreases |s|
  {
    var sep := "/";
    match Find(s, sep)
    case None =>
      assert Split(s, sep) == [s];
      forall k | 0 <= k < |s| ensures s[k] != '/' {
        assert !OccursAt(s, sep, k);
        assert s[k..k + 1] == [s[k]];
      }
    case Some(i) =>
      var rest := s[i + 1..];
      LastSegmentSpec(rest);
      assert LastSegment(s) == LastSegment(rest);
      var r := LastSegment(rest);
      assert rest[|rest| - |r|..] == s[|s| - |r|..];
      if |r| == |rest| {
        assert s[i..i + 1] == "/";
        assert s[|s| - |r| - 1] == s[i];
      } else {
        assert s[|s| - |r| - 1] == rest[|rest| - |r| - 1];
      }
  }

  /** A text without a slash is its own last segment: a bare Q-identifier
      passes through unchanged. */
  lemma LastSegmentOfPlain(s: string)
    requires forall k :: 0 <= k < |s| ==> s[k] != '/'
    ensures LastSegment(s) == s
  {
    LastSegmentSpec(s);
  }

  /** The capitals `lower` maps: ASCII `A`-`Z` and the Latin-1 capitals
      U+00C0-U+00DE other than the multiplication sign. */
  predicate IsCapital(c: char) {
    'A' <= c <= 'Z' || ('\U{C0}' <= c <= '\U{DE}' && c != '\U{D7}')
  }

  /** `c.lower()` for ASCII and Latin-1 capitals. */
  function LowerChar(c: char): char {
    if IsCapital(c) then (c as int + 32) as char else c
  }

  /** `s.lower()`: no capital is left, each capital becomes the letter 32
      code points above it, and every other character is kept. */
  function Lower(s: string): (r: string)
    ensures |r| == |s| && forall k :: 0 <= k < |s| ==> r[k] == LowerChar(s[k])
    ensures forall k :: 0 <= k < |r| ==> !IsCapital(r[k])
    ensures forall k :: 0 <= k < |s| && IsCapital(s[k]) ==> r[k] as int == s[k] as int + 32
    ensures forall k :: 0 <= k < |s| && !IsCapital(s[k]) ==> r[k] == s[k]
  {
    seq(|s|, k requires 0 <= k < |s| => LowerChar(s[k]))
  }

  lemma LowerIdempotent(s: string)
    ensures Lower(Lower(s)) == Lower(s)
  {
    assert forall k :: 0 <= k < |s| ==> LowerChar(LowerChar(s[k])) == LowerChar(s[k]);
  }
}
