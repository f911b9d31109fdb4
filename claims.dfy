/**
 * Claim extraction: `extractNumberFromText` and the JavaScript built-ins it
 * and the resolver rely on (`String.prototype.trim`, `parseInt`,
 * `Number.prototype.toString`, `String.prototype.padStart`).
 *
 * The regular expression `/\b\d{1,2}\b/` is modelled by a hand-written scan
 * with JavaScript's meaning of its parts (no `u` or `i` flag): `\d` is
 * `[0-9]`, a word character is `[A-Za-z0-9_]`, `\b` holds where word-ness
 * changes, and the positions before the first and after the last character
 * count as non-word.  `String.prototype.match` without the `g` flag returns
 * the leftmost match; at one position the greedy `{1,2}` tries two digits
 * before one.
 */
module Claims {
  import opened Wrappers

  // ---------------------------------------------------------------------
  // Character classes

  predicate IsDigit(c: char) { '0' <= c <= '9' }

  /** `\w` without the `u` or `i` flag. */
  predicate IsWordChar(c: char) {
    ('A' <= c <= 'Z') || ('a' <= c <= 'z') || IsDigit(c) || c == '_'
  }

  /** WhiteSpace and LineTerminator code points, as `trim` removes them. */
  predicate IsJsSpace(c: char) {
    var u := c as int;
    u == 0x09 || u == 0x0A || u == 0x0B || u == 0x0C || u == 0x0D
    || u == 0x20 || u == 0xA0 || u == 0x1680 || (0x2000 <= u <= 0x200A)
    || u == 0x2028 || u == 0x2029 || u == 0x202F || u == 0x205F
    || u == 0x3000 || u == 0xFEFF
  }

  predicate IsTwoDigits(s: string) {
    |s| == 2 && IsDigit(s[0]) && IsDigit(s[1])
  }

  // ---------------------------------------------------------------------
  // String.prototype.trim

  predicate AllSpaces(s: string, lo: int, hi: int)
    requires 0 <= lo <= hi <= |s|
  {
    forall i :: lo <= i < hi ==> IsJsSpace(s[i])
  }

  /** The number of white-space characters at the start of s. */
  function LeadingSpaces(s: string): (n: nat)
    ensures n <= |s| && AllSpaces(s, 0, n)
    ensures n == |s| || !IsJsSpace(s[n])
  {
    if s != [] && IsJsSpace(s[0]) then
      var n := 1 + LeadingSpaces(s[1..]);
      assert forall i :: 1 <= i < n ==> s[i] == s[1..][i - 1];
      n
    else 0
  }

  /** Where the white space at the end of s begins. */
  function TrailingSpacesStart(s: string): (m: nat)
    ensures m <= |s| && AllSpaces(s, m, |s|)
    ensures m == 0 || !IsJsSpace(s[m - 1])
  {
    if s != [] && IsJsSpace(s[|s| - 1]) then
      var m := TrailingSpacesStart(s[..|s| - 1]);
      assert forall i :: m <= i < |s| - 1 ==> s[i] == s[..|s| - 1][i];
      m
    else |s|
  }

  /** `text.trim()`: the text without leading and trailing white space. */
  function Trim(s: string): (r: string)
    ensures r == [] || (!IsJsSpace(r[0]) && !IsJsSpace(r[|r| - 1]))
  {
    var a := LeadingSpaces(s);
    var b := TrailingSpacesStart(s);
    if b <= a then [] else s[a..b]
  }

  /** What `trim` keeps is one slice of the text, and only white space is cut
      off on either side of it; a text that is all white space trims to "". */
  lemma TrimIsInnerSlice(s: string)
    ensures exists a, b :: 0 <= a <= b <= |s| && Trim(s) == s[a..b]
                         && AllSpaces(s, 0, a) && AllSpaces(s, b, |s|)
    ensures Trim(s) == [] <==> AllSpaces(s, 0, |s|)
  {
    var a := LeadingSpaces(s);
    var b := TrailingSpacesStart(s);
    if b <= a {
      assert AllSpaces(s, 0, |s|);
      assert Trim(s) == s[a..a];
    } else {
      assert AllSpaces(s, 0, a) && AllSpaces(s, b, |s|);
      assert !IsJsSpace(s[a]);
    }
  }

  /** Trimming twice is trimming once. */
  lemma TrimIdempotent(s: string)
    ensures Trim(Trim(s)) == Trim(s)
  {
    var r := Trim(s);
    if r != [] {
      assert LeadingSpaces(r) == 0;
      assert TrailingSpacesStart(r) == |r|;
      assert r[0..|r|] == r;
    }
  }

  // ---------------------------------------------------------------------
  // parseInt, Number.prototype.toString, String.prototype.padStart

  function DigitValue(c: char): nat
    requires IsDigit(c)
  {
    c as int - '0' as int
  }

  function DigitChar(d: nat): (c: char)
    requires d < 10
    ensures IsDigit(c) && DigitValue(c) == d
  {
    ('0' as int + d) as char
  }

  /** `parseInt` of a string of decimal digits. */
  function DecimalValue(ds: string): nat
    requires forall i :: 0 <= i < |ds| ==> IsDigit(ds[i])
  {
    if ds == [] then 0
    else 10 * DecimalValue(ds[..|ds| - 1]) + DigitValue(ds[|ds| - 1])
  }

  /** `n.toString()` for a non-negative integer: decimal, no leading zero. */
  function ToDecimal(n: nat): (r: string)
    ensures |r| >= 1 && forall i :: 0 <= i < |r| ==> IsDigit(r[i])
  {
    if n < 10 then [DigitChar(n)] else ToDecimal(n / 10) + [DigitChar(n % 10)]
  }

  /** `s.padStart(width, fill)` with a one-character filler. */
  function PadStart(s: string, width: nat, fill: char): (r: string)
    ensures |r| == if |s| < width then width else |s|
    ensures r[|r| - |s|..] == s
    ensures forall i :: 0 <= i < |r| - |s| ==> r[i] == fill
  {
    if |s| >= width then s else seq(width - |s|, _ => fill) + s
  }

  /** `n.toString().padStart(2, '0')`, the label of number n in the table. */
  function TwoDigitLabel(n: nat): string
  {
    PadStart(ToDecimal(n), 2, '0')
  }

  /** Every number 00-99 gets a two-digit label that reads back as itself. */
  lemma LabelRoundTrip(n: nat)
    requires n < 100
    ensures IsTwoDigits(TwoDigitLabel(n)) && DecimalValue(TwoDigitLabel(n)) == n
  {
    var s := TwoDigitLabel(n);
    if n < 10 {
      assert ToDecimal(n) == [DigitChar(n)];
      assert s == ['0', DigitChar(n)];
      assert s[..1] == ['0'];
      assert s[..1][..0] == [];
      assert DecimalValue(s[..1]) == 0;
    } else {
      assert ToDecimal(n / 10) == [DigitChar(n / 10)];
      assert s == [DigitChar(n / 10), DigitChar(n % 10)];
      assert s[..1] == [DigitChar(n / 10)];
      assert s[..1][..0] == [];
      assert DecimalValue(s[..1]) == n / 10;
      assert DecimalValue(s) == 10 * (n / 10) + n % 10;
    }
  }

  /** A two-digit string is the label of the number it spells. */
  lemma LabelOfValue(s: string)
    requires IsTwoDigits(s)
    ensures DecimalValue(s) < 100 && TwoDigitLabel(DecimalValue(s)) == s
  {
    assert s[..1][..0] == [] && s[..1][0] == s[0];
    assert DecimalValue(s[..1]) == DigitValue(s[0]);
    var n := DecimalValue(s);
    assert n == 10 * DigitValue(s[0]) + DigitValue(s[1]);
    if n < 10 {
      assert DigitValue(s[0]) == 0;
      assert TwoDigitLabel(n) == ['0', DigitChar(n)];
    } else {
      assert n / 10 == DigitValue(s[0]) && n % 10 == DigitValue(s[1]);
      assert ToDecimal(n / 10) == [DigitChar(n / 10)];
      assert TwoDigitLabel(n) == [DigitChar(n / 10), DigitChar(n % 10)];
    }
  }

  /** Distinct numbers 00-99 have distinct labels. */
  lemma LabelInjective(m: nat, n: nat)
    requires m < 100 && n < 100 && TwoDigitLabel(m) == TwoDigitLabel(n)
    ensures m == n
  {
    LabelRoundTrip(m);
    LabelRoundTrip(n);
  }

  // ---------------------------------------------------------------------
  // The pattern \b\d{1,2}\b

  predicate WordAt(s: string, i: int) {
    0 <= i < |s| && IsWordChar(s[i])
  }

  /** `\b` at position i, between s[i-1] and s[i]. */
  predicate BoundaryAt(s: string, i: int) {
    WordAt(s, i - 1) != WordAt(s, i)
  }

  /** A standalone run: one or two digits with no word character directly
      before or after them. */
  predicate StandaloneRun(s: string, i: int, len: int) {
    && (len == 1 || len == 2)
    && 0 <= i && i + len <= |s|
    && (forall k :: i <= k < i + len ==> IsDigit(s[k]))
    && (i == 0 || !IsWordChar(s[i - 1]))
    && (i + len == |s| || !IsWordChar(s[i + len]))
  }

  /** The length of the match of `\b\d{1,2}\b` that starts at position i, if
      any: the greedy quantifier tries two digits, then backtracks to one. */
  function MatchLength(s: string, i: nat): (r: Option<nat>)
    ensures forall len :: r == Some(len) <==> StandaloneRun(s, i, len)
  {
    if !BoundaryAt(s, i) then None
    else if i + 2 <= |s| && IsDigit(s[i]) && IsDigit(s[i + 1]) && BoundaryAt(s, i + 2) then Some(2)
    else if i + 1 <= |s| && IsDigit(s[i]) && BoundaryAt(s, i + 1) then Some(1)
    else None
  }

  /** The leftmost position at or after `from` where the pattern matches. */
  function FirstMatch(s: string, from: nat): (r: Option<nat>)
    ensures r.Some? ==> from <= r.value <= |s| && MatchLength(s, r.value).Some?
    ensures forall k :: from <= k && (r.None? || k < r.value) ==> MatchLength(s, k).None?
    decreases |s| + 1 - from
  {
    if from > |s| then None
    else if MatchLength(s, from).Some? then Some(from)
    else FirstMatch(s, from + 1)
  }

  /** A run of at most two digits is worth at most 99. */
  lemma ShortRunBelowHundred(ds: string)
    requires 1 <= |ds| <= 2 && forall i :: 0 <= i < |ds| ==> IsDigit(ds[i])
    ensures DecimalValue(ds) < 100
  {
    if |ds| == 2 {
      assert ds[..1][..0] == [] && ds[..1][0] == ds[0];
      assert DecimalValue(ds[..1]) == DigitValue(ds[0]);
    } else {
      assert ds[..0] == [];
    }
  }

  /** extractNumberFromText: the first standalone run of one or two digits,
      parsed and zero-padded to two characters, or `null`. */
  function ExtractNumber(text: string): (r: Option<string>)
    ensures r.Some? <==> FirstMatch(text, 0).Some?
    ensures r.Some? ==> IsTwoDigits(r.value) && DecimalValue(r.value) <= 99
  {
    match FirstMatch(text, 0)
    case None => None
    case Some(i) =>
      var run := text[i .. i + MatchLength(text, i).value];
      var num := DecimalValue(run);
      assert num < 100 by { ShortRunBelowHundred(run); }
      if num < 0 || num > 99 then None
      else
        LabelRoundTrip(num);
        Some(TwoDigitLabel(num))
  }

  /** The claim found is the first standalone run, zero-padded: a two-digit
      run is returned as it is, a one-digit run gets a leading '0'. */
  lemma ExtractFirstRun(text: string, i: nat, len: nat)
    requires StandaloneRun(text, i, len)
    requires forall j, l :: 0 <= j < i ==> !StandaloneRun(text, j, l)
    ensures ExtractNumber(text) == Some(if len == 2 then text[i..i + 2] else ['0', text[i]])
  {
    assert MatchLength(text, i) == Some(len);
    var f := FirstMatch(text, 0);
    assert f.Some? && f.value <= i;
    var l := MatchLength(text, f.value).value;
    assert StandaloneRun(text, f.value, l);
    assert f.value == i;
    var run := text[i .. i + len];
    if len == 2 {
      LabelOfValue(run);
    } else {
      assert run[..0] == [];
      assert DecimalValue(run) == DigitValue(text[i]);
      assert TwoDigitLabel(DecimalValue(run)) == ['0', DigitChar(DigitValue(text[i]))];
    }
  }

  /** There is a claim exactly when the text holds a standalone run. */
  lemma ExtractSomeIff(text: string)
    ensures ExtractNumber(text).Some? <==> exists i, len :: StandaloneRun(text, i, len)
  {
    var f := FirstMatch(text, 0);
    if f.Some? {
      var l := MatchLength(text, f.value).value;
      assert StandaloneRun(text, f.value, l);
      assert ExtractNumber(text).Some?;
    } else {
      assert forall i, len :: StandaloneRun(text, i, len) ==> MatchLength(text, i).Some?;
    }
  }

  /** A digit inside a run of three or more digits is never part of a claim. */
  lemma LongRunNeverMatches(s: string, j: nat, k: int)
    requires j + 3 <= |s| && IsDigit(s[j]) && IsDigit(s[j + 1]) && IsDigit(s[j + 2])
    requires j <= k < j + 3
    ensures forall i, len :: StandaloneRun(s, i, len) ==> !(i <= k < i + len)
  {
  }

  /** A digit next to a letter or an underscore is never the start of a claim. */
  lemma WordNeighbourNeverMatches(s: string, i: nat)
    requires 0 < i < |s| && IsWordChar(s[i - 1])
    ensures forall len :: !StandaloneRun(s, i, len)
  {
  }

  /** A digit followed by a letter, a digit or an underscore is never the
      end of a claim. */
  lemma WordAfterNeverMatches(s: string, e: nat)
    requires 0 < e < |s| && IsWordChar(s[e])
    ensures forall i, len :: StandaloneRun(s, i, len) ==> i + len != e
  {
  }

  // Characterisation examples of the lexical rule

  lemma ExtractSingleDigit()
    ensures ExtractNumber("7") == Some("07")
  {
    ExtractFirstRun("7", 0, 1);
  }

  lemma ExtractThreeDigits()
    ensures ExtractNumber("123") == None
  {
    var s := "123";
    LongRunNeverMatches(s, 0, 0);
    LongRunNeverMatches(s, 0, 1);
    LongRunNeverMatches(s, 0, 2);
    ExtractSomeIff(s);
  }

  lemma ExtractBeforeLetter()
    ensures ExtractNumber("5a") == None
  {
    var s := "5a";
    WordAfterNeverMatches(s, 1);
    WordNeighbourNeverMatches(s, 1);
    ExtractSomeIff(s);
  }

  lemma ExtractBeforeUnderscore()
    ensures ExtractNumber("12_") == None
  {
    var s := "12_";
    WordAfterNeverMatches(s, 1);
    WordAfterNeverMatches(s, 2);
    WordNeighbourNeverMatches(s, 1);
    WordNeighbourNeverMatches(s, 2);
    ExtractSomeIff(s);
  }

  lemma ExtractAfterLetter()
    ensures ExtractNumber("a5") == None
  {
    var s := "a5";
    WordNeighbourNeverMatches(s, 1);
    ExtractSomeIff(s);
  }

  lemma ExtractInSentence()
    ensures ExtractNumber("my pick is 7") == Some("07")
  {
    var p := "my pick is ";
    var s := p + "7";
    assert s == "my pick is 7";
    assert forall c :: c in p ==> !IsDigit(c);
    forall j, l | 0 <= j < |p| ensures !StandaloneRun(s, j, l) {
      assert s[j] == p[j] && p[j] in p;
    }
    ExtractFirstRun(s, |p|, 1);
  }

  lemma ExtractLongRunInSentence()
    ensures ExtractNumber("number 123 please") == None
  {
    var p, q := "number ", " please";
    var s := p + "123" + q;
    assert s == "number 123 please";
    assert forall c :: c in p + q ==> !IsDigit(c);
    forall i, len ensures !StandaloneRun(s, i, len) {
      if 0 <= i < |p| {
        assert s[i] == p[i] && p[i] in p + q;
      } else if |p| <= i < |p| + 3 {
        LongRunNeverMatches(s, |p|, i);
      } else if |p| + 3 <= i < |s| {
        assert s[i] == q[i - |p| - 3] && q[i - |p| - 3] in p + q;
      }
    }
    ExtractSomeIff(s);
  }

  lemma ExtractFirstOfTwo()
    ensures ExtractNumber("5 and 17") == Some("05")
  {
    var s := "5 and 17";
    assert StandaloneRun(s, 0, 1);
    ExtractFirstRun(s, 0, 1);
  }
}
