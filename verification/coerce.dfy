/** The per-cell parser of `_coerce_numeric` (Cleaning.py): blanks become
    missing, a range `a-b` becomes its midpoint, a plain decimal becomes its
    value, and any other text is kept, stripped. */
module Coerce {
  import opened Text
  import opened Decimal
  import opened Tables

  /** The whole of `t` matches RANGE_RE. */
  ghost predicate MatchesRange(t: string) {
    exists i: nat, j: nat, k: nat :: RangeSplit(t, i, j, k)
  }

  /** `float(text)` once `re.fullmatch` has accepted `text`. */
  function FullValue(t: string): real
    requires IsFullNumber(t)
  {
    FullNumberMatches(t);
    DecimalValue(t)
  }

  /** `parse(value)` inside `_coerce_numeric`. A number is passed through:
      `str()` of a float reads back as the same float. `ParseTextCell` gives
      the value of each kind of text. */
  function ParseCell(c: Cell): (r: Cell)
    ensures !c.Text? ==> r == c
    ensures c.Text? ==> (r == Missing <==> Strip(c.text) == "")
    ensures r.Text? ==> c.Text? && r == Text(Strip(c.text))
  {
    match c
    case Missing => Missing
    case Num(x) => Num(x)
    case Text(s) => ParseStripped(Strip(s))
  }

  /** The parser once the text is stripped. */
  function ParseStripped(t: string): Cell
  {
    if t == "" then Missing
    else
      match ParseRange(t)
      case Some((lo, hi)) => Num((lo + hi) / 2.0)
      case None => if IsFullNumber(t) then Num(FullValue(t)) else Text(t)
  }

  /** The parser against the two patterns it implements: a blank is missing,
      a range match gives the mean of its bounds, a decimal its value, and
      anything else comes back as the stripped text. */
  lemma ParseTextCell(s: string)
    ensures var t := Strip(s);
      && (t == "" ==> ParseCell(Text(s)) == Missing)
      && (forall i: nat, j: nat, k: nat :: RangeSplit(t, i, j, k) ==>
            ParseCell(Text(s)) == Num((DecimalValue(t[..i]) + DecimalValue(t[k..])) / 2.0))
      && (IsDecimalText(t) ==> ParseCell(Text(s)) == Num(DecimalValue(t)))
      && (t != "" && !MatchesRange(t) && !IsDecimalText(t) ==> ParseCell(Text(s)) == Text(t))
  {
    ParseStrippedSpec(Strip(s));
  }

  lemma ParseStrippedSpec(t: string)
    ensures t == "" ==> ParseStripped(t) == Missing
    ensures forall i: nat, j: nat, k: nat :: RangeSplit(t, i, j, k) ==>
              ParseStripped(t) == Num((DecimalValue(t[..i]) + DecimalValue(t[k..])) / 2.0)
    ensures IsDecimalText(t) ==> ParseStripped(t) == Num(DecimalValue(t))
    ensures t != "" && !MatchesRange(t) && !IsDecimalText(t) ==> ParseStripped(t) == Text(t)
  {
    forall i: nat, j: nat, k: nat | RangeSplit(t, i, j, k)
      ensures ParseStripped(t) == Num((DecimalValue(t[..i]) + DecimalValue(t[k..])) / 2.0)
    {
      ParseRangeCase(t, i, j, k);
    }
    if IsDecimalText(t) {
      DecimalNotRange(t);
    }
    if t != "" && !MatchesRange(t) {
      NoRangeMatch(t);
      FullNumberMatches(t);
    }
  }

  /** A decimal never matches RANGE_RE, so the parser reads it as a plain
      number. */
  lemma DecimalNotRange(t: string)
    requires IsDecimalText(t)
    ensures t != "" && !MatchesRange(t)
  {
    if MatchesRange(t) {
      var i: nat, j: nat, k: nat :| RangeSplit(t, i, j, k);
      DecimalNoDash(t, j);
    }
  }

  lemma ParseRangeCase(t: string, i: nat, j: nat, k: nat)
    requires RangeSplit(t, i, j, k)
    ensures ParseStripped(t) == Num((DecimalValue(t[..i]) + DecimalValue(t[k..])) / 2.0)
  {
    ParseRangeAt(t, i, j, k);
    RangeParsed(t, DecimalValue(t[..i]), DecimalValue(t[k..]));
  }

  /** A text RANGE_RE accepts with bounds `lo` and `hi` parses to their mean. */
  lemma RangeParsed(t: string, lo: real, hi: real)
    requires t != "" && ParseRange(t) == Results.Some((lo, hi))
    ensures ParseStripped(t).Num? && ParseStripped(t).value == (lo + hi) / 2.0
  {
  }

  lemma NoRangeMatch(t: string)
    requires !MatchesRange(t)
    ensures ParseRange(t).None?
  {
    RangeScanSound(t);
  }

  /** Missing and numbers pass through untouched. */
  lemma ParseNonText(c: Cell)
    requires !c.Text?
    ensures ParseCell(c) == c
  {
  }

  /** Parsing an already parsed cell changes nothing. */
  lemma ParseCellIdempotent(c: Cell)
    ensures ParseCell(ParseCell(c)) == ParseCell(c)
  {
    if c.Text? {
      var t := Strip(c.text);
      KeptText(t);
      if ParseStripped(t).Text? {
        StripTrimmed(t);
      }
    }
  }

  /** Text that survives parsing is the stripped input itself. */
  lemma KeptText(t: string)
    ensures ParseStripped(t).Text? ==> ParseStripped(t) == Text(t)
  {
  }

  /** A text without surrounding whitespace that splits as a range parses
      to the midpoint of the two bounds. */
  lemma ParseTrimmedRange(t: string, i: nat, j: nat, k: nat)
    requires Trimmed(t) && RangeSplit(t, i, j, k)
    ensures ParseCell(Text(t)) == Num((DecimalValue(t[..i]) + DecimalValue(t[k..])) / 2.0)
  {
    StripTrimmed(t);
    ParseRangeCase(t, i, j, k);
  }

  /** Worked example: "10-20" parses to 15. */
  lemma RangeExampleWhole()
    ensures ParseCell(Text("10-20")) == Num(15.0)
  {
    WholeSplit();
    ParseTrimmedRange("10-20", 2, 2, 3);
  }

  lemma WholeSplit()
    ensures Trimmed("10-20") && RangeSplit("10-20", 2, 2, 3)
    ensures DecimalValue("10-20"[..2]) == 10.0 && DecimalValue("10-20"[3..]) == 20.0
  {
    var a := "10-20";
    assert a[..2] == ['1', '0'] && a[3..] == ['2', '0'];
    TwoDigits('1', '0');
    TwoDigits('2', '0');
    assert a[2..2] == [] && a[3..3] == [];
  }

  /** Two digits read as a two-digit integer. */
  lemma TwoDigits(a: char, b: char)
    requires IsDigit(a) && IsDigit(b)
    ensures IsDecimalText([a, b])
    ensures DecimalValue([a, b]) == (10 * DigitValue(a) + DigitValue(b)) as real
  {
    var u := [a, b];
    assert u[..1] == [a];
    assert NatValue(u) == 10 * NatValue([a]) + DigitValue(b);
    IntegerValue(u);
  }

  /** Worked example: "-5 - 5" parses to 0. */
  lemma RangeExampleSigned()
    ensures ParseCell(Text("-5 - 5")) == Num(0.0)
  {
    SignedSplit();
    ParseTrimmedRange("-5 - 5", 2, 3, 5);
  }

  lemma SignedSplit()
    ensures Trimmed("-5 - 5") && RangeSplit("-5 - 5", 2, 3, 5)
    ensures DecimalValue("-5 - 5"[..2]) == -5.0 && DecimalValue("-5 - 5"[5..]) == 5.0
  {
    var b := "-5 - 5";
    assert b[..2] == ['-', '5'] && b[5..] == ['5'];
    assert b[2..3] == [' '] && b[4..5] == [' '];
    assert ['-', '5'][1..] == ['5'];
    assert NatValue(['5']) == 5;
    IntegerValue(['5']);
  }

  /** Worked example: "3.5-4.5" parses to 4. */
  lemma RangeExampleFraction()
    ensures ParseCell(Text("3.5-4.5")) == Num(4.0)
  {
    StripTrimmed("3.5-4.5");
    FractionSplit();
    ParseRangeCase("3.5-4.5", 3, 3, 4);
  }

  /** "3.5-4.5" splits at the dash into 3.5 and 4.5. */
  lemma FractionSplit()
    ensures RangeSplit("3.5-4.5", 3, 3, 4)
    ensures DecimalValue("3.5-4.5"[..3]) == 3.5 && DecimalValue("3.5-4.5"[4..]) == 4.5
  {
    var c := "3.5-4.5";
    HalfValue('3');
    HalfValue('4');
    assert c[..3] == ['3', '.', '5'];
    assert c[4..] == ['4', '.', '5'];
    assert IsRangeDash(c[3]) && c[3..3] == [] && c[4..4] == [];
  }

  /** A digit followed by ".5". */
  lemma HalfValue(d: char)
    requires IsDigit(d)
    ensures IsDecimalText([d, '.', '5'])
    ensures DecimalValue([d, '.', '5']) == DigitValue(d) as real + 0.5
  {
    var u := [d, '.', '5'];
    assert u[..1] == [d] && u[2..] == "5";
    assert NatValue([d]) == DigitValue(d);
    assert NatValue("5") == 5;
    assert PointAt(u, 1);
    PointValue(u, 1);
  }

  /** The missing-text quirk: the string "nan" is not a number and stays text. */
  lemma NanStaysText()
    ensures Strip("nan") == "nan"
    ensures ParseCell(Text("nan")) == Text("nan")
  {
    StripTrimmed("nan");
  }
}
