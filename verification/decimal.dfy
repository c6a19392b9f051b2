/** The two regular expressions of the cell parser, written twice: once as the
    language they denote (`IsDecimalText`, `RangeSplit`) and once as the
    left-to-right scan a backtracking matcher settles on (`NumberEnd`,
    `RangeScan`). The lemmas at the end prove the two agree.

    Decimal pattern: `-?\d+(?:\.\d+)?`
    Range pattern (RANGE_RE): `^(-?\d+(?:\.\d+)?)\s*[-–]\s*(-?\d+(?:\.\d+)?)$` */
module Decimal {
  import opened Text
  import opened Results

  predicate IsDigit(c: char) {
    '0' <= c <= '9'
  }

  predicate AllDigits(s: string) {
    forall i {:trigger IsDigit(s[i])} :: 0 <= i < |s| ==> IsDigit(s[i])
  }

  /** The separator class `[-–]`: hyphen-minus or en dash. */
  predicate IsRangeDash(c: char) {
    c == '-' || c == '\U{2013}'
  }

  function DigitValue(c: char): nat
    requires IsDigit(c)
  {
    c as int - '0' as int
  }

  /** Value of a digit string, most significant digit first. */
  function NatValue(s: string): nat
    requires AllDigits(s)
  {
    if |s| == 0 then 0 else 10 * NatValue(s[..|s| - 1]) + DigitValue(s[|s| - 1])
  }

  function Pow10(n: nat): (r: nat)
    ensures r > 0
  {
    if n == 0 then 1 else 10 * Pow10(n - 1)
  }

  // ---------------------------------------------------------------------------
  // The languages

  /** `\d+(?:\.\d+)?`: digits, optionally followed by a point and more digits. */
  predicate IsUnsignedText(u: string) {
    || (|u| > 0 && AllDigits(u))
    || (exists p :: 0 <= p < |u| && PointAt(u, p))
  }

  /** `u` is digits, a point at `p`, and digits again, with at least one digit on each side. */
  predicate PointAt(u: string, p: int) {
    0 < p < |u| - 1 && u[p] == '.' && AllDigits(u[..p]) && AllDigits(u[p + 1..])
  }

  /** `-?\d+(?:\.\d+)?`: only a hyphen-minus sign, and digits on both sides of any point. */
  predicate IsDecimalText(s: string) {
    if |s| > 0 && s[0] == '-' then IsUnsignedText(s[1..]) else IsUnsignedText(s)
  }

  /** `t` matches RANGE_RE with the first number `t[..i]`, the separator at `j`
      and the second number `t[k..]`; whitespace fills the gaps. */
  predicate RangeSplit(t: string, i: nat, j: nat, k: nat) {
    && i <= j < k <= |t|
    && IsDecimalText(t[..i])
    && AllSpaces(t[i..j])
    && IsRangeDash(t[j])
    && AllSpaces(t[j + 1..k])
    && IsDecimalText(t[k..])
  }

  /** An unsigned number is made of digits and at most one point. */
  lemma UnsignedChars(u: string, q: nat)
    requires IsUnsignedText(u) && q < |u|
    ensures IsDigit(u[q]) || u[q] == '.'
  {
    if !(|u| > 0 && AllDigits(u)) {
      var p :| 0 <= p < |u| && PointAt(u, p);
      if q < p {
        assert u[..p][q] == u[q];
      } else if q > p {
        assert u[p + 1..][q - p - 1] == u[q];
      }
    }
  }

  /** A decimal holds no range separator after its first character: a
      hyphen-minus can only be the sign. */
  lemma DecimalNoDash(s: string, q: nat)
    requires IsDecimalText(s) && 0 < q < |s|
    ensures !IsRangeDash(s[q])
  {
    if s[0] == '-' {
      UnsignedChars(s[1..], q - 1);
      assert s[1..][q - 1] == s[q];
    } else {
      UnsignedChars(s, q);
    }
  }

  // ---------------------------------------------------------------------------
  // The scanner: positions in one string, never a slice of it

  predicate DigitsBetween(t: string, a: nat, b: nat)
    requires a <= b <= |t|
  {
    forall x :: a <= x < b ==> IsDigit(t[x])
  }

  predicate SpacesBetween(t: string, a: nat, b: nat)
    requires a <= b <= |t|
  {
    forall x :: a <= x < b ==> IsSpace(t[x])
  }

  /** End of the longest digit run starting at `p` (`\d+` is greedy). */
  function DigitsFrom(t: string, p: nat): (e: nat)
    requires p <= |t|
    ensures p <= e <= |t| && DigitsBetween(t, p, e)
    ensures e == |t| || !IsDigit(t[e])
    decreases |t| - p
  {
    if p < |t| && IsDigit(t[p]) then DigitsFrom(t, p + 1) else p
  }

  /** End of the longest whitespace run starting at `p` (`\s*`). */
  function SpacesFrom(t: string, p: nat): (e: nat)
    requires p <= |t|
    ensures p <= e <= |t| && SpacesBetween(t, p, e)
    ensures e == |t| || !IsSpace(t[e])
    decreases |t| - p
  {
    if p < |t| && IsSpace(t[p]) then SpacesFrom(t, p + 1) else p
  }

  /** End of the longest match of `\d+(?:\.\d+)?` at `q`, or `q` when there is none. */
  function UnsignedEnd(t: string, q: nat): (e: nat)
    requires q <= |t|
    ensures q <= e <= |t|
  {
    var d := DigitsFrom(t, q);
    if d == q then q
    else if d < |t| && t[d] == '.' && DigitsFrom(t, d + 1) > d + 1 then DigitsFrom(t, d + 1)
    else d
  }

  /** End of the longest match of `-?\d+(?:\.\d+)?` at `p`, or `p` when there is none. */
  function NumberEnd(t: string, p: nat): (e: nat)
    requires p <= |t|
    ensures p <= e <= |t|
  {
    var q := if p < |t| && t[p] == '-' then p + 1 else p;
    var e := UnsignedEnd(t, q);
    if e == q then p else e
  }

  /** Where RANGE_RE.match splits a stripped text: the end of the first
      number, the dash, and the start of the second number. */
  function RangeScan(t: string): Option<(nat, nat, nat)>
  {
    var i := NumberEnd(t, 0);
    if i == 0 then None
    else
      var j := SpacesFrom(t, i);
      if j < |t| && IsRangeDash(t[j]) then
        var k := SpacesFrom(t, j + 1);
        if k < |t| && NumberEnd(t, k) == |t| then Some((i, j, k)) else None
      else None
  }

  /** RANGE_RE.match on a stripped text: its two bounds, or None. */
  function ParseRange(t: string): Option<(real, real)>
  {
    RangeScanSound(t);
    match RangeScan(t)
    case None => None
    case Some((i, j, k)) => Some((DecimalValue(t[..i]), DecimalValue(t[k..])))
  }

  /** `re.fullmatch(r"-?\d+(?:\.\d+)?", t)` as the scanner decides it. */
  predicate IsFullNumber(t: string) {
    |t| > 0 && NumberEnd(t, 0) == |t|
  }

  // ---------------------------------------------------------------------------
  // Values

  /** The point of an unsigned number sits right after its leading digit run. */
  lemma UnsignedShape(u: string)
    requires IsUnsignedText(u)
    ensures var p := DigitsFrom(u, 0);
            0 < p && AllDigits(u[..p]) && (p == |u| || (p < |u| - 1 && u[p] == '.' && AllDigits(u[p + 1..])))
  {
    if |u| > 0 && AllDigits(u) {
      DigitsSlice(u, 0, |u|);
      DigitsFromExact(u, 0, |u|);
    } else {
      var p :| 0 <= p < |u| && PointAt(u, p);
      assert PointAt(u, p);
      DigitsSlice(u, 0, p);
      DigitsFromExact(u, 0, p);
    }
  }

  /** `float()` of an unsigned number, exactly: integer part plus fraction. */
  function UnsignedValue(u: string): (v: real)
    requires IsUnsignedText(u)
    ensures v >= 0.0
  {
    UnsignedShape(u);
    var p := DigitsFrom(u, 0);
    var whole := NatValue(u[..p]) as real;
    if p == |u| then whole
    else whole + NatValue(u[p + 1..]) as real / Pow10(|u| - p - 1) as real
  }

  /** `float()` of a text in the decimal language. */
  function DecimalValue(s: string): real
    requires IsDecimalText(s)
  {
    if |s| > 0 && s[0] == '-' then -UnsignedValue(s[1..]) else UnsignedValue(s)
  }

  /** A digit string reads as its integer value. */
  lemma IntegerValue(u: string)
    requires |u| > 0 && AllDigits(u)
    ensures IsDecimalText(u) && DecimalValue(u) == NatValue(u) as real
  {
    assert IsDigit(u[0]);
    DigitsSlice(u, 0, |u|);
    DigitsFromExact(u, 0, |u|);
    assert u[..|u|] == u;
  }

  /** `a.b` reads as `a + b / 10^|b|`. */
  lemma PointValue(u: string, p: nat)
    requires PointAt(u, p)
    ensures IsDecimalText(u)
    ensures DecimalValue(u) == NatValue(u[..p]) as real + NatValue(u[p + 1..]) as real / Pow10(|u| - p - 1) as real
  {
    assert IsDigit(u[..p][0]);
    DigitsSlice(u, 0, p);
    DigitsFromExact(u, 0, p);
  }

  // ---------------------------------------------------------------------------
  // Scanner and language agree

  lemma DigitsSlice(t: string, a: nat, b: nat)
    requires a <= b <= |t|
    ensures AllDigits(t[a..b]) <==> DigitsBetween(t, a, b)
  {
    if AllDigits(t[a..b]) {
      forall x | a <= x < b
        ensures IsDigit(t[x])
      {
        assert t[a..b][x - a] == t[x];
      }
    }
    if DigitsBetween(t, a, b) {
      forall x | 0 <= x < b - a
        ensures IsDigit(t[a..b][x])
      {
        assert t[a..b][x] == t[a + x];
      }
    }
  }

  lemma SpacesSlice(t: string, a: nat, b: nat)
    requires a <= b <= |t|
    ensures AllSpaces(t[a..b]) <==> SpacesBetween(t, a, b)
  {
    if AllSpaces(t[a..b]) {
      forall x | a <= x < b
        ensures IsSpace(t[x])
      {
        assert t[a..b][x - a] == t[x];
      }
    }
  }

  lemma {:induction false} DigitsFromExact(t: string, p: nat, e: nat)
    requires p <= e <= |t| && DigitsBetween(t, p, e) && (e == |t| || !IsDigit(t[e]))
    ensures DigitsFrom(t, p) == e
    decreases e - p
  {
    if p < e {
      DigitsFromExact(t, p + 1, e);
    }
  }

  lemma {:induction false} SpacesFromExact(t: string, p: nat, e: nat)
    requires p <= e <= |t| && SpacesBetween(t, p, e) && (e == |t| || !IsSpace(t[e]))
    ensures SpacesFrom(t, p) == e
    decreases e - p
  {
    if p < e {
      SpacesFromExact(t, p + 1, e);
    }
  }

  lemma UnsignedEndSound(t: string, q: nat)
    requires q <= |t|
    ensures UnsignedEnd(t, q) > q ==> IsUnsignedText(t[q..UnsignedEnd(t, q)])
  {
    var e := UnsignedEnd(t, q);
    var d := DigitsFrom(t, q);
    if e > q {
      var u := t[q..e];
      if e == d {
        DigitsSlice(t, q, d);
      } else {
        DigitsSlice(t, q, d);
        DigitsSlice(t, d + 1, e);
        assert u[..d - q] == t[q..d];
        assert u[d - q + 1..] == t[d + 1..e];
        assert PointAt(u, d - q);
      }
    }
  }

  lemma UnsignedEndExact(t: string, q: nat, e: nat)
    requires q <= e <= |t| && IsUnsignedText(t[q..e])
    requires e == |t| || (!IsDigit(t[e]) && t[e] != '.')
    ensures UnsignedEnd(t, q) == e
  {
    var u := t[q..e];
    if |u| > 0 && AllDigits(u) {
      DigitsSlice(t, q, e);
      DigitsFromExact(t, q, e);
    } else {
      var p :| 0 <= p < |u| && PointAt(u, p);
      assert PointAt(u, p);
      var m := q + p;
      assert u[..p] == t[q..m];
      assert u[p + 1..] == t[m + 1..e];
      DigitsSlice(t, q, m);
      DigitsSlice(t, m + 1, e);
      DigitsFromExact(t, q, m);
      DigitsFromExact(t, m + 1, e);
    }
  }

  /** A decimal never starts with whitespace: it starts with a sign or a digit. */
  lemma DecimalStart(s: string)
    requires IsDecimalText(s)
    ensures |s| > 0 && (s[0] == '-' || IsDigit(s[0]))
  {
    if !(|s| > 0 && s[0] == '-') {
      if !(|s| > 0 && AllDigits(s)) {
        var p :| 0 <= p < |s| && PointAt(s, p);
        assert PointAt(s, p);
        assert IsDigit(s[..p][0]);
      }
    }
  }

  /** Whatever the scanner accepts is in the decimal language. */
  lemma NumberEndSound(t: string, p: nat)
    requires p <= |t|
    ensures NumberEnd(t, p) > p ==> IsDecimalText(t[p..NumberEnd(t, p)])
  {
    var q := if p < |t| && t[p] == '-' then p + 1 else p;
    var e := NumberEnd(t, p);
    UnsignedEndSound(t, q);
    if e > p {
      var s := t[p..e];
      if q == p + 1 {
        assert s[0] == '-' && s[1..] == t[q..e];
      } else {
        assert s == t[q..e];
      }
    }
  }

  /** The scanner stops exactly where a decimal ends, provided the next
      character could not extend it. */
  lemma NumberEndExact(t: string, p: nat, e: nat)
    requires p <= e <= |t| && IsDecimalText(t[p..e])
    requires e == |t| || (!IsDigit(t[e]) && t[e] != '.')
    ensures NumberEnd(t, p) == e
  {
    var s := t[p..e];
    DecimalStart(s);
    assert s[0] == t[p];
    if t[p] == '-' {
      assert s[1..] == t[p + 1..e];
      UnsignedEndExact(t, p + 1, e);
      DecimalStart(s[1..]);
    } else {
      UnsignedEndExact(t, p, e);
    }
  }

  /** `re.fullmatch` of the decimal pattern, both ways. */
  lemma FullNumberMatches(t: string)
    ensures IsFullNumber(t) <==> IsDecimalText(t)
  {
    assert t[0..|t|] == t;
    if IsFullNumber(t) {
      NumberEndSound(t, 0);
    }
    if IsDecimalText(t) {
      NumberEndExact(t, 0, |t|);
      DecimalStart(t);
    }
  }

  /** Every split the scanner reports is a match of RANGE_RE. */
  lemma RangeScanSound(t: string)
    ensures RangeScan(t).Some? ==> RangeSplit(t, RangeScan(t).value.0, RangeScan(t).value.1, RangeScan(t).value.2)
  {
    if RangeScan(t).Some? {
      var i := NumberEnd(t, 0);
      var j := SpacesFrom(t, i);
      var k := SpacesFrom(t, j + 1);
      assert RangeScan(t) == Some((i, j, k));
      NumberEndSound(t, 0);
      assert t[..i] == t[0..i];
      NumberEndSound(t, k);
      assert t[k..] == t[k..|t|];
      SpacesSlice(t, i, j);
      SpacesSlice(t, j + 1, k);
    }
  }

  /** Any split of RANGE_RE is the one the scanner finds. */
  lemma RangeSplitScans(t: string, i: nat, j: nat, k: nat)
    requires RangeSplit(t, i, j, k)
    ensures RangeScan(t) == Some((i, j, k))
  {
    FirstBoundScan(t, i, j);
    SecondBoundScan(t, j, k);
    ScanAt(t, i, j, k);
  }

  /** The two bounds RANGE_RE.match gives for a text split as a range. */
  lemma ParseRangeAt(t: string, i: nat, j: nat, k: nat)
    requires RangeSplit(t, i, j, k)
    ensures ParseRange(t) == Some((DecimalValue(t[..i]), DecimalValue(t[k..])))
  {
    RangeSplitScans(t, i, j, k);
  }

  /** The scanner reports the positions its three runs end at. */
  lemma ScanAt(t: string, i: nat, j: nat, k: nat)
    requires 0 < i <= j < |t| && NumberEnd(t, 0) == i && SpacesFrom(t, i) == j && IsRangeDash(t[j])
    requires SpacesFrom(t, j + 1) == k < |t| && NumberEnd(t, k) == |t|
    ensures RangeScan(t) == Some((i, j, k))
  {
  }

  /** The scan of the first bound and of the whitespace before the dash. */
  lemma FirstBoundScan(t: string, i: nat, j: nat)
    requires i <= j < |t| && IsDecimalText(t[..i]) && AllSpaces(t[i..j]) && IsRangeDash(t[j])
    ensures 0 < i == NumberEnd(t, 0) && SpacesFrom(t, i) == j
  {
    assert t[..i] == t[0..i];
    DecimalStart(t[..i]);
    SpacesSlice(t, i, j);
    if i < j {
      assert IsSpace(t[i]);
    }
    NumberEndExact(t, 0, i);
    SpacesFromExact(t, i, j);
  }

  /** The scan of the whitespace after the dash and of the second bound. */
  lemma SecondBoundScan(t: string, j: nat, k: nat)
    requires j < k <= |t| && AllSpaces(t[j + 1..k]) && IsDecimalText(t[k..])
    ensures SpacesFrom(t, j + 1) == k < |t| && NumberEnd(t, k) == |t|
  {
    assert t[k..] == t[k..|t|];
    DecimalStart(t[k..]);
    SpacesSlice(t, j + 1, k);
    assert t[k] == t[k..][0];
    SpacesFromExact(t, j + 1, k);
    NumberEndExact(t, k, |t|);
  }

  /** On a stripped text, RANGE_RE matches exactly when the scanner finds two
      bounds, and the bounds it returns are the two numbers of the (unique)
      match. (Python's `$` also matches before one final newline, which a
      stripped text never has.) */
  lemma ParseRangeMatches(t: string)
    ensures ParseRange(t).Some? <==> exists i: nat, j: nat, k: nat :: RangeSplit(t, i, j, k)
    ensures forall i: nat, j: nat, k: nat :: RangeSplit(t, i, j, k) ==>
              ParseRange(t) == Some((DecimalValue(t[..i]), DecimalValue(t[k..])))
  {
    RangeScanSound(t);
    forall i: nat, j: nat, k: nat | RangeSplit(t, i, j, k)
      ensures ParseRange(t) == Some((DecimalValue(t[..i]), DecimalValue(t[k..])))
    {
      ParseRangeAt(t, i, j, k);
    }
  }
}
