/** `standardize_columns` (Cleaning.py): normalised labels, stripped text in
    object columns, and exact duplicate rows dropped with the first kept. */
module Standardize {
  import opened Text
  import opened Tables
  import opened Results

  /** One label through `.str.strip().str.lower().str.replace(" ", "_").str.replace("-", "_")`. */
  function NormalizeName(s: string): (r: string)
    ensures |r| == |Strip(s)|
  {
    ReplaceChar(ReplaceChar(Lower(Strip(s)), ' ', '_'), '-', '_')
  }

  /** What the chain does to one character of the stripped label. */
  function NormalizeChar(c: char): char {
    if c == ' ' || c == '-' then '_' else LowerChar(c)
  }

  /** The label is normalised character by character. */
  lemma NormalizeAt(s: string, i: nat)
    requires i < |Strip(s)|
    ensures NormalizeName(s)[i] == NormalizeChar(Strip(s)[i])
  {
    var t := Strip(s);
    var a := Lower(t);
    var b := ReplaceChar(a, ' ', '_');
    assert a[i] == LowerChar(t[i]);
    assert b[i] == if a[i] == ' ' then '_' else a[i];
    assert NormalizeName(s)[i] == if b[i] == '-' then '_' else b[i];
  }

  /** A normalised label has no upper-case letter, blank or hyphen, no
      whitespace at either end; each blank or hyphen of the stripped label
      became '_', each upper-case letter its lower-case, and every other
      character stays in place. */
  lemma NormalizedShape(s: string)
    ensures var r := NormalizeName(s);
      && Trimmed(r)
      && (forall i :: 0 <= i < |r| ==> !IsUpper(r[i]) && r[i] != ' ' && r[i] != '-')
      && (forall i :: 0 <= i < |r| && (Strip(s)[i] == ' ' || Strip(s)[i] == '-') ==> r[i] == '_')
      && (forall i :: 0 <= i < |r| && IsUpper(Strip(s)[i]) ==> r[i] == (Strip(s)[i] as int + 32) as char)
      && (forall i :: 0 <= i < |r| && !IsUpper(Strip(s)[i]) && Strip(s)[i] != ' ' && Strip(s)[i] != '-' ==>
            r[i] == Strip(s)[i])
  {
    var r, t := NormalizeName(s), Strip(s);
    forall i | 0 <= i < |r|
      ensures !IsUpper(r[i]) && r[i] != ' ' && r[i] != '-'
      ensures t[i] == ' ' || t[i] == '-' ==> r[i] == '_'
      ensures IsUpper(t[i]) ==> r[i] == (t[i] as int + 32) as char
      ensures !IsUpper(t[i]) && t[i] != ' ' && t[i] != '-' ==> r[i] == t[i]
      ensures !IsSpace(t[i]) ==> !IsSpace(r[i])
    {
      NormalizeAt(s, i);
      NormalizeCharShape(t[i]);
    }
  }

  lemma NormalizeCharShape(c: char)
    ensures var d := NormalizeChar(c);
      && !IsUpper(d) && d != ' ' && d != '-'
      && (!IsUpper(c) && c != ' ' && c != '-' ==> d == c)
      && (!IsSpace(c) ==> !IsSpace(d))
  {
  }

  /** Normalising a normalised label changes nothing. */
  lemma NormalizeIdempotent(s: string)
    ensures NormalizeName(NormalizeName(s)) == NormalizeName(s)
  {
    var r := NormalizeName(s);
    NormalizedShape(s);
    StripTrimmed(r);
    forall i | 0 <= i < |r|
      ensures NormalizeName(r)[i] == r[i]
    {
      NormalizeAt(r, i);
    }
  }

  /** `drop_duplicates()` on a sequence: the first occurrence of each value,
      in the order those first occurrences appear. */
  function Dedup<T(==,!new)>(s: seq<T>): (r: seq<T>)
    ensures |r| <= |s|
    ensures Distinct(r)
    ensures forall x :: x in r <==> x in s
    ensures forall i, j :: 0 <= i < j < |r| ==> IndexOf(s, r[i]) < IndexOf(s, r[j])
    decreases |s|
  {
    if |s| == 0 then []
    else
      var p := Dedup(s[..|s| - 1]);
      assert s == s[..|s| - 1] + [s[|s| - 1]];
      assert forall y :: y in s[..|s| - 1] ==> IndexOf(s, y) == IndexOf(s[..|s| - 1], y) by {
        forall y | y in s[..|s| - 1] {
          IndexOfAppend(s[..|s| - 1], [s[|s| - 1]], y);
        }
      }
      if s[|s| - 1] in p then p else p + [s[|s| - 1]]
  }

  /** A sequence without repeats is its own de-duplication. */
  lemma {:induction false} DedupDistinct<T(!new)>(s: seq<T>)
    requires Distinct(s)
    ensures Dedup(s) == s
    decreases |s|
  {
    if |s| > 0 {
      var q, x := s[..|s| - 1], s[|s| - 1];
      forall a, b | 0 <= a < b < |q|
        ensures q[a] != q[b]
      {
        assert q[a] == s[a] && q[b] == s[b];
      }
      DedupDistinct(q);
      forall k | 0 <= k < |q|
        ensures q[k] != x
      {
        assert q[k] == s[k];
      }
      DedupFresh(s);
      assert q + [x] == s;
    }
  }

  /** A last element seen for the first time is kept at the end. */
  lemma DedupFresh<T(!new)>(s: seq<T>)
    requires |s| > 0 && s[|s| - 1] !in s[..|s| - 1]
    ensures Dedup(s) == Dedup(s[..|s| - 1]) + [s[|s| - 1]]
  {
  }

  /** `astype(str).str.strip()` on one cell of an object column: a missing
      cell becomes the text "nan". A number is kept as that number; its
      rendering as text is not modelled. */
  function StripCell(c: Cell): (r: Cell)
    ensures r != Missing
    ensures c.Text? ==> r == Text(Strip(c.text))
    ensures c.Num? ==> r == c
  {
    match c
    case Missing => Text("nan")
    case Num(_) => c
    case Text(s) => Text(Strip(s))
  }

  /** Stripping a stripped cell changes nothing. */
  lemma StripCellIdempotent(c: Cell)
    ensures StripCell(StripCell(c)) == StripCell(c)
  {
    if c.Text? {
      StripIdempotent(c.text);
    } else if c.Missing? {
      StripTrimmed("nan");
    }
  }

  /** One row with the cells of the flagged columns stripped. */
  function CleanRow(f: seq<bool>, row: Row): (r: Row)
    requires |row| == |f|
    ensures |r| == |row|
    ensures forall c :: 0 <= c < |r| ==> r[c] == if f[c] then StripCell(row[c]) else row[c]
  {
    seq(|row|, c requires 0 <= c < |row| => if f[c] then StripCell(row[c]) else row[c])
  }

  lemma CleanRowIdempotent(f: seq<bool>, row: Row)
    requires |row| == |f|
    ensures CleanRow(f, CleanRow(f, row)) == CleanRow(f, row)
  {
    forall c | 0 <= c < |row| && f[c] {
      StripCellIdempotent(row[c]);
    }
  }

  /** The rows of `t` after the loop over object columns. */
  function CleanRows(t: Table): (rs: seq<Row>)
    requires WellFormed(t)
    ensures |rs| == |t.rows|
    ensures forall i :: 0 <= i < |rs| ==> rs[i] == CleanRow(TextualColumns(t), t.rows[i])
  {
    var f := TextualColumns(t);
    seq(|t.rows|, i requires 0 <= i < |t.rows| => CleanRow(f, t.rows[i]))
  }

  function NormalizeNames(cs: seq<string>): (r: seq<string>)
    ensures |r| == |cs|
    ensures forall c :: 0 <= c < |r| ==> r[c] == NormalizeName(cs[c])
  {
    seq(|cs|, c requires 0 <= c < |cs| => NormalizeName(cs[c]))
  }

  /** Two labels that normalise alike where one of them is an object column:
      `df[col]` then selects a frame, which has no `.str`, and the call raises. */
  predicate TextualClash(t: Table)
    requires WellFormed(t)
  {
    exists i, j :: 0 <= i < j < |t.columns| && ClashAt(t, i, j)
  }

  predicate ClashAt(t: Table, i: nat, j: nat)
    requires WellFormed(t) && i < j < |t.columns|
  {
    NormalizeName(t.columns[i]) == NormalizeName(t.columns[j]) && (IsTextual(t, i) || IsTextual(t, j))
  }

  /** `standardize_columns(df)`. */
  function StandardizeColumns(t: Table): (r: Result<Table>)
    requires WellFormed(t)
    ensures r.Err? <==> TextualClash(t)
    ensures r.Err? ==> r.error == DuplicateColumn
    ensures r.Ok? ==>
      var u := r.value;
      && WellFormed(u)
      && |u.columns| == |t.columns|
      && (forall c :: 0 <= c < |u.columns| ==> u.columns[c] == NormalizeName(t.columns[c]))
      && Distinct(u.rows)
      && (forall row :: row in u.rows <==> row in CleanRows(t))
      && (forall i, j :: 0 <= i < j < |u.rows| ==> IndexOf(CleanRows(t), u.rows[i]) < IndexOf(CleanRows(t), u.rows[j]))
  {
    if TextualClash(t) then Err(DuplicateColumn)
    else
      var rs := Dedup(CleanRows(t));
      assert forall i :: 0 <= i < |rs| ==> rs[i] in CleanRows(t);
      Ok(Table(NormalizeNames(t.columns), rs))
  }

  /** After standardisation every cell of an object column is text without
      surrounding whitespace, or a number the same column of an original row
      already held, and every other column holds exactly the cells it held
      before. */
  lemma StandardizedCells(t: Table)
    requires WellFormed(t) && StandardizeColumns(t).Ok?
    ensures var u := StandardizeColumns(t).value;
      forall i, c :: 0 <= i < |u.rows| && 0 <= c < |u.columns| ==>
        if IsTextual(t, c) then
          && u.rows[i][c] != Missing && (u.rows[i][c].Text? ==> Trimmed(u.rows[i][c].text))
          && (u.rows[i][c].Num? ==> exists k :: 0 <= k < |t.rows| && u.rows[i] == CleanRow(TextualColumns(t), t.rows[k]) && u.rows[i][c] == t.rows[k][c])
        else exists k :: 0 <= k < |t.rows| && u.rows[i] == CleanRow(TextualColumns(t), t.rows[k]) && u.rows[i][c] == t.rows[k][c]
  {
    var u := StandardizeColumns(t).value;
    forall i, c | 0 <= i < |u.rows| && 0 <= c < |u.columns|
      ensures if IsTextual(t, c) then
          && u.rows[i][c] != Missing && (u.rows[i][c].Text? ==> Trimmed(u.rows[i][c].text))
          && (u.rows[i][c].Num? ==> exists k :: 0 <= k < |t.rows| && u.rows[i] == CleanRow(TextualColumns(t), t.rows[k]) && u.rows[i][c] == t.rows[k][c])
        else exists k :: 0 <= k < |t.rows| && u.rows[i] == CleanRow(TextualColumns(t), t.rows[k]) && u.rows[i][c] == t.rows[k][c]
    {
      var k := SourceRow(t, i);
      CleanCell(TextualColumns(t), t.rows[k], c);
    }
  }

  /** One cell of a cleaned row: stripped text in an object column (a number
      there is kept), the original cell elsewhere. */
  lemma CleanCell(f: seq<bool>, row: Row, c: nat)
    requires |row| == |f| && c < |row|
    ensures f[c] ==> CleanRow(f, row)[c] != Missing
    ensures f[c] && CleanRow(f, row)[c].Text? ==> Trimmed(CleanRow(f, row)[c].text)
    ensures CleanRow(f, row)[c].Num? ==> CleanRow(f, row)[c] == row[c]
    ensures !f[c] ==> CleanRow(f, row)[c] == row[c]
  {
  }

  /** Every standardised row is the cleaned form of some original row. */
  lemma SourceRow(t: Table, i: nat) returns (k: nat)
    requires WellFormed(t) && StandardizeColumns(t).Ok? && i < |StandardizeColumns(t).value.rows|
    ensures k < |t.rows| && StandardizeColumns(t).value.rows[i] == CleanRow(TextualColumns(t), t.rows[k])
  {
    var u := StandardizeColumns(t).value;
    assert u.rows[i] in CleanRows(t);
    k :| 0 <= k < |t.rows| && CleanRows(t)[k] == u.rows[i];
  }

  /** A column is of object dtype after standardisation exactly when it was before. */
  lemma TextualPreserved(t: Table, c: nat)
    requires WellFormed(t) && StandardizeColumns(t).Ok? && c < |t.columns|
    ensures IsTextual(StandardizeColumns(t).value, c) <==> IsTextual(t, c)
  {
    var u := StandardizeColumns(t).value;
    var f := TextualColumns(t);
    if IsTextual(u, c) {
      var i :| 0 <= i < |u.rows| && u.rows[i][c].Text?;
      assert u.rows[i] in CleanRows(t);
      var k :| 0 <= k < |t.rows| && CleanRows(t)[k] == u.rows[i];
    }
    if IsTextual(t, c) {
      var k :| 0 <= k < |t.rows| && t.rows[k][c].Text?;
      assert CleanRows(t)[k] in u.rows;
      var i :| 0 <= i < |u.rows| && u.rows[i] == CleanRows(t)[k];
      assert u.rows[i][c].Text?;
    }
  }

  /** Standardising a standardised frame gives it back unchanged. */
  lemma StandardizeIdempotent(t: Table)
    requires WellFormed(t) && StandardizeColumns(t).Ok?
    ensures StandardizeColumns(StandardizeColumns(t).value) == StandardizeColumns(t)
  {
    var u := StandardizeColumns(t).value;
    SameTextualColumns(t);
    NoClashAfter(t);
    NamesFixed(t);
    RowsFixed(t);
    DedupDistinct(u.rows);
  }

  lemma SameTextualColumns(t: Table)
    requires WellFormed(t) && StandardizeColumns(t).Ok?
    ensures TextualColumns(StandardizeColumns(t).value) == TextualColumns(t)
  {
    var u := StandardizeColumns(t).value;
    forall c | 0 <= c < |t.columns|
      ensures IsTextual(u, c) == IsTextual(t, c)
    {
      TextualPreserved(t, c);
    }
  }

  lemma NoClashAfter(t: Table)
    requires WellFormed(t) && StandardizeColumns(t).Ok?
    ensures !TextualClash(StandardizeColumns(t).value)
  {
    var u := StandardizeColumns(t).value;
    SameTextualColumns(t);
    if TextualClash(u) {
      var i, j :| 0 <= i < j < |u.columns| && ClashAt(u, i, j);
      assert TextualColumns(u)[i] == TextualColumns(t)[i] && TextualColumns(u)[j] == TextualColumns(t)[j];
      NormalizeIdempotent(t.columns[i]);
      NormalizeIdempotent(t.columns[j]);
      assert ClashAt(t, i, j);
      assert false;
    }
  }

  lemma NamesFixed(t: Table)
    requires WellFormed(t) && StandardizeColumns(t).Ok?
    ensures var u := StandardizeColumns(t).value; NormalizeNames(u.columns) == u.columns
  {
    var u := StandardizeColumns(t).value;
    forall c | 0 <= c < |u.columns|
      ensures NormalizeName(u.columns[c]) == u.columns[c]
    {
      NormalizeIdempotent(t.columns[c]);
    }
  }

  lemma RowsFixed(t: Table)
    requires WellFormed(t) && StandardizeColumns(t).Ok?
    ensures var u := StandardizeColumns(t).value; CleanRows(u) == u.rows
  {
    var u := StandardizeColumns(t).value;
    SameTextualColumns(t);
    var f := TextualColumns(t);
    forall i | 0 <= i < |u.rows|
      ensures CleanRow(f, u.rows[i]) == u.rows[i]
    {
      assert u.rows[i] in CleanRows(t);
      var k :| 0 <= k < |t.rows| && CleanRows(t)[k] == u.rows[i];
      CleanRowIdempotent(f, t.rows[k]);
    }
  }
}
