/** `convert_types` (Cleaning.py): object columns go through the cell parser,
    then every numeric column has its missing cells filled with its median. */
module Convert {
  import opened Results
  import opened Tables
  import opened Coerce
  import opened Stats

  /** The cells of column `c`, top to bottom. */
  function ColumnOf(t: Table, c: nat): (col: seq<Cell>)
    requires WellFormed(t) && c < |t.columns|
    ensures |col| == |t.rows|
    ensures forall i :: 0 <= i < |t.rows| ==> col[i] == t.rows[i][c]
  {
    seq(|t.rows|, i requires 0 <= i < |t.rows| => t.rows[i][c])
  }

  /** The numbers of a column in row order: what `median()` looks at once it
      skips missing values. */
  function Present(col: seq<Cell>): (v: seq<real>)
    ensures |v| <= |col|
    ensures forall x :: x in v <==> Num(x) in col
    ensures forall x :: multiset(v)[x] == multiset(col)[Num(x)]
  {
    if |col| == 0 then []
    else
      assert col == [col[0]] + col[1..];
      var head := if col[0].Num? then [col[0].value] else [];
      var v := head + Present(col[1..]);
      assert forall x :: multiset(head)[x] == multiset([col[0]])[Num(x)];
      v
  }

  /** The median a column is filled with depends only on how often each
      number occurs in it, not on row order or on the other cells. */
  lemma MedianByCounts(a: seq<Cell>, b: seq<Cell>)
    requires forall x :: multiset(a)[Num(x)] == multiset(b)[Num(x)]
    requires |Present(a)| > 0
    ensures |Present(b)| > 0 && Median(Present(a)) == Median(Present(b))
  {
    var va, vb := Present(a), Present(b);
    assert forall x :: multiset(va)[x] == multiset(vb)[x];
    assert multiset(va) == multiset(vb);
    MedianPermutation(va, vb);
  }

  /** One row after the loop over object columns. */
  function CoerceRow(f: seq<bool>, row: Row): (r: Row)
    requires |row| == |f|
    ensures |r| == |row|
    ensures forall c :: 0 <= c < |r| ==> r[c] == if f[c] then ParseCell(row[c]) else row[c]
  {
    seq(|row|, c requires 0 <= c < |row| => if f[c] then ParseCell(row[c]) else row[c])
  }

  /** The loop `for col in df.columns: if df[col].dtype == object: ...`. */
  function Coerced(t: Table): (u: Table)
    requires WellFormed(t)
    ensures WellFormed(u) && u.columns == t.columns && |u.rows| == |t.rows|
    ensures forall i :: 0 <= i < |t.rows| ==> u.rows[i] == CoerceRow(TextualColumns(t), t.rows[i])
  {
    var f := TextualColumns(t);
    Table(t.columns, seq(|t.rows|, i requires 0 <= i < |t.rows| => CoerceRow(f, t.rows[i])))
  }

  /** The value `fillna(df[numeric_cols].median())` writes into column `c`:
      none for an object column, and none for a column with no number at all
      (its median is itself missing). */
  function FillValue(t: Table, c: nat): (o: Option<real>)
    requires WellFormed(t) && c < |t.columns|
    ensures o.Some? <==> !IsTextual(t, c) && |Present(ColumnOf(t, c))| > 0
  {
    var v := Present(ColumnOf(t, c));
    if IsTextual(t, c) || |v| == 0 then None else Some(Median(v))
  }

  function FillValues(t: Table): (fs: seq<Option<real>>)
    requires WellFormed(t)
    ensures |fs| == |t.columns|
    ensures forall c :: 0 <= c < |fs| ==> fs[c] == FillValue(t, c)
  {
    seq(|t.columns|, c requires 0 <= c < |t.columns| => FillValue(t, c))
  }

  function FillRow(fs: seq<Option<real>>, row: Row): (r: Row)
    requires |row| == |fs|
    ensures |r| == |row|
    ensures forall c :: 0 <= c < |r| ==> r[c] == if row[c].Missing? && fs[c].Some? then Num(fs[c].value) else row[c]
  {
    seq(|row|, c requires 0 <= c < |row| => if row[c].Missing? && fs[c].Some? then Num(fs[c].value) else row[c])
  }

  /** The `fillna` step on the numeric columns. */
  function Imputed(t: Table): (u: Table)
    requires WellFormed(t)
    ensures WellFormed(u) && u.columns == t.columns && |u.rows| == |t.rows|
    ensures forall i :: 0 <= i < |t.rows| ==> u.rows[i] == FillRow(FillValues(t), t.rows[i])
  {
    var fs := FillValues(t);
    Table(t.columns, seq(|t.rows|, i requires 0 <= i < |t.rows| => FillRow(fs, t.rows[i])))
  }

  /** `convert_types(df)`. A repeated label makes `df[col]` a frame, which has
      no `dtype`, so the call raises. */
  function ConvertTypes(t: Table): (r: Result<Table>)
    requires WellFormed(t)
    ensures r.Err? <==> !Distinct(t.columns)
    ensures r.Err? ==> r.error == DuplicateColumn
    ensures r.Ok? ==> WellFormed(r.value) && r.value.columns == t.columns && |r.value.rows| == |t.rows|
    ensures r.Ok? ==> forall i, c :: 0 <= i < |t.rows| && 0 <= c < |t.columns| ==>
      var q := if IsTextual(t, c) then ParseCell(t.rows[i][c]) else t.rows[i][c];
      q != Missing ==> r.value.rows[i][c] == q
  {
    if !Distinct(t.columns) then Err(DuplicateColumn) else Ok(Imputed(Coerced(t)))
  }

  /** Median imputation: in a column that holds no text after coercion and
      at least one number, no cell is missing afterwards and every cell that
      was missing now holds the median of the column's numbers; any other
      column is exactly the coerced column. */
  lemma Imputation(t: Table, c: nat)
    requires WellFormed(t) && ConvertTypes(t).Ok? && c < |t.columns|
    ensures var w := Coerced(t); var u := ConvertTypes(t).value;
      if !IsTextual(w, c) && |Present(ColumnOf(w, c))| > 0 then
        forall i :: 0 <= i < |t.rows| ==>
          && u.rows[i][c] != Missing
          && (w.rows[i][c] == Missing ==> u.rows[i][c] == Num(Median(Present(ColumnOf(w, c)))))
          && (w.rows[i][c] != Missing ==> u.rows[i][c] == w.rows[i][c])
      else
        forall i :: 0 <= i < |t.rows| ==> u.rows[i][c] == w.rows[i][c]
  {
    var w := Coerced(t);
    assert ConvertTypes(t).value == Imputed(w);
    forall i | 0 <= i < |t.rows| {
      ImputedCell(w, c, i);
    }
  }

  /** One cell of the `fillna` step. */
  lemma ImputedCell(w: Table, c: nat, i: nat)
    requires WellFormed(w) && c < |w.columns| && i < |w.rows|
    ensures var o := Imputed(w).rows[i][c]; var f := FillValue(w, c);
      if f.Some? then
        && o != Missing
        && (w.rows[i][c] == Missing ==> o == Num(f.value))
        && (w.rows[i][c] != Missing ==> o == w.rows[i][c])
      else o == w.rows[i][c]
  {
    assert FillValues(w)[c] == FillValue(w, c);
  }

  /** Imputation only turns missing cells into numbers. */
  lemma TextualAfterFill(w: Table, c: nat)
    requires WellFormed(w) && c < |w.columns|
    ensures IsTextual(Imputed(w), c) <==> IsTextual(w, c)
  {
    var u := Imputed(w);
    if IsTextual(u, c) {
      var i :| 0 <= i < |u.rows| && u.rows[i][c].Text?;
      assert w.rows[i][c].Text?;
    }
    if IsTextual(w, c) {
      var i :| 0 <= i < |w.rows| && w.rows[i][c].Text?;
      assert u.rows[i][c].Text?;
    }
  }

  /** Coercion only parses columns that already held text, so a column that
      holds text afterwards held text before. */
  lemma TextualAfterCoerce(t: Table, c: nat)
    requires WellFormed(t) && c < |t.columns|
    ensures IsTextual(Coerced(t), c) ==> IsTextual(t, c)
  {
  }

  /** Converting a converted frame changes nothing. */
  lemma ConvertIdempotent(t: Table)
    requires WellFormed(t) && ConvertTypes(t).Ok?
    ensures ConvertTypes(ConvertTypes(t).value) == ConvertTypes(t)
  {
    var u := ConvertTypes(t).value;
    CoerceFixed(t);
    FillFixed(t);
  }

  /** The second pass of the parser leaves the converted frame as it is. */
  lemma CoerceFixed(t: Table)
    requires WellFormed(t) && ConvertTypes(t).Ok?
    ensures Coerced(ConvertTypes(t).value) == ConvertTypes(t).value
  {
    var w := Coerced(t);
    var u := ConvertTypes(t).value;
    var f := TextualColumns(u);
    forall i | 0 <= i < |u.rows|
      ensures CoerceRow(f, u.rows[i]) == u.rows[i]
    {
      forall c | 0 <= c < |u.columns| && f[c]
        ensures ParseCell(u.rows[i][c]) == u.rows[i][c]
      {
        TextualAfterFill(w, c);
        TextualAfterCoerce(t, c);
        assert u.rows[i][c] == w.rows[i][c] == ParseCell(t.rows[i][c]);
        ParseCellIdempotent(t.rows[i][c]);
      }
    }
  }

  /** The second `fillna` finds nothing left to fill. */
  lemma FillFixed(t: Table)
    requires WellFormed(t) && ConvertTypes(t).Ok?
    ensures Imputed(ConvertTypes(t).value) == ConvertTypes(t).value
  {
    var w := Coerced(t);
    var u := ConvertTypes(t).value;
    var fs := FillValues(u);
    forall i | 0 <= i < |u.rows|
      ensures FillRow(fs, u.rows[i]) == u.rows[i]
    {
      forall c | 0 <= c < |u.columns| && u.rows[i][c].Missing?
        ensures fs[c].None?
      {
        FillNone(w, c);
      }
    }
  }

  /** A cell still missing after imputation lies in a column the next
      imputation does not fill either. */
  lemma FillNone(w: Table, c: nat)
    requires WellFormed(w) && c < |w.columns|
    requires exists i :: 0 <= i < |w.rows| && Imputed(w).rows[i][c].Missing?
    ensures FillValue(Imputed(w), c).None?
  {
    var u := Imputed(w);
    TextualAfterFill(w, c);
    if !IsTextual(w, c) {
      assert FillValue(w, c).None?;
      assert ColumnOf(u, c) == ColumnOf(w, c);
    }
  }
}
