/** The data frame as the pipeline sees it: named columns and rows of tagged cells. */
module Tables {

  /** One cell: pandas' missing marker (NaN / pd.NA), a number, or a string. */
  datatype Cell = Missing | Num(value: real) | Text(text: string)

  type Row = seq<Cell>

  /** A data frame: column labels in order, and rows holding one cell per label. */
  datatype Table = Table(columns: seq<string>, rows: seq<Row>)

  /** Every row is exactly as wide as the header. */
  predicate WellFormed(t: Table) {
    forall i :: 0 <= i < |t.rows| ==> |t.rows[i]| == |t.columns|
  }

  predicate Distinct<T(==)>(s: seq<T>) {
    forall i, j :: 0 <= i < j < |s| ==> s[i] != s[j]
  }

  /** A frame whose labels are unique, so that `df[name]` selects one column. */
  predicate Valid(t: Table) {
    WellFormed(t) && Distinct(t.columns)
  }

  /** pandas holds a column as `object` dtype exactly when a string occurs in it. */
  predicate IsTextual(t: Table, c: nat)
    requires WellFormed(t) && c < |t.columns|
  {
    exists i :: 0 <= i < |t.rows| && t.rows[i][c].Text?
  }

  /** Which columns are of object dtype. */
  function TextualColumns(t: Table): (f: seq<bool>)
    requires WellFormed(t)
    ensures |f| == |t.columns|
    ensures forall c :: 0 <= c < |f| ==> f[c] == IsTextual(t, c)
  {
    seq(|t.columns|, c requires 0 <= c < |t.columns| => IsTextual(t, c))
  }

  /** Position of the first occurrence of `x` in `s`. */
  function IndexOf<T(==)>(s: seq<T>, x: T): (k: nat)
    requires x in s
    ensures k < |s| && s[k] == x
    ensures forall j :: 0 <= j < k ==> s[j] != x
  {
    if s[0] == x then 0 else 1 + IndexOf(s[1..], x)
  }

  /** Appending never moves the first occurrence of something already present. */
  lemma IndexOfAppend<T>(a: seq<T>, b: seq<T>, x: T)
    requires x in a
    ensures IndexOf(a + b, x) == IndexOf(a, x)
  {
    var i := IndexOf(a + b, x);
    var j := IndexOf(a, x);
    assert (a + b)[j] == x;
  }

  /** In a sequence without repeats, the first occurrence of `s[i]` is `i`. */
  lemma IndexOfDistinct<T>(s: seq<T>, i: nat)
    requires Distinct(s) && i < |s|
    ensures IndexOf(s, s[i]) == i
  {
  }

  /** The cell of `row` under the label `x`. */
  function Get(t: Table, row: Row, x: string): Cell
    requires x in t.columns && |row| == |t.columns|
  {
    row[IndexOf(t.columns, x)]
  }

  /** `n` missing cells. */
  function Blank(n: nat): (r: Row)
    ensures |r| == n && forall i :: 0 <= i < n ==> r[i] == Missing
  {
    seq(n, _ => Missing)
  }
}
