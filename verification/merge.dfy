/** `merge_dataframes` (Cleaning.py): fold the loaded frames into one, each
    step an outer join on the resolved key or, without a key, a concatenation. */
module Merge {
  import opened Results
  import opened Tables
  import opened Keys
  import opened Join

  /** Positions of the named columns. */
  function Positions(cols: seq<string>, names: seq<string>): (idx: seq<nat>)
    requires forall k :: 0 <= k < |names| ==> names[k] in cols
    ensures |idx| == |names|
    ensures forall k :: 0 <= k < |idx| ==> idx[k] < |cols| && cols[idx[k]] == names[k]
  {
    seq(|names|, k requires 0 <= k < |names| => IndexOf(cols, names[k]))
  }

  /** Positions, from `from` on, of the columns not named in `keys`, in order. */
  function Carried(cols: seq<string>, keys: seq<string>, from: nat): (idx: seq<nat>)
    requires from <= |cols|
    ensures forall k :: 0 <= k < |idx| ==> from <= idx[k] < |cols| && cols[idx[k]] !in keys
    decreases |cols| - from
  {
    if from == |cols| then []
    else (if cols[from] !in keys then [from] else []) + Carried(cols, keys, from + 1)
  }

  /** The carried positions ascend, and every non-key position is among them. */
  lemma CarriedExact(cols: seq<string>, keys: seq<string>, from: nat)
    requires from <= |cols|
    ensures var idx := Carried(cols, keys, from);
      && (forall k, m :: 0 <= k < m < |idx| ==> idx[k] < idx[m])
      && (forall c :: from <= c < |cols| && cols[c] !in keys ==> c in idx)
  {
    CarriedAscending(cols, keys, from);
    CarriedComplete(cols, keys, from);
  }

  predicate Ascending(idx: seq<nat>) {
    forall k, m :: 0 <= k < m < |idx| ==> idx[k] < idx[m]
  }

  lemma {:induction false} CarriedAscending(cols: seq<string>, keys: seq<string>, from: nat)
    requires from <= |cols|
    ensures Ascending(Carried(cols, keys, from))
    decreases |cols| - from
  {
    if from < |cols| {
      CarriedAscending(cols, keys, from + 1);
      var head: seq<nat> := if cols[from] !in keys then [from] else [];
      var rest := Carried(cols, keys, from + 1);
      var idx := head + rest;
      assert idx == Carried(cols, keys, from);
      forall k, m | 0 <= k < m < |idx|
        ensures idx[k] < idx[m]
      {
        if k < |head| {
          assert idx[k] == head[k] == from;
          assert idx[m] == rest[m - |head|] >= from + 1;
        } else {
          assert idx[k] == rest[k - |head|] && idx[m] == rest[m - |head|];
          assert rest[k - |head|] < rest[m - |head|];
        }
      }
    }
  }

  lemma {:induction false} CarriedComplete(cols: seq<string>, keys: seq<string>, from: nat)
    requires from <= |cols|
    ensures forall c :: from <= c < |cols| && cols[c] !in keys ==> c in Carried(cols, keys, from)
    decreases |cols| - from
  {
    if from < |cols| {
      CarriedComplete(cols, keys, from + 1);
      var head: seq<nat> := if cols[from] !in keys then [from] else [];
      var rest := Carried(cols, keys, from + 1);
      assert Carried(cols, keys, from) == head + rest;
    }
  }

  /** The positional join plan for joining `r` onto `l` on `keys`. */
  function PlanFor(l: Table, r: Table, keys: seq<string>): (p: Plan)
    requires Within(keys, l.columns) && Within(keys, r.columns) && Distinct(keys)
    ensures PlanOk(p)
    ensures p.lw == |l.columns| && p.rw == |r.columns| && p.rn == Carried(r.columns, keys, 0)
    ensures p.lk == Positions(l.columns, keys) && p.rk == Positions(r.columns, keys)
  {
    var p := Plan(|l.columns|, |r.columns|, Positions(l.columns, keys), Positions(r.columns, keys), Carried(r.columns, keys, 0));
    assert Distinct(p.lk) by {
      forall a, b | 0 <= a < b < |p.lk|
        ensures p.lk[a] != p.lk[b]
      {
        assert l.columns[p.lk[a]] == keys[a] && l.columns[p.lk[b]] == keys[b];
      }
    }
    p
  }

  /** `suffixes=("", f"_{name}")`: a carried right column whose label the
      left frame already has gets `_name` appended; the left keeps its labels. */
  function Suffixed(c: string, leftColumns: seq<string>, name: string): string {
    if c in leftColumns then c + "_" + name else c
  }

  /** The labels the carried right-hand columns get in the joined frame. */
  function CarriedLabels(l: Table, r: Table, keys: seq<string>, name: string): (cs: seq<string>)
    ensures var rn := Carried(r.columns, keys, 0);
      |cs| == |rn| && forall k :: 0 <= k < |rn| ==> cs[k] == Suffixed(r.columns[rn[k]], l.columns, name)
  {
    var rn := Carried(r.columns, keys, 0);
    seq(|rn|, k requires 0 <= k < |rn| => Suffixed(r.columns[rn[k]], l.columns, name))
  }

  function JoinColumns(l: Table, r: Table, keys: seq<string>, name: string): (cs: seq<string>)
    ensures |cs| >= |l.columns| && cs[..|l.columns|] == l.columns
  {
    l.columns + CarriedLabels(l, r, keys, name)
  }

  /** Column `c` of the right frame is carried and its suffixed label is taken. */
  predicate ClashOn(l: Table, r: Table, keys: seq<string>, name: string, c: string) {
    c !in keys && c in l.columns && (c + "_" + name in l.columns || c + "_" + name in r.columns)
  }

  /** The suffix produces a label that is already taken: a shared non-key
      column `c` whose `c_name` is also a column of either frame. */
  predicate SuffixClash(l: Table, r: Table, keys: seq<string>, name: string) {
    exists c :: c in r.columns && ClashOn(l, r, keys, name, c)
  }

  /** `left.merge(right, on=list(keys), how="outer", suffixes=("", f"_{name}"))`. */
  function OuterJoin(l: Table, r: Table, keys: seq<string>, name: string): (res: Result<Table>)
    requires Valid(l) && Valid(r) && Distinct(keys) && Within(keys, l.columns) && Within(keys, r.columns)
    ensures res.Err? <==> SuffixClash(l, r, keys, name)
    ensures res.Err? ==> res.error == ColumnClash
    ensures res.Ok? ==> Valid(res.value)
    ensures res.Ok? ==> |res.value.columns| >= |l.columns| && res.value.columns[..|l.columns|] == l.columns
    ensures res.Ok? ==> forall c :: c in r.columns ==> c in res.value.columns
    ensures res.Ok? ==> forall c :: c in r.columns && c !in keys ==> Suffixed(c, l.columns, name) in res.value.columns
  {
    var cols := JoinColumns(l, r, keys, name);
    var p := PlanFor(l, r, keys);
    ClashExact(l, r, keys, name);
    if !Distinct(cols) then Err(ColumnClash)
    else
      JoinRowsFit(p, l.rows, r.rows);
      RightColumnsKept(l, r, keys, name);
      Ok(Table(cols, JoinRows(p, l.rows, r.rows)))
  }

  /** Each right-hand label reaches the joined header: a key through the left
      frame, any other column under its own or its suffixed label. */
  lemma RightColumnsKept(l: Table, r: Table, keys: seq<string>, name: string)
    requires Valid(l) && Valid(r) && Within(keys, l.columns) && Within(keys, r.columns)
    ensures forall c :: c in r.columns && c !in keys ==> Suffixed(c, l.columns, name) in JoinColumns(l, r, keys, name)
    ensures forall c :: c in r.columns ==> c in JoinColumns(l, r, keys, name)
  {
    var cols := JoinColumns(l, r, keys, name);
    var rn := Carried(r.columns, keys, 0);
    forall c | c in r.columns
      ensures c !in keys ==> Suffixed(c, l.columns, name) in cols
      ensures c in cols
    {
      if c in keys {
        var k := IndexOf(keys, c);
        LeftLabelKept(l, cols, c);
      } else {
        var k := CarriedAt(l, r, keys, name, c);
        if c in l.columns {
          LeftLabelKept(l, cols, c);
        }
      }
    }
  }

  lemma LeftLabelKept(l: Table, cols: seq<string>, c: string)
    requires c in l.columns && |cols| >= |l.columns| && cols[..|l.columns|] == l.columns
    ensures c in cols
  {
    var i := IndexOf(l.columns, c);
    assert cols[i] == l.columns[i];
  }

  /** Where a carried right column lands in the joined header. */
  lemma CarriedAt(l: Table, r: Table, keys: seq<string>, name: string, c: string) returns (k: nat)
    requires Distinct(r.columns) && c in r.columns && c !in keys
    ensures var rn := Carried(r.columns, keys, 0);
      k < |rn| && rn[k] == IndexOf(r.columns, c)
    ensures JoinColumns(l, r, keys, name)[|l.columns| + k] == Suffixed(c, l.columns, name)
  {
    var rn := Carried(r.columns, keys, 0);
    var i := IndexOf(r.columns, c);
    CarriedExact(r.columns, keys, 0);
    assert i in rn;
    k :| 0 <= k < |rn| && rn[k] == i;
  }

  lemma SuffixCancel(x: string, y: string, s: string)
    requires x + s == y + s
    ensures x == y
  {
    assert |x| == |y|;
    assert x == (x + s)[..|x|];
    assert y == (y + s)[..|y|];
  }

  /** The joined header repeats a label exactly when the suffix clashes. */
  lemma ClashExact(l: Table, r: Table, keys: seq<string>, name: string)
    requires Valid(l) && Valid(r) && Within(keys, l.columns) && Within(keys, r.columns)
    ensures !Distinct(JoinColumns(l, r, keys, name)) <==> SuffixClash(l, r, keys, name)
  {
    if SuffixClash(l, r, keys, name) {
      var c :| c in r.columns && ClashOn(l, r, keys, name, c);
      ClashRepeats(l, r, keys, name, c);
    }
    if !SuffixClash(l, r, keys, name) {
      DistinctUnlessClash(l, r, keys, name);
    }
  }

  lemma ClashRepeats(l: Table, r: Table, keys: seq<string>, name: string, c: string)
    requires Valid(l) && Valid(r) && Within(keys, l.columns) && Within(keys, r.columns)
    requires c in r.columns && ClashOn(l, r, keys, name, c)
    ensures !Distinct(JoinColumns(l, r, keys, name))
  {
    var cols := JoinColumns(l, r, keys, name);
    var n := |l.columns|;
    var d := c + "_" + name;
    var k := CarriedAt(l, r, keys, name, c);
    assert cols[n + k] == d;
    if d in l.columns {
      var a := IndexOf(l.columns, d);
      assert cols[a] == d;
    } else {
      assert d !in keys;
      var k2 := CarriedAt(l, r, keys, name, d);
      assert cols[n + k2] == d;
      assert |d| > |c|;
      assert k != k2;
    }
  }

  lemma DistinctUnlessClash(l: Table, r: Table, keys: seq<string>, name: string)
    requires Valid(l) && Valid(r) && Within(keys, l.columns) && Within(keys, r.columns)
    requires !SuffixClash(l, r, keys, name)
    ensures Distinct(JoinColumns(l, r, keys, name))
  {
    var cols := JoinColumns(l, r, keys, name);
    forall a, b | 0 <= a < b < |cols|
      ensures cols[a] != cols[b]
    {
      if cols[a] == cols[b] {
        RepeatClash(l, r, keys, name, a, b);
      }
    }
  }

  /** A label repeated in the joined header comes from a suffix clash. */
  lemma RepeatClash(l: Table, r: Table, keys: seq<string>, name: string, a: nat, b: nat)
    requires Valid(l) && Valid(r)
    requires a < b < |JoinColumns(l, r, keys, name)|
    requires JoinColumns(l, r, keys, name)[a] == JoinColumns(l, r, keys, name)[b]
    ensures SuffixClash(l, r, keys, name)
  {
    var labels := CarriedLabels(l, r, keys, name);
    var cols := JoinColumns(l, r, keys, name);
    var n := |l.columns|;
    assert cols == l.columns + labels;
    assert |labels| == |Carried(r.columns, keys, 0)|;
    if b < n {
      assert false;
    } else if a < n {
      assert cols[a] == l.columns[a] && cols[b] == labels[b - n];
      LeftRightRepeat(l, r, keys, name, a, b - n);
    } else {
      assert cols[a] == labels[a - n] && cols[b] == labels[b - n];
      RightRightRepeat(l, r, keys, name, a - n, b - n);
    }
  }

  /** A left label equal to a carried label: the carried column is shared and suffixed. */
  lemma LeftRightRepeat(l: Table, r: Table, keys: seq<string>, name: string, a: nat, k: nat)
    requires Valid(l) && Valid(r)
    requires a < |l.columns| && k < |Carried(r.columns, keys, 0)|
    requires l.columns[a] == CarriedLabels(l, r, keys, name)[k]
    ensures SuffixClash(l, r, keys, name)
  {
    var rn := Carried(r.columns, keys, 0);
    var d := r.columns[rn[k]];
    assert d in r.columns;
    assert ClashOn(l, r, keys, name, d);
  }

  /** Two carried labels equal: exactly one of the two columns is shared, and
      its suffixed label is the other column's name. */
  lemma RightRightRepeat(l: Table, r: Table, keys: seq<string>, name: string, a: nat, b: nat)
    requires Valid(l) && Valid(r)
    requires a < b < |Carried(r.columns, keys, 0)|
    requires CarriedLabels(l, r, keys, name)[a] == CarriedLabels(l, r, keys, name)[b]
    ensures SuffixClash(l, r, keys, name)
  {
    var rn := Carried(r.columns, keys, 0);
    var d := r.columns[rn[b]];
    var e := r.columns[rn[a]];
    CarriedAscending(r.columns, keys, 0);
    assert rn[a] < rn[b];
    assert e != d;
    CarriedPair(l, r, keys, name, e, d);
  }

  /** Two different carried columns whose labels coincide after suffixing. */
  lemma CarriedPair(l: Table, r: Table, keys: seq<string>, name: string, e: string, d: string)
    requires e != d && e in r.columns && d in r.columns && e !in keys && d !in keys
    requires Suffixed(e, l.columns, name) == Suffixed(d, l.columns, name)
    ensures SuffixClash(l, r, keys, name)
  {
    if e in l.columns && d in l.columns {
      assert e + "_" + name == e + ("_" + name) && d + "_" + name == d + ("_" + name);
      SuffixCancel(e, d, "_" + name);
    } else if e in l.columns {
      assert ClashOn(l, r, keys, name, e);
    } else {
      assert ClashOn(l, r, keys, name, d);
    }
  }

  /** Every left row survives as the front of some joined row. */
  lemma OuterJoinKeepsLeft(l: Table, r: Table, keys: seq<string>, name: string)
    requires Valid(l) && Valid(r) && Distinct(keys) && Within(keys, l.columns) && Within(keys, r.columns)
    requires !SuffixClash(l, r, keys, name)
    ensures var j := OuterJoin(l, r, keys, name).value;
      forall row :: row in l.rows ==> exists o :: o in j.rows && |o| >= |l.columns| && o[..|l.columns|] == row
  {
    var p := PlanFor(l, r, keys);
    JoinKeepsLeft(p, l.rows, r.rows);
    forall row | row in l.rows
      ensures |row| == |l.columns|
    {
      var i :| 0 <= i < |l.rows| && l.rows[i] == row;
    }
  }

  /** The joined frame has, for each left row, one row per right row it
      joins with on the keys (at least one), plus one per right row that
      joins with no left row: duplicates on either side multiply. */
  lemma OuterJoinRowCount(l: Table, r: Table, keys: seq<string>, name: string)
    requires Valid(l) && Valid(r) && Distinct(keys) && Within(keys, l.columns) && Within(keys, r.columns)
    requires !SuffixClash(l, r, keys, name)
    ensures var p := PlanFor(l, r, keys);
      |OuterJoin(l, r, keys, name).value.rows| == LeftOutputs(p, l.rows, r.rows) + UnmatchedCount(p, l.rows, r.rows)
  {
    JoinRowsCount(PlanFor(l, r, keys), l.rows, r.rows);
  }

  /** Joined row `o` holds right row `row`: its key cells under the key
      labels, and its other cells under their (possibly suffixed) labels. */
  predicate HoldsRightRow(l: Table, r: Table, keys: seq<string>, name: string, j: Table, o: Row, row: Row) {
    && |o| == |j.columns| && |row| == |r.columns|
    && (forall x :: x in keys ==> x in j.columns && x in r.columns && Get(j, o, x) == Get(r, row, x))
    && (forall c :: c in r.columns && c !in keys ==>
          Suffixed(c, l.columns, name) in j.columns && Get(j, o, Suffixed(c, l.columns, name)) == Get(r, row, c))
  }

  /** Every key value of the right frame appears in the joined frame, with
      the right row's other cells under their (possibly suffixed) labels. */
  lemma OuterJoinKeepsRight(l: Table, r: Table, keys: seq<string>, name: string)
    requires Valid(l) && Valid(r) && Distinct(keys) && Within(keys, l.columns) && Within(keys, r.columns)
    requires !SuffixClash(l, r, keys, name)
    ensures var j := OuterJoin(l, r, keys, name).value;
      forall i :: 0 <= i < |r.rows| ==> exists o :: o in j.rows && HoldsRightRow(l, r, keys, name, j, o, r.rows[i])
  {
    var j := OuterJoin(l, r, keys, name).value;
    forall i | 0 <= i < |r.rows|
      ensures exists o :: o in j.rows && HoldsRightRow(l, r, keys, name, j, o, r.rows[i])
    {
      var o := RightRowKept(l, r, keys, name, i);
    }
  }

  lemma RightRowKept(l: Table, r: Table, keys: seq<string>, name: string, i: nat) returns (o: Row)
    requires Valid(l) && Valid(r) && Distinct(keys) && Within(keys, l.columns) && Within(keys, r.columns)
    requires !SuffixClash(l, r, keys, name) && i < |r.rows|
    ensures var j := OuterJoin(l, r, keys, name).value;
      o in j.rows && HoldsRightRow(l, r, keys, name, j, o, r.rows[i])
  {
    var j := OuterJoin(l, r, keys, name).value;
    var p := PlanFor(l, r, keys);
    var row := r.rows[i];
    assert row in r.rows;
    JoinKeepsRight(p, l.rows, r.rows);
    o :| o in j.rows && |o| >= p.lw && o[p.lw..] == Pick(row, p.rn) && Pick(o, p.lk) == Pick(row, p.rk);
    var oi :| 0 <= oi < |j.rows| && j.rows[oi] == o;
    KeysCarried(l, r, keys, name, j, o, row);
    CellsCarried(l, r, keys, name, j, o, row);
  }

  lemma KeysCarried(l: Table, r: Table, keys: seq<string>, name: string, j: Table, o: Row, row: Row)
    requires Valid(l) && Valid(r) && Distinct(keys) && Within(keys, l.columns) && Within(keys, r.columns)
    requires j.columns == JoinColumns(l, r, keys, name) && |o| == |j.columns| && |row| == |r.columns|
    requires Pick(o, PlanFor(l, r, keys).lk) == Pick(row, PlanFor(l, r, keys).rk)
    ensures forall x :: x in keys ==> Get(j, o, x) == Get(r, row, x)
  {
    var p := PlanFor(l, r, keys);
    forall x | x in keys
      ensures Get(j, o, x) == Get(r, row, x)
    {
      var k := IndexOf(keys, x);
      IndexOfAppend(l.columns, j.columns[|l.columns|..], x);
      assert j.columns == l.columns + j.columns[|l.columns|..];
      assert Pick(o, p.lk)[k] == Pick(row, p.rk)[k];
    }
  }

  lemma CellsCarried(l: Table, r: Table, keys: seq<string>, name: string, j: Table, o: Row, row: Row)
    requires Valid(l) && Valid(r) && Distinct(keys) && Within(keys, l.columns) && Within(keys, r.columns)
    requires j.columns == JoinColumns(l, r, keys, name) && Distinct(j.columns)
    requires forall c :: c in r.columns && c !in keys ==> Suffixed(c, l.columns, name) in j.columns
    requires |o| == |j.columns| && |row| == |r.columns|
    requires o[|l.columns|..] == Pick(row, PlanFor(l, r, keys).rn)
    ensures forall c :: c in r.columns && c !in keys ==> Get(j, o, Suffixed(c, l.columns, name)) == Get(r, row, c)
  {
    var rn := PlanFor(l, r, keys).rn;
    var n := |l.columns|;
    forall c | c in r.columns && c !in keys
      ensures Get(j, o, Suffixed(c, l.columns, name)) == Get(r, row, c)
    {
      var k := CarriedAt(l, r, keys, name, c);
      IndexOfDistinct(j.columns, n + k);
      assert o[n + k] == o[n..][k];
    }
  }

  /** The labels of `r` that `l` lacks, in `r`'s order. */
  function NewColumns(rc: seq<string>, lc: seq<string>): (cs: seq<string>)
    ensures forall c :: c in cs <==> c in rc && c !in lc
    ensures Distinct(rc) ==> Distinct(cs)
  {
    if |rc| == 0 then []
    else
      assert rc == [rc[0]] + rc[1..];
      (if rc[0] !in lc then [rc[0]] else []) + NewColumns(rc[1..], lc)
  }

  /** `r`'s row laid out under the header `cols`, missing where `r` has no such column. */
  function Align(r: Table, row: Row, cols: seq<string>): (o: Row)
    requires |row| == |r.columns|
    ensures |o| == |cols|
    ensures forall k :: 0 <= k < |cols| ==> o[k] == if cols[k] in r.columns then Get(r, row, cols[k]) else Missing
  {
    seq(|cols|, k requires 0 <= k < |cols| => if cols[k] in r.columns then Get(r, row, cols[k]) else Missing)
  }

  /** `pd.concat([l, r], ignore_index=True, sort=False)`. */
  function Concat(l: Table, r: Table): (j: Table)
    requires Valid(l) && Valid(r)
    ensures Valid(j)
    ensures |j.columns| >= |l.columns| && j.columns[..|l.columns|] == l.columns
    ensures forall c :: c in j.columns <==> c in l.columns || c in r.columns
    ensures |j.rows| == |l.rows| + |r.rows|
    ensures forall i :: 0 <= i < |l.rows| ==> j.rows[i] == l.rows[i] + Blank(|j.columns| - |l.columns|)
    ensures forall i :: 0 <= i < |r.rows| ==> j.rows[|l.rows| + i] == Align(r, r.rows[i], j.columns)
  {
    var extra := NewColumns(r.columns, l.columns);
    var cols := l.columns + extra;
    DistinctJoin(l.columns, extra);
    var top := seq(|l.rows|, i requires 0 <= i < |l.rows| => l.rows[i] + Blank(|extra|));
    var bottom := seq(|r.rows|, i requires 0 <= i < |r.rows| => Align(r, r.rows[i], cols));
    assert Fits(top, |cols|) by {
      forall i | 0 <= i < |top|
        ensures |top[i]| == |cols|
      {
        assert top[i] == l.rows[i] + Blank(|extra|);
        assert |l.rows[i]| == |l.columns|;
      }
    }
    FitsAppend(top, bottom, |cols|);
    Table(cols, top + bottom)
  }

  /** Two label lists without repeats and without common labels join into one without repeats. */
  lemma DistinctJoin(a: seq<string>, b: seq<string>)
    requires Distinct(a) && Distinct(b) && forall x :: x in b ==> x !in a
    ensures Distinct(a + b)
  {
    var ab := a + b;
    forall p, q | 0 <= p < q < |ab|
      ensures ab[p] != ab[q]
    {
      if p < |a| && q >= |a| {
        assert ab[q] == b[q - |a|] && ab[q] in b;
      } else if p >= |a| {
        assert ab[p] == b[p - |a|] && ab[q] == b[q - |a|];
      }
    }
  }

  lemma FitsAppend(a: seq<Row>, b: seq<Row>, w: nat)
    requires Fits(a, w) && Fits(b, w)
    ensures Fits(a + b, w)
  {
    forall i | 0 <= i < |a + b|
      ensures |(a + b)[i]| == w
    {
      if i >= |a| {
        assert (a + b)[i] == b[i - |a|];
      }
    }
  }

  /** The first rows of the concatenation are the left rows under the left
      labels, with nothing under the labels only the right frame has. */
  lemma ConcatKeepsLeft(l: Table, r: Table)
    requires Valid(l) && Valid(r)
    ensures var j := Concat(l, r);
      forall i, c :: 0 <= i < |l.rows| && c in j.columns ==>
        Get(j, j.rows[i], c) == if c in l.columns then Get(l, l.rows[i], c) else Missing
  {
    var j := Concat(l, r);
    forall i, c | 0 <= i < |l.rows| && c in j.columns
      ensures Get(j, j.rows[i], c) == if c in l.columns then Get(l, l.rows[i], c) else Missing
    {
      LeftCell(l, r, i, c);
    }
  }

  /** One cell of a left row in the concatenation. */
  lemma LeftCell(l: Table, r: Table, i: nat, c: string)
    requires Valid(l) && Valid(r) && i < |l.rows| && c in Concat(l, r).columns
    ensures var j := Concat(l, r);
      Get(j, j.rows[i], c) == if c in l.columns then Get(l, l.rows[i], c) else Missing
  {
    var j := Concat(l, r);
    var n := |l.columns|;
    assert |l.rows[i]| == n;
    assert j.rows[i] == l.rows[i] + Blank(|j.columns| - n);
    if c in l.columns {
      IndexOfAppend(l.columns, j.columns[n..], c);
      assert j.columns == l.columns + j.columns[n..];
    }
  }

  /** The remaining rows are the right rows under the right labels, with
      nothing under the labels only the left frame has. */
  lemma ConcatKeepsRight(l: Table, r: Table)
    requires Valid(l) && Valid(r)
    ensures var j := Concat(l, r);
      forall i, c :: 0 <= i < |r.rows| && c in j.columns ==>
        Get(j, j.rows[|l.rows| + i], c) == if c in r.columns then Get(r, r.rows[i], c) else Missing
  {
  }

  /** One step of the loop: join on the resolved key, or append the rows. */
  function MergeStep(l: Table, r: Table, name: string): (res: Result<Table>)
    requires Valid(l) && Valid(r)
    ensures res.Ok? ==> Valid(res.value)
    ensures res.Ok? ==> |res.value.columns| >= |l.columns| && res.value.columns[..|l.columns|] == l.columns
    ensures res.Ok? ==> forall c :: c in r.columns ==> c in res.value.columns
    ensures res.Err? ==> res.error == ColumnClash && FindMergeKeys(l.columns, r.columns).Some?
    ensures FindMergeKeys(l.columns, r.columns).None? ==> res.Ok? && |res.value.rows| == |l.rows| + |r.rows|
  {
    match FindMergeKeys(l.columns, r.columns)
    case Some(keys) =>
      KeyPriorityDistinct();
      OuterJoin(l, r, keys, name)
    case None => Ok(Concat(l, r))
  }

  /** A keyed step keeps every left row at the front of some merged row and
      every right row's key values and cells somewhere in the merged frame. */
  lemma MergeStepKeepsRows(l: Table, r: Table, name: string)
    requires Valid(l) && Valid(r) && MergeStep(l, r, name).Ok? && FindMergeKeys(l.columns, r.columns).Some?
    ensures var keys := FindMergeKeys(l.columns, r.columns).value;
      var j := MergeStep(l, r, name).value;
      && (forall row :: row in l.rows ==> exists o :: o in j.rows && |o| >= |l.columns| && o[..|l.columns|] == row)
      && (forall i :: 0 <= i < |r.rows| ==> exists o :: o in j.rows && HoldsRightRow(l, r, keys, name, j, o, r.rows[i]))
  {
    var keys := FindMergeKeys(l.columns, r.columns).value;
    KeyPriorityDistinct();
    OuterJoinKeepsLeft(l, r, keys, name);
    OuterJoinKeepsRight(l, r, keys, name);
  }

  /** The loop over the remaining frames. */
  function MergeFold(acc: Table, rest: seq<(string, Table)>): (res: Result<Table>)
    requires Valid(acc) && forall k :: 0 <= k < |rest| ==> Valid(rest[k].1)
    ensures |rest| == 0 ==> res == Ok(acc)
    ensures res.Err? ==> res.error == ColumnClash
    ensures res.Ok? ==> Valid(res.value)
    ensures res.Ok? ==> |res.value.columns| >= |acc.columns| && res.value.columns[..|acc.columns|] == acc.columns
    ensures res.Ok? ==> forall k, c :: 0 <= k < |rest| && c in rest[k].1.columns ==> c in res.value.columns
    decreases |rest|
  {
    if |rest| == 0 then Ok(acc)
    else
      match MergeStep(acc, rest[0].1, rest[0].0)
      case Err(e) => Err(e)
      case Ok(next) =>
        var res := MergeFold(next, rest[1..]);
        if res.Ok? then
          PrefixChain(acc.columns, next.columns, res.value.columns);
          assert forall k :: 1 <= k < |rest| ==> rest[k] == rest[1..][k - 1];
          res
        else res
  }

  /** A header that starts with a header that starts with `a` starts with
      `a`, and holds every label of the middle one. */
  lemma PrefixChain(a: seq<string>, b: seq<string>, c: seq<string>)
    requires |b| >= |a| && b[..|a|] == a && |c| >= |b| && c[..|b|] == b
    ensures |c| >= |a| && c[..|a|] == a
    ensures forall x :: x in b ==> x in c
  {
    assert c[..|a|] == c[..|b|][..|a|];
    forall x | x in b
      ensures x in c
    {
      var i :| 0 <= i < |b| && b[i] == x;
      assert c[i] == c[..|b|][i];
    }
  }

  /** `merge_dataframes(frames)`, the frames in the dictionary's order. The
      closing `sort_index().reset_index(drop=True)` renumbers rows already
      numbered 0..n-1, so it changes nothing. */
  function MergeDataframes(frames: seq<(string, Table)>): (res: Result<Table>)
    requires forall k :: 0 <= k < |frames| ==> Valid(frames[k].1)
    ensures res.Err? && res.error == NoDatasets <==> |frames| == 0
    ensures |frames| == 1 ==> res == Ok(frames[0].1)
    ensures res.Ok? ==> Valid(res.value)
    ensures res.Ok? ==> |res.value.columns| >= |frames[0].1.columns| && res.value.columns[..|frames[0].1.columns|] == frames[0].1.columns
    ensures res.Ok? ==> forall k, c :: 0 <= k < |frames| && c in frames[k].1.columns ==> c in res.value.columns
  {
    if |frames| == 0 then Err(NoDatasets)
    else
      var res := MergeFold(frames[0].1, frames[1..]);
      if res.Ok? then
        PrefixChain(frames[0].1.columns, frames[0].1.columns, res.value.columns);
        assert forall k :: 1 <= k < |frames| ==> frames[k] == frames[1..][k - 1];
        res
      else res
  }
}
