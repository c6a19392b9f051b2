/** The row side of `DataFrame.merge(..., how="outer")`, on positions: which
    cells form the key on each side and which right-hand cells are carried. */
module Join {
  import opened Tables

  /** The cells of `row` at the given positions (missing past its end). */
  function Pick(row: Row, idx: seq<nat>): (r: Row)
    ensures |r| == |idx|
    ensures forall k :: 0 <= k < |idx| && idx[k] < |row| ==> r[k] == row[idx[k]]
  {
    seq(|idx|, k requires 0 <= k < |idx| => if idx[k] < |row| then row[idx[k]] else Missing)
  }

  /** Widths of the two sides, key positions on the left (`lk`) and right
      (`rk`), and the carried right-hand positions (`rn`). */
  datatype Plan = Plan(lw: nat, rw: nat, lk: seq<nat>, rk: seq<nat>, rn: seq<nat>)

  predicate PlanOk(p: Plan) {
    && |p.lk| == |p.rk|
    && Distinct(p.lk)
    && (forall k :: 0 <= k < |p.lk| ==> p.lk[k] < p.lw)
    && (forall k :: 0 <= k < |p.rk| ==> p.rk[k] < p.rw)
    && (forall k :: 0 <= k < |p.rn| ==> p.rn[k] < p.rw)
  }

  predicate Fits(rows: seq<Row>, w: nat) {
    forall i :: 0 <= i < |rows| ==> |rows[i]| == w
  }

  /** Rows join when their key cells are equal, missing included: pandas
      pairs missing keys with each other. */
  predicate KeyMatch(p: Plan, l: Row, r: Row) {
    Pick(l, p.lk) == Pick(r, p.rk)
  }

  /** The right rows that join with `l`, in order. */
  function Partners(p: Plan, l: Row, rs: seq<Row>): (ms: seq<Row>)
    ensures forall r :: r in ms <==> r in rs && KeyMatch(p, l, r)
  {
    if |rs| == 0 then []
    else
      assert rs == [rs[0]] + rs[1..];
      (if KeyMatch(p, l, rs[0]) then [rs[0]] else []) + Partners(p, l, rs[1..])
  }

  /** The output rows contributed by one left row: one per partner, or the
      row padded with missing cells when it has none. */
  function ForLeft(p: Plan, l: Row, rs: seq<Row>): (os: seq<Row>)
    ensures |os| > 0
  {
    var ms := Partners(p, l, rs);
    if |ms| == 0 then [l + Blank(|p.rn|)]
    else seq(|ms|, k requires 0 <= k < |ms| => l + Pick(ms[k], p.rn))
  }

  lemma ForLeftMembers(p: Plan, l: Row, rs: seq<Row>)
    ensures forall o :: o in ForLeft(p, l, rs) <==>
      (exists r :: r in rs && KeyMatch(p, l, r) && o == l + Pick(r, p.rn))
      || ((forall r :: r in rs ==> !KeyMatch(p, l, r)) && o == l + Blank(|p.rn|))
  {
    var ms := Partners(p, l, rs);
    if |ms| > 0 {
      forall o | o in ForLeft(p, l, rs)
        ensures exists r :: r in rs && KeyMatch(p, l, r) && o == l + Pick(r, p.rn)
      {
        var k :| 0 <= k < |ms| && o == ForLeft(p, l, rs)[k];
        assert ms[k] in ms;
      }
      forall o, r | r in rs && KeyMatch(p, l, r) && o == l + Pick(r, p.rn)
        ensures o in ForLeft(p, l, rs)
      {
        assert r in ms;
        var k :| 0 <= k < |ms| && ms[k] == r;
        assert ForLeft(p, l, rs)[k] == o;
      }
      assert ms[0] in rs && KeyMatch(p, l, ms[0]);
    }
  }

  /** The left rows in order, each followed by its joins. */
  function LeftRows(p: Plan, ls: seq<Row>, rs: seq<Row>): (os: seq<Row>)
    ensures |os| >= |ls|
    ensures forall o :: o in os <==> exists l :: l in ls && o in ForLeft(p, l, rs)
  {
    if |ls| == 0 then []
    else
      assert ls == [ls[0]] + ls[1..];
      ForLeft(p, ls[0], rs) + LeftRows(p, ls[1..], rs)
  }

  /** No left row joins with `r`. */
  predicate Unmatched(p: Plan, ls: seq<Row>, r: Row) {
    forall l :: l in ls ==> !KeyMatch(p, l, r)
  }

  /** A right row no left row joins with: the left key columns take its key
      cells, the other left columns are missing. */
  function RightOnly(p: Plan, r: Row): (o: Row)
    ensures |o| == p.lw + |p.rn|
  {
    KeyFront(p, r) + Pick(r, p.rn)
  }

  /** The left-hand part of a right-only row. */
  function KeyFront(p: Plan, r: Row): (f: Row)
    ensures |f| == p.lw
  {
    seq(p.lw, c requires 0 <= c < p.lw =>
      if c in p.lk then
        var j := IndexOf(p.lk, c);
        if j < |p.rk| && p.rk[j] < |r| then r[p.rk[j]] else Missing
      else Missing)
  }

  function RightOnlyRows(p: Plan, ls: seq<Row>, rs: seq<Row>): (os: seq<Row>)
    ensures forall o :: o in os <==> exists r :: r in rs && Unmatched(p, ls, r) && o == RightOnly(p, r)
  {
    if |rs| == 0 then []
    else
      assert rs == [rs[0]] + rs[1..];
      (if Unmatched(p, ls, rs[0]) then [RightOnly(p, rs[0])] else []) + RightOnlyRows(p, ls, rs[1..])
  }

  /** The rows of the outer join. pandas sorts them by key; this model keeps
      left order and then appends the right-only rows. */
  function JoinRows(p: Plan, ls: seq<Row>, rs: seq<Row>): (os: seq<Row>)
    ensures |os| >= |ls|
  {
    LeftRows(p, ls, rs) + RightOnlyRows(p, ls, rs)
  }

  /** What a full outer join holds, independently of how it is built: every
      joining pair, every left row without partner padded, and every right
      row without partner laid out under the left keys. */
  ghost predicate InOuterJoin(p: Plan, ls: seq<Row>, rs: seq<Row>, o: Row) {
    || (exists l, r :: l in ls && r in rs && KeyMatch(p, l, r) && o == l + Pick(r, p.rn))
    || (exists l :: l in ls && (forall r :: r in rs ==> !KeyMatch(p, l, r)) && o == l + Blank(|p.rn|))
    || (exists r :: r in rs && Unmatched(p, ls, r) && o == RightOnly(p, r))
  }

  lemma JoinRowsExact(p: Plan, ls: seq<Row>, rs: seq<Row>)
    ensures forall o :: o in JoinRows(p, ls, rs) <==> InOuterJoin(p, ls, rs, o)
  {
    forall l | l in ls {
      ForLeftMembers(p, l, rs);
    }
  }

  /** Every output row is as wide as the left row plus the carried cells. */
  lemma JoinRowsFit(p: Plan, ls: seq<Row>, rs: seq<Row>)
    requires Fits(ls, p.lw)
    ensures Fits(JoinRows(p, ls, rs), p.lw + |p.rn|)
  {
    JoinRowsExact(p, ls, rs);
    var os := JoinRows(p, ls, rs);
    forall i | 0 <= i < |os|
      ensures |os[i]| == p.lw + |p.rn|
    {
      assert InOuterJoin(p, ls, rs, os[i]);
      if exists l, r :: l in ls && r in rs && KeyMatch(p, l, r) && os[i] == l + Pick(r, p.rn) {
        var l, r :| l in ls && r in rs && KeyMatch(p, l, r) && os[i] == l + Pick(r, p.rn);
        var j :| 0 <= j < |ls| && ls[j] == l;
      } else if exists l :: l in ls && (forall r :: r in rs ==> !KeyMatch(p, l, r)) && os[i] == l + Blank(|p.rn|) {
        var l :| l in ls && (forall r :: r in rs ==> !KeyMatch(p, l, r)) && os[i] == l + Blank(|p.rn|);
        var j :| 0 <= j < |ls| && ls[j] == l;
      }
    }
  }

  /** Every left row survives as the front of some output row. */
  lemma JoinKeepsLeft(p: Plan, ls: seq<Row>, rs: seq<Row>)
    ensures forall l :: l in ls ==> exists o :: o in JoinRows(p, ls, rs) && |l| <= |o| && o[..|l|] == l
  {
    forall l | l in ls
      ensures exists o :: o in JoinRows(p, ls, rs) && |l| <= |o| && o[..|l|] == l
    {
      var o := ForLeft(p, l, rs)[0];
      assert o in LeftRows(p, ls, rs);
      assert o in JoinRows(p, ls, rs);
    }
  }

  /** Every right row survives: some output row carries its cells and holds
      its key cells under the left key positions. */
  lemma JoinKeepsRight(p: Plan, ls: seq<Row>, rs: seq<Row>)
    requires PlanOk(p) && Fits(ls, p.lw)
    ensures forall r :: r in rs ==>
      exists o :: o in JoinRows(p, ls, rs) && |o| >= p.lw && o[p.lw..] == Pick(r, p.rn) && Pick(o, p.lk) == Pick(r, p.rk)
  {
    forall r | r in rs
      ensures exists o :: o in JoinRows(p, ls, rs) && |o| >= p.lw && o[p.lw..] == Pick(r, p.rn) && Pick(o, p.lk) == Pick(r, p.rk)
    {
      var o := RightRowJoined(p, ls, rs, r);
    }
  }

  /** The output row that carries right row `r`. */
  lemma RightRowJoined(p: Plan, ls: seq<Row>, rs: seq<Row>, r: Row) returns (o: Row)
    requires PlanOk(p) && Fits(ls, p.lw) && r in rs
    ensures o in JoinRows(p, ls, rs) && |o| >= p.lw && o[p.lw..] == Pick(r, p.rn) && Pick(o, p.lk) == Pick(r, p.rk)
  {
    if Unmatched(p, ls, r) {
      o := RightOnly(p, r);
      assert o in RightOnlyRows(p, ls, rs);
      RightOnlyKeys(p, r);
    } else {
      var l :| l in ls && KeyMatch(p, l, r);
      o := MatchedJoined(p, ls, rs, l, r);
    }
  }

  /** A joining pair gives the left row followed by the right row's carried cells. */
  lemma MatchedJoined(p: Plan, ls: seq<Row>, rs: seq<Row>, l: Row, r: Row) returns (o: Row)
    requires PlanOk(p) && Fits(ls, p.lw) && l in ls && r in rs && KeyMatch(p, l, r)
    ensures o in LeftRows(p, ls, rs) && |o| >= p.lw && o[p.lw..] == Pick(r, p.rn) && Pick(o, p.lk) == Pick(r, p.rk)
  {
    var j :| 0 <= j < |ls| && ls[j] == l;
    assert |l| == p.lw;
    o := l + Pick(r, p.rn);
    ForLeftMembers(p, l, rs);
    assert o in ForLeft(p, l, rs);
    assert o[p.lw..] == Pick(r, p.rn);
    PickFront(l, Pick(r, p.rn), p.lk);
  }

  /** Positions inside `a` pick the same cells from `a + b`. */
  lemma PickFront(a: Row, b: Row, idx: seq<nat>)
    requires forall k :: 0 <= k < |idx| ==> idx[k] < |a|
    ensures Pick(a + b, idx) == Pick(a, idx)
  {
  }

  /** A right-only row holds the right row's key cells at the left key positions. */
  lemma RightOnlyKeys(p: Plan, r: Row)
    requires PlanOk(p)
    ensures RightOnly(p, r)[p.lw..] == Pick(r, p.rn)
    ensures Pick(RightOnly(p, r), p.lk) == Pick(r, p.rk)
  {
    var f := KeyFront(p, r);
    assert (f + Pick(r, p.rn))[p.lw..] == Pick(r, p.rn);
    PickFront(f, Pick(r, p.rn), p.lk);
    forall k | 0 <= k < |p.lk|
      ensures Pick(f, p.lk)[k] == Pick(r, p.rk)[k]
    {
      KeyFrontAt(p, r, k);
    }
  }

  /** The `k`-th left key position of a right-only row holds the `k`-th right key cell. */
  lemma KeyFrontAt(p: Plan, r: Row, k: nat)
    requires |p.lk| == |p.rk| && Distinct(p.lk) && k < |p.lk| && p.lk[k] < p.lw
    ensures KeyFront(p, r)[p.lk[k]] == Pick(r, p.rk)[k]
  {
    var c := p.lk[k];
    assert c in p.lk;
    IndexOfDistinct(p.lk, k);
  }

  /* How many rows the join emits. The membership lemmas above say which rows
     appear; these say how often, against counts of right-row positions. */

  /** The number of positions of `rs` whose row joins with `l`. */
  ghost function MatchCount(p: Plan, l: Row, rs: seq<Row>): nat {
    |set j | 0 <= j < |rs| && KeyMatch(p, l, rs[j])|
  }

  /** The number of positions of `rs` whose row joins with no left row. */
  ghost function UnmatchedCount(p: Plan, ls: seq<Row>, rs: seq<Row>): nat {
    |set j | 0 <= j < |rs| && Unmatched(p, ls, rs[j])|
  }

  /** The rows the left side contributes: for each left row, one per
      matching right position, or one when there is none. */
  ghost function LeftOutputs(p: Plan, ls: seq<Row>, rs: seq<Row>): nat
    decreases |ls|
  {
    if |ls| == 0 then 0
    else
      var m := MatchCount(p, ls[0], rs);
      (if m == 0 then 1 else m) + LeftOutputs(p, ls[1..], rs)
  }

  /** An index set from position `k` on is the one from `k + 1` on, plus `k`
      itself when the row there qualifies. */
  lemma IndexSetCons(a: set<int>, b: set<int>, k: int, head: bool)
    requires forall j :: j in b ==> j > k
    requires forall j :: j in a <==> j in b || (head && j == k)
    ensures |a| == |b| + (if head then 1 else 0)
  {
    var c: set<int> := if head then {k} else {};
    forall j
      ensures j in a <==> j in b + c
    {
    }
    assert a == b + c;
    assert b * c == {};
  }

  lemma {:induction false} PartnersFrom(p: Plan, l: Row, rs: seq<Row>, k: nat)
    requires k <= |rs|
    ensures |Partners(p, l, rs[k..])| == |set j | k <= j < |rs| && KeyMatch(p, l, rs[j])|
    decreases |rs| - k
  {
    if k < |rs| {
      assert rs[k..][0] == rs[k] && rs[k..][1..] == rs[k + 1..];
      PartnersFrom(p, l, rs, k + 1);
      var a := set j | k <= j < |rs| && KeyMatch(p, l, rs[j]);
      var b := set j | k + 1 <= j < |rs| && KeyMatch(p, l, rs[j]);
      IndexSetCons(a, b, k, KeyMatch(p, l, rs[k]));
    } else {
      assert rs[k..] == [];
    }
  }

  /** A left row has one partner per matching right position, duplicates
      included. */
  lemma PartnersCount(p: Plan, l: Row, rs: seq<Row>)
    ensures |Partners(p, l, rs)| == |set j | 0 <= j < |rs| && KeyMatch(p, l, rs[j])|
  {
    assert rs[0..] == rs;
    PartnersFrom(p, l, rs, 0);
  }

  /** A left row yields one output row per matching right position, or a
      single padded row when nothing matches. */
  lemma ForLeftCount(p: Plan, l: Row, rs: seq<Row>)
    ensures var m := |set j | 0 <= j < |rs| && KeyMatch(p, l, rs[j])|;
      |ForLeft(p, l, rs)| == if m == 0 then 1 else m
  {
    PartnersCount(p, l, rs);
  }

  lemma {:induction false} LeftRowsCount(p: Plan, ls: seq<Row>, rs: seq<Row>)
    ensures |LeftRows(p, ls, rs)| == LeftOutputs(p, ls, rs)
  {
    if |ls| > 0 {
      ForLeftCount(p, ls[0], rs);
      LeftRowsCount(p, ls[1..], rs);
    }
  }

  lemma {:induction false} RightOnlyFrom(p: Plan, ls: seq<Row>, rs: seq<Row>, k: nat)
    requires k <= |rs|
    ensures |RightOnlyRows(p, ls, rs[k..])| == |set j | k <= j < |rs| && Unmatched(p, ls, rs[j])|
    decreases |rs| - k
  {
    if k < |rs| {
      assert rs[k..][0] == rs[k] && rs[k..][1..] == rs[k + 1..];
      RightOnlyFrom(p, ls, rs, k + 1);
      var a := set j | k <= j < |rs| && Unmatched(p, ls, rs[j]);
      var b := set j | k + 1 <= j < |rs| && Unmatched(p, ls, rs[j]);
      IndexSetCons(a, b, k, Unmatched(p, ls, rs[k]));
    } else {
      assert rs[k..] == [];
    }
  }

  /** One right-only row per right position that no left row joins with. */
  lemma RightOnlyCount(p: Plan, ls: seq<Row>, rs: seq<Row>)
    ensures |RightOnlyRows(p, ls, rs)| == |set j | 0 <= j < |rs| && Unmatched(p, ls, rs[j])|
  {
    assert rs[0..] == rs;
    RightOnlyFrom(p, ls, rs, 0);
  }

  /** The outer join has, for each left row, as many rows as it has matching
      right positions (at least one), plus one per right row nobody matches. */
  lemma JoinRowsCount(p: Plan, ls: seq<Row>, rs: seq<Row>)
    ensures |JoinRows(p, ls, rs)| == LeftOutputs(p, ls, rs) + UnmatchedCount(p, ls, rs)
  {
    LeftRowsCount(p, ls, rs);
    RightOnlyCount(p, ls, rs);
  }
}
