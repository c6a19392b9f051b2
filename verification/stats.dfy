/** The column median pandas uses for `fillna(df.median())`: the middle of the
    sorted present values, or the mean of the two middle ones for an even count. */
module Stats {

  predicate Sorted(s: seq<real>) {
    forall i, j :: 0 <= i < j < |s| ==> s[i] <= s[j]
  }

  /** Put `x` in its place in an already sorted sequence. */
  function Insert(x: real, s: seq<real>): (r: seq<real>)
    requires Sorted(s)
    ensures Sorted(r)
    ensures multiset(r) == multiset(s) + multiset{x}
    ensures |r| == |s| + 1
  {
    if |s| == 0 || x <= s[0] then [x] + s
    else
      var tail := Insert(x, s[1..]);
      assert s == [s[0]] + s[1..];
      assert forall k :: 0 <= k < |tail| ==> s[0] <= tail[k] by {
        forall k | 0 <= k < |tail|
          ensures s[0] <= tail[k]
        {
          assert tail[k] in multiset(s[1..]) + multiset{x};
        }
      }
      [s[0]] + tail
  }

  /** The values in ascending order. */
  function Sort(s: seq<real>): (r: seq<real>)
    ensures Sorted(r)
    ensures multiset(r) == multiset(s)
    ensures |r| == |s|
  {
    if |s| == 0 then []
    else
      assert s == [s[0]] + s[1..];
      Insert(s[0], Sort(s[1..]))
  }

  /** Two sorted arrangements of the same values are the same sequence. */
  lemma {:induction false} SortedUnique(a: seq<real>, b: seq<real>)
    requires Sorted(a) && Sorted(b) && multiset(a) == multiset(b)
    ensures a == b
    decreases |a|
  {
    assert |a| == |multiset(a)| == |b|;
    if |a| > 0 {
      SameHead(a, b);
      MultisetTail(a);
      MultisetTail(b);
      SortedUnique(a[1..], b[1..]);
    }
  }

  lemma SameHead(a: seq<real>, b: seq<real>)
    requires Sorted(a) && Sorted(b) && multiset(a) == multiset(b) && |a| > 0
    ensures |b| > 0 && a[0] == b[0]
  {
    assert a[0] in multiset(b);
    var k :| 0 <= k < |b| && b[k] == a[0];
    assert b[0] <= b[k];
    assert b[0] in multiset(a);
    var l :| 0 <= l < |a| && a[l] == b[0];
    assert a[0] <= a[l];
  }

  lemma MultisetTail(a: seq<real>)
    requires |a| > 0
    ensures multiset(a[1..]) == multiset(a) - multiset{a[0]}
  {
    assert a == [a[0]] + a[1..];
  }

  /** `Series.median()` of the present values. */
  function Median(s: seq<real>): real
    requires |s| > 0
  {
    var v := Sort(s);
    var n := |v|;
    if n % 2 == 1 then v[n / 2] else (v[n / 2 - 1] + v[n / 2]) / 2.0
  }

  datatype Side = Below | Above

  predicate OnSide(side: Side, x: real, m: real) {
    match side
    case Below => x < m
    case Above => x > m
  }

  /** How many of the values lie strictly on one side of `m`. */
  function Count(s: seq<real>, side: Side, m: real): (n: nat)
    ensures n <= |s|
  {
    if |s| == 0 then 0
    else (if OnSide(side, s[0], m) then 1 else 0) + Count(s[1..], side, m)
  }

  lemma {:induction false} CountAppend(a: seq<real>, b: seq<real>, side: Side, m: real)
    ensures Count(a + b, side, m) == Count(a, side, m) + Count(b, side, m)
    decreases |a|
  {
    if |a| > 0 {
      assert (a + b)[0] == a[0];
      assert (a + b)[1..] == a[1..] + b;
      CountAppend(a[1..], b, side, m);
    } else {
      assert a + b == b;
    }
  }

  lemma {:induction false} CountNone(s: seq<real>, side: Side, m: real)
    requires forall i :: 0 <= i < |s| ==> !OnSide(side, s[i], m)
    ensures Count(s, side, m) == 0
    decreases |s|
  {
    if |s| > 0 {
      CountNone(s[1..], side, m);
    }
  }

  /** The count depends only on the values, not on their order. */
  lemma {:induction false} CountPermutation(a: seq<real>, b: seq<real>, side: Side, m: real)
    requires multiset(a) == multiset(b)
    ensures Count(a, side, m) == Count(b, side, m)
    decreases |a|
  {
    assert |a| == |multiset(a)| == |b|;
    if |a| > 0 {
      assert a[0] in multiset(b);
      var k :| 0 <= k < |b| && b[k] == a[0];
      RemoveAt(b, k);
      MultisetTail(a);
      CountPermutation(a[1..], b[..k] + b[k + 1..], side, m);
      CountRemoveAt(b, k, side, m);
    }
  }

  /** Taking out the element at `k` takes one copy of it out of the multiset. */
  lemma RemoveAt(b: seq<real>, k: nat)
    requires k < |b|
    ensures multiset(b[..k] + b[k + 1..]) == multiset(b) - multiset{b[k]}
  {
    assert b == b[..k] + [b[k]] + b[k + 1..];
  }

  /** Taking out the element at `k` lowers the count by its own contribution. */
  lemma CountRemoveAt(b: seq<real>, k: nat, side: Side, m: real)
    requires k < |b|
    ensures Count(b, side, m) == Count(b[..k] + b[k + 1..], side, m) + (if OnSide(side, b[k], m) then 1 else 0)
  {
    assert b == b[..k] + [b[k]] + b[k + 1..];
    CountAppend(b[..k] + [b[k]], b[k + 1..], side, m);
    CountAppend(b[..k], [b[k]], side, m);
    CountAppend(b[..k], b[k + 1..], side, m);
  }

  /** Reordering the values does not move the median. */
  lemma MedianPermutation(a: seq<real>, b: seq<real>)
    requires |a| > 0 && multiset(a) == multiset(b)
    ensures |b| > 0 && Median(a) == Median(b)
  {
    assert |a| == |multiset(a)| == |b|;
    SortedUnique(Sort(a), Sort(b));
  }

  /** The median lies between the smallest and the largest value. */
  lemma MedianBounds(s: seq<real>)
    requires |s| > 0
    ensures exists i :: 0 <= i < |s| && s[i] <= Median(s)
    ensures exists j :: 0 <= j < |s| && Median(s) <= s[j]
  {
    var v := Sort(s);
    var n := |v|;
    var lo := if n % 2 == 1 then n / 2 else n / 2 - 1;
    assert v[lo] in multiset(s) && v[n / 2] in multiset(s);
    var i :| 0 <= i < |s| && s[i] == v[lo];
    var j :| 0 <= j < |s| && s[j] == v[n / 2];
  }

  /** At most half of the values lie strictly below the median, and at most
      half strictly above it. */
  lemma MedianBalanced(s: seq<real>)
    requires |s| > 0
    ensures Count(s, Below, Median(s)) <= |s| / 2
    ensures Count(s, Above, Median(s)) <= |s| / 2
  {
    var v := Sort(s);
    var m := Median(s);
    var k := |v| / 2;
    var lo := MiddlePair(s);
    CountPermutation(s, v, Below, m);
    CountPermutation(s, v, Above, m);
    SortedBelow(v, m, k);
    SortedAbove(v, m, lo);
  }

  /** The median lies between the two middle sorted values (the same one
      twice for an odd count). */
  lemma MiddlePair(s: seq<real>) returns (lo: nat)
    requires |s| > 0
    ensures lo <= |s| / 2 < |s| && lo == (|s| - 1) / 2
    ensures Sort(s)[lo] <= Median(s) <= Sort(s)[|s| / 2]
  {
    var v := Sort(s);
    var n := |s|;
    lo := (n - 1) / 2;
    if n % 2 == 1 {
      assert lo == n / 2;
    } else {
      assert lo == n / 2 - 1;
      var a, b := v[lo], v[n / 2];
      assert a <= b;
      assert Median(s) == (a + b) / 2.0;
    }
  }

  /** In sorted values whose `k`-th is at least `m`, at most `k` lie below `m`. */
  lemma SortedBelow(v: seq<real>, m: real, k: nat)
    requires Sorted(v) && k < |v| && m <= v[k]
    ensures Count(v, Below, m) <= k
  {
    assert v == v[..k] + v[k..];
    CountAppend(v[..k], v[k..], Below, m);
    CountNone(v[k..], Below, m);
  }

  /** In sorted values whose `lo`-th is at most `m`, at most `|v| - lo - 1` lie above `m`. */
  lemma SortedAbove(v: seq<real>, m: real, lo: nat)
    requires Sorted(v) && lo < |v| && v[lo] <= m
    ensures Count(v, Above, m) <= |v| - lo - 1
  {
    assert v == v[..lo + 1] + v[lo + 1..];
    CountAppend(v[..lo + 1], v[lo + 1..], Above, m);
    CountNone(v[..lo + 1], Above, m);
  }

  /** The median read off any ascending arrangement of the values. */
  lemma MedianOfArrangement(s: seq<real>, v: seq<real>)
    requires |s| > 0 && Sorted(v) && multiset(v) == multiset(s)
    ensures |v| == |s|
    ensures Median(s) == if |v| % 2 == 1 then v[|v| / 2] else (v[|v| / 2 - 1] + v[|v| / 2]) / 2.0
  {
    SortedUnique(Sort(s), v);
  }

  /** Worked example: 4, 1, 3, 2 has the even-count median 2.5, the mean of
      the two middle values. */
  lemma MedianEvenExample()
    ensures Median([4.0, 1.0, 3.0, 2.0]) == 2.5
  {
    assert multiset([4.0, 1.0, 3.0, 2.0]) == multiset([1.0, 2.0, 3.0, 4.0]);
    PermutedOneToFour([4.0, 1.0, 3.0, 2.0]);
  }

  /** Any arrangement of 1, 2, 3, 4 has median 2.5. */
  lemma PermutedOneToFour(s: seq<real>)
    requires multiset(s) == multiset([1.0, 2.0, 3.0, 4.0])
    ensures Median(s) == 2.5
  {
    MedianOfArrangement(s, [1.0, 2.0, 3.0, 4.0]);
  }
}
