/** `choose_csv` (Cleaning.py): the first enumerated CSV whose file name is a
    preferred name up to case, otherwise the smallest path in pathlib order.
    Paths are '/'-separated strings in the normal form `rglob` yields. */
module CsvChoice {
  import opened Text
  import opened Tables
  import opened Results

  /** The '/'-separated components of a path. */
  function Split(p: string): (parts: seq<string>)
    ensures |parts| > 0
    ensures forall k :: 0 <= k < |parts| ==> '/' !in parts[k]
    decreases |p|
  {
    if '/' in p then
      var i := IndexOf(p, '/');
      [p[..i]] + Split(p[i + 1..])
    else [p]
  }

  /** Components put back together with '/'. */
  function Join(parts: seq<string>): string
    requires |parts| > 0
  {
    if |parts| == 1 then parts[0] else parts[0] + "/" + Join(parts[1..])
  }

  lemma {:induction false} JoinSplit(p: string)
    ensures Join(Split(p)) == p
    decreases |p|
  {
    if '/' in p {
      var i := IndexOf(p, '/');
      JoinSplit(p[i + 1..]);
      assert p == p[..i] + "/" + p[i + 1..];
    }
  }

  lemma {:induction false} SplitJoin(parts: seq<string>)
    requires |parts| > 0 && forall k :: 0 <= k < |parts| ==> '/' !in parts[k]
    ensures Split(Join(parts)) == parts
    decreases |parts|
  {
    if |parts| > 1 {
      var p := Join(parts);
      var h := parts[0];
      assert p == h + "/" + Join(parts[1..]);
      assert p[|h|] == '/';
      assert '/' in p;
      var i := IndexOf(p, '/');
      assert i == |h| by {
        assert forall j :: 0 <= j < |h| ==> p[j] == h[j];
      }
      assert p[..i] == h;
      assert p[i + 1..] == Join(parts[1..]);
      SplitJoin(parts[1..]);
      assert parts == [h] + parts[1..];
    } else {
      assert '/' !in parts[0];
    }
  }

  /** Different paths have different components. */
  lemma SplitInjective(p: string, q: string)
    requires Split(p) == Split(q)
    ensures p == q
  {
    JoinSplit(p);
    JoinSplit(q);
  }

  /** `Path.name`: the last component. */
  function BaseName(p: string): (b: string)
    ensures '/' !in b
  {
    var parts := Split(p);
    parts[|parts| - 1]
  }

  /** Python's `<` on `str`: code point by code point, a proper prefix first. */
  predicate StrLess(a: string, b: string)
    decreases |a|
  {
    |b| > 0 && (|a| == 0 || a[0] < b[0] || (a[0] == b[0] && StrLess(a[1..], b[1..])))
  }

  /** Python's `<` on lists of strings, which is how `PurePath` orders paths. */
  predicate PartsLess(x: seq<string>, y: seq<string>)
    decreases |x|
  {
    |y| > 0 && (|x| == 0 || StrLess(x[0], y[0]) || (x[0] == y[0] && PartsLess(x[1..], y[1..])))
  }

  predicate PathLess(p: string, q: string) {
    PartsLess(Split(p), Split(q))
  }

  lemma {:induction false} StrLessIrreflexive(a: string)
    ensures !StrLess(a, a)
    decreases |a|
  {
    if |a| > 0 {
      StrLessIrreflexive(a[1..]);
    }
  }

  lemma {:induction false} StrLessTransitive(a: string, b: string, c: string)
    requires StrLess(a, b) && StrLess(b, c)
    ensures StrLess(a, c)
    decreases |a|
  {
    if |a| > 0 && a[0] == b[0] && b[0] == c[0] {
      StrLessTransitive(a[1..], b[1..], c[1..]);
    }
  }

  lemma {:induction false} StrLessTotal(a: string, b: string)
    requires a != b
    ensures StrLess(a, b) || StrLess(b, a)
    decreases |a|
  {
    if |a| > 0 && |b| > 0 && a[0] == b[0] {
      assert a == [a[0]] + a[1..] && b == [b[0]] + b[1..];
      StrLessTotal(a[1..], b[1..]);
    }
  }

  lemma {:induction false} PartsLessIrreflexive(x: seq<string>)
    ensures !PartsLess(x, x)
    decreases |x|
  {
    if |x| > 0 {
      StrLessIrreflexive(x[0]);
      PartsLessIrreflexive(x[1..]);
    }
  }

  lemma {:induction false} PartsLessTransitive(x: seq<string>, y: seq<string>, z: seq<string>)
    requires PartsLess(x, y) && PartsLess(y, z)
    ensures PartsLess(x, z)
    decreases |x|
  {
    if |x| > 0 {
      if StrLess(x[0], y[0]) && StrLess(y[0], z[0]) {
        StrLessTransitive(x[0], y[0], z[0]);
      } else if x[0] == y[0] && y[0] == z[0] {
        PartsLessTransitive(x[1..], y[1..], z[1..]);
      }
    }
  }

  lemma {:induction false} PartsLessTotal(x: seq<string>, y: seq<string>)
    requires x != y
    ensures PartsLess(x, y) || PartsLess(y, x)
    decreases |x|
  {
    if |x| > 0 && |y| > 0 {
      if x[0] == y[0] {
        assert x == [x[0]] + x[1..] && y == [y[0]] + y[1..];
        PartsLessTotal(x[1..], y[1..]);
      } else {
        StrLessTotal(x[0], y[0]);
      }
    }
  }

  /** Path order is a strict total order on distinct paths. */
  lemma PathOrder(p: string, q: string, r: string)
    ensures !PathLess(p, p)
    ensures PathLess(p, q) && PathLess(q, r) ==> PathLess(p, r)
    ensures p != q ==> PathLess(p, q) || PathLess(q, p)
  {
    PartsLessIrreflexive(Split(p));
    if PathLess(p, q) && PathLess(q, r) {
      PartsLessTransitive(Split(p), Split(q), Split(r));
    }
    if p != q {
      if Split(p) == Split(q) {
        SplitInjective(p, q);
      }
      PartsLessTotal(Split(p), Split(q));
    }
  }

  /** `sorted(paths)[0]`: a path no other path precedes. */
  function MinPath(paths: seq<string>): (m: string)
    requires |paths| > 0
    ensures m in paths
    ensures forall q :: q in paths ==> !PathLess(q, m)
  {
    if |paths| == 1 then
      PartsLessIrreflexive(Split(paths[0]));
      paths[0]
    else
      var rest := MinPath(paths[1..]);
      assert paths == [paths[0]] + paths[1..];
      if PathLess(rest, paths[0]) then
        assert forall q :: q in paths[1..] ==> !PathLess(q, rest);
        PartsLessIrreflexive(Split(rest));
        MinStep(paths[0], rest, paths[1..]);
        rest
      else
        MinKeep(paths[0], rest, paths[1..]);
        paths[0]
  }

  lemma MinStep(h: string, rest: string, tail: seq<string>)
    requires PathLess(rest, h) && forall q :: q in tail ==> !PathLess(q, rest)
    ensures !PathLess(h, rest)
  {
    if PathLess(h, rest) {
      PathOrder(rest, h, rest);
    }
  }

  lemma MinKeep(h: string, rest: string, tail: seq<string>)
    requires !PathLess(rest, h) && rest in tail && forall q :: q in tail ==> !PathLess(q, rest)
    ensures forall q :: q in [h] + tail ==> !PathLess(q, h)
  {
    forall q | q in [h] + tail
      ensures !PathLess(q, h)
    {
      PathOrder(h, h, h);
      if q != h && PathLess(q, h) {
        PathOrder(q, rest, h);
        if q != rest {
          PathOrder(rest, q, h);
        }
      }
    }
  }

  /** Any two least paths are the same path: the minimum is unique. */
  lemma LeastUnique(paths: seq<string>, a: string, b: string)
    requires a in paths && b in paths
    requires forall q :: q in paths ==> !PathLess(q, a)
    requires forall q :: q in paths ==> !PathLess(q, b)
    ensures a == b
  {
    PathOrder(a, b, a);
  }

  /** The file name matches one of the preferred names, ignoring case. */
  predicate IsPreferred(p: string, preferred: seq<string>) {
    exists k :: 0 <= k < |preferred| && Lower(preferred[k]) == Lower(BaseName(p))
  }

  /** The first enumerated path with a preferred name, if any. */
  function FirstPreferred(paths: seq<string>, preferred: seq<string>): (r: Option<nat>)
    ensures r.Some? ==>
      && r.value < |paths| && IsPreferred(paths[r.value], preferred)
      && (forall j :: 0 <= j < r.value ==> !IsPreferred(paths[j], preferred))
    ensures r.None? ==> forall j :: 0 <= j < |paths| ==> !IsPreferred(paths[j], preferred)
  {
    if |paths| == 0 then None
    else if IsPreferred(paths[0], preferred) then Some(0)
    else
      match FirstPreferred(paths[1..], preferred)
      case None => None
      case Some(i) => Some(i + 1)
  }

  /** `choose_csv(base, preferred)`, with `paths` the order `rglob("*.csv")`
      enumerates the files in. */
  function ChooseCsv(paths: seq<string>, preferred: seq<string>): (r: Result<string>)
    ensures r.Err? <==> |paths| == 0
    ensures r.Err? ==> r.error == NotFound
    ensures r.Ok? ==> r.value in paths
    ensures r.Ok? && IsPreferred(r.value, preferred) ==>
      exists i :: 0 <= i < |paths| && paths[i] == r.value && forall j :: 0 <= j < i ==> !IsPreferred(paths[j], preferred)
    ensures r.Ok? && !IsPreferred(r.value, preferred) ==>
      (forall q :: q in paths ==> !IsPreferred(q, preferred) && !PathLess(q, r.value))
  {
    match FirstPreferred(paths, preferred)
    case Some(i) => Ok(paths[i])
    case None => if |paths| == 0 then Err(NotFound) else Ok(MinPath(paths))
  }

  /** When some file has a preferred name, the first such file is chosen. */
  lemma ChoosePreferred(paths: seq<string>, preferred: seq<string>, i: nat)
    requires i < |paths| && IsPreferred(paths[i], preferred)
    requires forall j :: 0 <= j < i ==> !IsPreferred(paths[j], preferred)
    ensures ChooseCsv(paths, preferred) == Ok(paths[i])
  {
  }

  /** When no file has a preferred name, the chosen file is the one no
      other file precedes in pathlib order. */
  lemma ChooseSmallest(paths: seq<string>, preferred: seq<string>, m: string)
    requires forall q :: q in paths ==> !IsPreferred(q, preferred)
    requires m in paths && forall q :: q in paths ==> !PathLess(q, m)
    ensures ChooseCsv(paths, preferred) == Ok(m)
  {
    var r := ChooseCsv(paths, preferred);
    assert r.Ok? && !IsPreferred(r.value, preferred);
    LeastUnique(paths, r.value, m);
  }

  /** Worked example: a sub-directory sorts before a file whose name extends
      the directory's name, although '-' precedes '/' as a character. */
  lemma PartsOrderExample()
    ensures PathLess("data/a/x.csv", "data/a-x.csv")
    ensures StrLess("data/a-x.csv", "data/a/x.csv")
  {
    SplitNested();
    SplitFlat();
    NestedPartsFirst();
    DashFirst();
  }

  lemma NestedPartsFirst()
    ensures PartsLess(["data", "a", "x.csv"], ["data", "a-x.csv"])
  {
    StrLessPrefix("a", "", "-x.csv");
    assert "a" + "" == "a" && "a" + "-x.csv" == "a-x.csv";
    var x, y := ["data", "a", "x.csv"], ["data", "a-x.csv"];
    assert x[1..] == ["a", "x.csv"] && y[1..] == ["a-x.csv"];
    assert PartsLess(x[1..], y[1..]);
  }

  lemma DashFirst()
    ensures StrLess("data/a-x.csv", "data/a/x.csv")
  {
    assert StrLess("-x.csv", "/x.csv");
    StrLessPrefix("data/a", "-x.csv", "/x.csv");
    assert "data/a" + "-x.csv" == "data/a-x.csv" && "data/a" + "/x.csv" == "data/a/x.csv";
  }

  /** A common prefix does not change how two strings compare. */
  lemma {:induction false} StrLessPrefix(p: string, a: string, b: string)
    requires StrLess(a, b)
    ensures StrLess(p + a, p + b)
    decreases |p|
  {
    if |p| > 0 {
      StrLessPrefix(p[1..], a, b);
      assert (p + a)[1..] == p[1..] + a && (p + b)[1..] == p[1..] + b;
    } else {
      assert p + a == a && p + b == b;
    }
  }

  lemma SplitNested()
    ensures Split("data/a/x.csv") == ["data", "a", "x.csv"]
  {
    var parts := ["data", "a", "x.csv"];
    assert Join(parts) == "data" + "/" + ("a" + "/" + "x.csv");
    assert "data" + "/" + ("a" + "/" + "x.csv") == "data/a/x.csv";
    assert forall k :: 0 <= k < |parts| ==> '/' !in parts[k];
    SplitJoin(parts);
  }

  lemma SplitFlat()
    ensures Split("data/a-x.csv") == ["data", "a-x.csv"]
  {
    var parts := ["data", "a-x.csv"];
    assert Join(parts) == "data" + "/" + "a-x.csv";
    assert "data" + "/" + "a-x.csv" == "data/a-x.csv";
    assert forall k :: 0 <= k < |parts| ==> '/' !in parts[k];
    SplitJoin(parts);
  }
}
