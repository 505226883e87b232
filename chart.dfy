/** The "Auto Chart Generator" data: two chosen columns, rows with a missing
    value dropped, Y averaged per X when Y has repeated values, then ranked by
    Y and cut to the first `top_n` rows. */
module ChartData {
  import opened Frame

  /** The slider bounds for `top_n`. */
  const MinTopN: nat := 5
  const MaxTopN: nat := 100

  /** One bar: a category from X and a number from Y. */
  datatype Point = Point(x: Cell, y: real)

  datatype ChartError =
    | UnknownColumn(name: string)
    | AmbiguousColumn(name: string)
    | NonNumericY(name: string)

  /** What the chart section ends with: nothing chosen, the same-axis
      warning, a failure, or the bars to draw. */
  datatype Chart = NoSelection | SameAxis | Failed(error: ChartError) | Bars(points: seq<Point>)

  /** The positions of the columns called `name`, in increasing order. */
  function Where(names: seq<string>, name: string): (ps: seq<nat>)
    ensures forall k :: 0 <= k < |ps| ==> ps[k] < |names| && names[ps[k]] == name
    ensures forall j :: 0 <= j < |names| && names[j] == name ==> j in ps
    ensures forall k, m :: 0 <= k < m < |ps| ==> ps[k] < ps[m]
  {
    if names == [] then []
    else
      var rest := Where(names[..|names| - 1], name);
      if names[|names| - 1] == name then rest + [|names| - 1] else rest
  }

  function Xs(ps: seq<Point>): seq<Cell>
  {
    seq(|ps|, i requires 0 <= i < |ps| => ps[i].x)
  }

  function Ys(ps: seq<Point>): seq<real>
  {
    seq(|ps|, i requires 0 <= i < |ps| => ps[i].y)
  }

  /** `df[[x_col, y_col]].dropna()`: the rows where both cells are present,
      in table order. */
  function DropIncomplete(xs: seq<Cell>, ys: seq<Cell>): seq<Point>
    requires |xs| == |ys|
  {
    if xs == [] then []
    else
      (if !xs[0].Missing? && ys[0].Num? then [Point(xs[0], ys[0].n)] else [])
      + DropIncomplete(xs[1..], ys[1..])
  }

  /** No bar has a missing category; every point is a complete row of the two
      columns, and every complete row gives a point. */
  lemma {:induction false} DropIncompleteFacts(xs: seq<Cell>, ys: seq<Cell>)
    requires |xs| == |ys|
    ensures var ps := DropIncomplete(xs, ys);
      && |ps| <= |xs|
      && (forall p :: p in ps ==> !p.x.Missing?)
      && (forall p :: p in ps ==> exists i :: 0 <= i < |xs| && xs[i] == p.x && ys[i] == Num(p.y))
      && (forall i :: 0 <= i < |xs| && !xs[i].Missing? && ys[i].Num? ==> Point(xs[i], ys[i].n) in ps)
  {
    if xs != [] {
      DropIncompleteFacts(xs[1..], ys[1..]);
      var ps := DropIncomplete(xs, ys);
      var rest := DropIncomplete(xs[1..], ys[1..]);
      forall p | p in ps ensures exists i :: 0 <= i < |xs| && xs[i] == p.x && ys[i] == Num(p.y) {
        if p in rest {
          var i :| 0 <= i < |xs[1..]| && xs[1..][i] == p.x && ys[1..][i] == Num(p.y);
          assert xs[i + 1] == p.x && ys[i + 1] == Num(p.y);
        }
      }
      forall i | 0 < i < |xs| && !xs[i].Missing? && ys[i].Num? ensures Point(xs[i], ys[i].n) in ps {
        assert xs[1..][i - 1] == xs[i] && ys[1..][i - 1] == ys[i];
      }
    }
  }

  /** Row `i` of the two columns has both cells present. */
  predicate Complete(xs: seq<Cell>, ys: seq<Cell>, i: nat)
    requires |xs| == |ys| && i < |xs|
  {
    !xs[i].Missing? && ys[i].Num?
  }

  /** The positions from `i` on whose rows are complete, in increasing order. */
  function CompleteFrom(xs: seq<Cell>, ys: seq<Cell>, i: nat): seq<nat>
    requires |xs| == |ys| && i <= |xs|
    decreases |xs| - i
  {
    if i == |xs| then []
    else (if Complete(xs, ys, i) then [i] else []) + CompleteFrom(xs, ys, i + 1)
  }

  /** The k-th listed position is a complete row from `i` on. */
  lemma {:induction false} CompleteFromAt(xs: seq<Cell>, ys: seq<Cell>, i: nat, k: nat)
    requires |xs| == |ys| && i <= |xs| && k < |CompleteFrom(xs, ys, i)|
    ensures i <= CompleteFrom(xs, ys, i)[k] < |xs| && Complete(xs, ys, CompleteFrom(xs, ys, i)[k])
    decreases |xs| - i
  {
    var h := if Complete(xs, ys, i) then 1 else 0;
    if k >= h {
      CompleteFromAt(xs, ys, i + 1, k - h);
    }
  }

  /** Every complete row from `i` on is listed. */
  lemma {:induction false} CompleteFromHas(xs: seq<Cell>, ys: seq<Cell>, i: nat, j: nat)
    requires |xs| == |ys| && i <= j < |xs| && Complete(xs, ys, j)
    ensures j in CompleteFrom(xs, ys, i)
    decreases |xs| - i
  {
    if j > i {
      CompleteFromHas(xs, ys, i + 1, j);
    }
  }

  /** The listed positions increase. */
  lemma {:induction false} CompleteFromIncreasing(xs: seq<Cell>, ys: seq<Cell>, i: nat, k: nat, m: nat)
    requires |xs| == |ys| && i <= |xs| && k < m < |CompleteFrom(xs, ys, i)|
    ensures CompleteFrom(xs, ys, i)[k] < CompleteFrom(xs, ys, i)[m]
    decreases |xs| - i
  {
    var h := if Complete(xs, ys, i) then 1 else 0;
    if k >= h {
      CompleteFromIncreasing(xs, ys, i + 1, k - h, m - h);
    } else {
      CompleteFromAt(xs, ys, i + 1, m - h);
    }
  }

  /** One step of `DropIncomplete` from position `i`. */
  lemma DropIncompleteStep(xs: seq<Cell>, ys: seq<Cell>, i: nat)
    requires |xs| == |ys| && i < |xs|
    ensures DropIncomplete(xs[i..], ys[i..])
      == (if Complete(xs, ys, i) then [Point(xs[i], ys[i].n)] else []) + DropIncomplete(xs[i + 1..], ys[i + 1..])
  {
    assert xs[i..][1..] == xs[i + 1..] && ys[i..][1..] == ys[i + 1..];
  }

  lemma {:induction false} DropIncompleteFromLength(xs: seq<Cell>, ys: seq<Cell>, i: nat)
    requires |xs| == |ys| && i <= |xs|
    ensures |DropIncomplete(xs[i..], ys[i..])| == |CompleteFrom(xs, ys, i)|
    decreases |xs| - i
  {
    if i < |xs| {
      DropIncompleteFromLength(xs, ys, i + 1);
      DropIncompleteStep(xs, ys, i);
    }
  }

  lemma {:induction false} DropIncompleteFromAt(xs: seq<Cell>, ys: seq<Cell>, i: nat, k: nat)
    requires |xs| == |ys| && i <= |xs| && k < |CompleteFrom(xs, ys, i)|
    ensures k < |DropIncomplete(xs[i..], ys[i..])|
      && CompleteFrom(xs, ys, i)[k] < |xs|
      && ys[CompleteFrom(xs, ys, i)[k]].Num?
      && DropIncomplete(xs[i..], ys[i..])[k]
         == Point(xs[CompleteFrom(xs, ys, i)[k]], ys[CompleteFrom(xs, ys, i)[k]].n)
    decreases |xs| - i
  {
    DropIncompleteFromLength(xs, ys, i);
    CompleteFromAt(xs, ys, i, k);
    DropIncompleteStep(xs, ys, i);
    var h := if Complete(xs, ys, i) then 1 else 0;
    if k >= h {
      DropIncompleteFromAt(xs, ys, i + 1, k - h);
    }
  }

  /** `dropna` keeps every complete row once, in table order, and nothing
      else: `ks` lists exactly the complete rows in increasing order, and the
      k-th point is the row at `ks[k]`. */
  lemma DropIncompleteExact(xs: seq<Cell>, ys: seq<Cell>)
    requires |xs| == |ys|
    ensures var ps, ks := DropIncomplete(xs, ys), CompleteFrom(xs, ys, 0);
      && (forall k :: 0 <= k < |ks| ==> ks[k] < |xs| && Complete(xs, ys, ks[k]))
      && (forall j :: 0 <= j < |xs| && Complete(xs, ys, j) ==> j in ks)
      && (forall k, m :: 0 <= k < m < |ks| ==> ks[k] < ks[m])
      && |ps| == |ks|
      && forall k :: 0 <= k < |ks| ==> ps[k] == Point(xs[ks[k]], ys[ks[k]].n)
  {
    var ps, ks := DropIncomplete(xs, ys), CompleteFrom(xs, ys, 0);
    assert xs[0..] == xs && ys[0..] == ys;
    DropIncompleteFromLength(xs, ys, 0);
    forall k | 0 <= k < |ks| ensures ks[k] < |xs| && Complete(xs, ys, ks[k]) {
      CompleteFromAt(xs, ys, 0, k);
    }
    forall j | 0 <= j < |xs| && Complete(xs, ys, j) ensures j in ks {
      CompleteFromHas(xs, ys, 0, j);
    }
    forall k, m | 0 <= k < m < |ks| ensures ks[k] < ks[m] {
      CompleteFromIncreasing(xs, ys, 0, k, m);
    }
    forall k | 0 <= k < |ks| ensures ps[k] == Point(xs[ks[k]], ys[ks[k]].n) {
      DropIncompleteFromAt(xs, ys, 0, k);
    }
  }

  /** Two equal complete rows stay two rows, so Y is not unique afterwards. */
  lemma DropIncompleteKeepsRepeats()
    ensures var ps := DropIncomplete([Text("a"), Text("a")], [Num(1.0), Num(1.0)]);
      && ps == [Point(Text("a"), 1.0), Point(Text("a"), 1.0)]
      && !Distinct(Ys(ps))
  {
    var ps := DropIncomplete([Text("a"), Text("a")], [Num(1.0), Num(1.0)]);
    assert [Text("a"), Text("a")][1..] == [Text("a")];
    assert [Num(1.0), Num(1.0)][1..] == [Num(1.0)];
    assert Ys(ps)[0] == Ys(ps)[1];
  }

  /** The distinct categories, in order of first appearance. */
  function Categories(ps: seq<Point>): seq<Cell>
  {
    if ps == [] then []
    else
      var seen := Categories(ps[..|ps| - 1]);
      if ps[|ps| - 1].x in seen then seen else seen + [ps[|ps| - 1].x]
  }

  lemma {:induction false} CategoriesFacts(ps: seq<Point>)
    ensures Distinct(Categories(ps))
    ensures forall c :: c in Categories(ps) <==> c in Xs(ps)
  {
    if ps != [] {
      var init := ps[..|ps| - 1];
      CategoriesFacts(init);
      assert Xs(ps) == Xs(init) + [ps[|ps| - 1].x];
    }
  }

  /** The Y values of the rows whose category is `c`, in table order. */
  function YsOf(ps: seq<Point>, c: Cell): seq<real>
  {
    if ps == [] then [] else (if ps[0].x == c then [ps[0].y] else []) + YsOf(ps[1..], c)
  }

  lemma {:induction false} YsOfNonEmpty(ps: seq<Point>, c: Cell)
    requires c in Xs(ps)
    ensures YsOf(ps, c) != []
  {
    if ps[0].x != c {
      assert Xs(ps) == [ps[0].x] + Xs(ps[1..]);
      YsOfNonEmpty(ps[1..], c);
    }
  }

  function Sum(ys: seq<real>): real
  {
    if ys == [] then 0.0 else ys[0] + Sum(ys[1..])
  }

  /** The arithmetic mean, over the reals. */
  function Mean(ys: seq<real>): real
    requires ys != []
  {
    Sum(ys) / (|ys| as real)
  }

  lemma {:induction false} SumBounds(ys: seq<real>, lo: real, hi: real)
    requires forall k :: 0 <= k < |ys| ==> lo <= ys[k] <= hi
    ensures lo * (|ys| as real) <= Sum(ys) <= hi * (|ys| as real)
  {
    if ys != [] {
      SumBounds(ys[1..], lo, hi);
    }
  }

  /** A non-negative amount shared among `n > 0` parts gives a non-negative share. */
  lemma ShareNonNegative(a: real, n: real)
    requires a >= 0.0 && n > 0.0
    ensures a / n >= 0.0
  {
    var q := a / n;
    assert q * n == a;
  }

  /** Dividing both sides of `b * n <= a <= c * n` by `n > 0`. */
  lemma DivideBounds(a: real, n: real, b: real, c: real)
    requires n > 0.0 && b * n <= a <= c * n
    ensures b <= a / n <= c
  {
    ShareNonNegative(a - b * n, n);
    ShareNonNegative(c * n - a, n);
    assert (a - b * n) / n == a / n - b;
    assert (c * n - a) / n == c - a / n;
  }

  /** A mean lies between the smallest and the largest value it averages. */
  lemma MeanBounds(ys: seq<real>, lo: real, hi: real)
    requires ys != []
    requires forall k :: 0 <= k < |ys| ==> lo <= ys[k] <= hi
    ensures lo <= Mean(ys) <= hi
  {
    SumBounds(ys, lo, hi);
    DivideBounds(Sum(ys), |ys| as real, lo, hi);
  }

  /** One point per category in `cs`, carrying the mean Y of that category. */
  function MeansOf(cs: seq<Cell>, ps: seq<Point>): (r: seq<Point>)
    requires forall c :: c in cs ==> c in Xs(ps)
    ensures |r| == |cs|
    ensures forall k :: 0 <= k < |r| ==> r[k].x == cs[k] && YsOf(ps, cs[k]) != [] && r[k].y == Mean(YsOf(ps, cs[k]))
  {
    if cs == [] then []
    else
      YsOfNonEmpty(ps, cs[0]);
      [Point(cs[0], Mean(YsOf(ps, cs[0])))] + MeansOf(cs[1..], ps)
  }

  /** `chart_df.groupby(x_col, as_index=False).mean(numeric_only=True)`. */
  function GroupMean(ps: seq<Point>): seq<Point>
  {
    CategoriesFacts(ps);
    MeansOf(Categories(ps), ps)
  }

  /** Lines 120-122: the groupby runs only when the Y column is not unique. */
  function MaybeGroup(ps: seq<Point>): seq<Point>
  {
    if Distinct(Ys(ps)) then ps else GroupMean(ps)
  }

  /** After grouping there is one row per category, each category of the
      input appears, and each row's Y is the mean of that category's Y values. */
  lemma GroupMeanFacts(ps: seq<Point>)
    ensures var r := GroupMean(ps);
      && Distinct(Xs(r))
      && (forall c :: c in Xs(r) <==> c in Xs(ps))
      && (forall k :: 0 <= k < |r| ==> YsOf(ps, r[k].x) != [] && r[k].y == Mean(YsOf(ps, r[k].x)))
  {
    CategoriesFacts(ps);
    var r := GroupMean(ps);
    assert Xs(r) == Categories(ps);
  }

  /** The groupby runs exactly when some Y value repeats; without repeats the
      rows pass through as they are. */
  lemma MaybeGroupFacts(ps: seq<Point>)
    ensures Distinct(Ys(ps)) ==> MaybeGroup(ps) == ps
    ensures !Distinct(Ys(ps)) ==>
      && Distinct(Xs(MaybeGroup(ps)))
      && (forall c :: c in Xs(MaybeGroup(ps)) <==> c in Xs(ps))
      && (forall p :: p in MaybeGroup(ps) ==> YsOf(ps, p.x) != [] && p.y == Mean(YsOf(ps, p.x)))
  {
    if !Distinct(Ys(ps)) {
      GroupMeanFacts(ps);
    }
  }

  /** Averaging per category changes nothing when no category repeats, so
      grouping on a repeated Y alone never alters the rows. */
  lemma {:induction false} GroupMeanOfDistinctCategories(ps: seq<Point>)
    requires Distinct(Xs(ps))
    ensures GroupMean(ps) == ps
  {
    DistinctCategoriesInOrder(ps);
    var r := GroupMean(ps);
    assert |r| == |ps|;
    forall k | 0 <= k < |ps| ensures r[k] == ps[k] {
      YsOfSingle(ps, k);
      assert Sum([ps[k].y]) == ps[k].y + Sum([]);
      assert Mean([ps[k].y]) == ps[k].y;
      assert r[k].x == Xs(ps)[k];
    }
  }

  lemma {:induction false} DistinctCategoriesInOrder(ps: seq<Point>)
    requires Distinct(Xs(ps))
    ensures Categories(ps) == Xs(ps)
  {
    if ps != [] {
      var init := ps[..|ps| - 1];
      assert Xs(ps) == Xs(init) + [ps[|ps| - 1].x];
      assert Xs(init) == Xs(ps)[..|ps| - 1];
      assert ps[|ps| - 1].x == Xs(ps)[|ps| - 1];
      assert Xs(ps)[|ps| - 1] !in Xs(init);
      DistinctCategoriesInOrder(init);
    }
  }

  lemma {:induction false} YsOfSingle(ps: seq<Point>, k: nat)
    requires Distinct(Xs(ps)) && k < |ps|
    ensures YsOf(ps, ps[k].x) == [ps[k].y]
  {
    assert Xs(ps) == [ps[0].x] + Xs(ps[1..]);
    assert Xs(ps[1..]) == Xs(ps)[1..];
    assert ps[0].x == Xs(ps)[0];
    assert Xs(ps)[0] !in Xs(ps[1..]);
    if k == 0 {
      YsOfAbsent(ps[1..], ps[0].x);
    } else {
      assert Xs(ps)[0] != Xs(ps)[k];
      assert ps[1..][k - 1] == ps[k];
      YsOfSingle(ps[1..], k - 1);
    }
  }

  lemma {:induction false} YsOfAbsent(ps: seq<Point>, c: Cell)
    requires c !in Xs(ps)
    ensures YsOf(ps, c) == []
  {
    if ps != [] {
      assert Xs(ps) == [ps[0].x] + Xs(ps[1..]);
      YsOfAbsent(ps[1..], c);
    }
  }

  /** The test on line 120 looks at Y, not X: two rows of the same category
      with different values are not averaged, and the category is drawn twice. */
  lemma RepeatedCategoryNotGrouped()
    ensures var ps := [Point(Text("north"), 1.0), Point(Text("north"), 2.0)];
      && !Distinct(Xs(ps))
      && MaybeGroup(ps) == ps
  {
    var ps := [Point(Text("north"), 1.0), Point(Text("north"), 2.0)];
    assert Xs(ps)[0] == Xs(ps)[1];
    assert Ys(ps) == [1.0, 2.0];
  }

  /** The rule line 120 evidently aims at: average per category when a
      category repeats. */
  function MaybeGroupByCategory(ps: seq<Point>): seq<Point>
  {
    if Distinct(Xs(ps)) then ps else GroupMean(ps)
  }

  /** Testing X makes the test redundant: the result is always the per-category
      averaging, so each category appears once and carries the mean of its Y values. */
  lemma MaybeGroupByCategoryFacts(ps: seq<Point>)
    ensures var r := MaybeGroupByCategory(ps);
      && r == GroupMean(ps)
      && Distinct(Xs(r))
      && (forall c :: c in Xs(r) <==> c in Xs(ps))
      && (forall k :: 0 <= k < |r| ==> YsOf(ps, r[k].x) != [] && r[k].y == Mean(YsOf(ps, r[k].x)))
  {
    GroupMeanFacts(ps);
    if Distinct(Xs(ps)) {
      GroupMeanOfDistinctCategories(ps);
    }
  }

  /** On the rows of `RepeatedCategoryNotGrouped`, the rule as written and the
      rule that tests X disagree: only the latter merges the two rows. */
  lemma GroupingRulesDiffer()
    ensures var ps := [Point(Text("north"), 1.0), Point(Text("north"), 2.0)];
      && MaybeGroup(ps) == ps
      && |MaybeGroupByCategory(ps)| == 1
      && MaybeGroup(ps) != MaybeGroupByCategory(ps)
  {
    var ps := [Point(Text("north"), 1.0), Point(Text("north"), 2.0)];
    RepeatedCategoryNotGrouped();
    MaybeGroupByCategoryFacts(ps);
    assert ps[..1] == [ps[0]] && ps[..1][..0] == [];
    assert Categories(ps) == [Text("north")];
  }

  predicate SortedByYDesc(s: seq<Point>)
  {
    forall i, j :: 0 <= i < j < |s| ==> s[i].y >= s[j].y
  }

  function InsertByY(p: Point, s: seq<Point>): seq<Point>
  {
    if s == [] || s[0].y <= p.y then [p] + s else [s[0]] + InsertByY(p, s[1..])
  }

  /** `sort_values(by=y_col, ascending=False)`, with ties in input order. */
  function SortByYDesc(s: seq<Point>): seq<Point>
  {
    if s == [] then [] else InsertByY(s[0], SortByYDesc(s[1..]))
  }

  lemma {:induction false} InsertByYPermutes(p: Point, s: seq<Point>)
    ensures multiset(InsertByY(p, s)) == multiset(s) + multiset{p}
  {
    if s != [] && s[0].y > p.y {
      InsertByYPermutes(p, s[1..]);
      assert s == [s[0]] + s[1..];
    }
  }

  lemma {:induction false} InsertByYSorted(p: Point, s: seq<Point>)
    requires SortedByYDesc(s)
    ensures SortedByYDesc(InsertByY(p, s))
  {
    if s != [] && s[0].y > p.y {
      var r := InsertByY(p, s[1..]);
      InsertByYSorted(p, s[1..]);
      InsertByYPermutes(p, s[1..]);
      forall j | 0 <= j < |r| ensures s[0].y >= r[j].y {
        assert r[j] in multiset(r);
        if r[j] != p {
          assert r[j] in multiset(s[1..]);
          var m :| 0 <= m < |s[1..]| && s[1..][m] == r[j];
          assert s[m + 1] == r[j];
        }
      }
    }
  }

  /** Sorting yields the same rows, ordered by non-increasing Y. */
  lemma {:induction false} SortByYDescFacts(s: seq<Point>)
    ensures SortedByYDesc(SortByYDesc(s))
    ensures multiset(SortByYDesc(s)) == multiset(s)
    ensures |SortByYDesc(s)| == |s|
  {
    if s != [] {
      SortByYDescFacts(s[1..]);
      InsertByYSorted(s[0], SortByYDesc(s[1..]));
      InsertByYPermutes(s[0], SortByYDesc(s[1..]));
      assert s == [s[0]] + s[1..];
      assert |multiset(SortByYDesc(s))| == |multiset(s)|;
    }
  }

  /** `.head(top_n)`. */
  function Head(s: seq<Point>, n: nat): seq<Point>
  {
    if |s| <= n then s else s[..n]
  }

  /** Line 128: `sort_values(by=y_col, ascending=False).head(top_n)`. */
  function Rank(rows: seq<Point>, n: nat): seq<Point>
  {
    Head(SortByYDesc(rows), n)
  }

  /** The first `n` rows of a sorted sequence: `min(n, |s|)` of them, still
      sorted, and none of the rows left behind lies above a row kept. */
  lemma HeadOfSorted(s: seq<Point>, n: nat)
    requires SortedByYDesc(s)
    ensures var pts := Head(s, n);
      && |pts| == (if |s| < n then |s| else n)
      && pts == s[..|pts|]
      && SortedByYDesc(pts)
      && multiset(pts) <= multiset(s)
      && (forall q, p :: q in multiset(s) - multiset(pts) && p in pts ==> p.y >= q.y)
  {
    var pts := Head(s, n);
    assert s == pts + s[|pts|..];
    assert multiset(s) - multiset(pts) == multiset(s[|pts|..]);
    SplitOfSorted(s, |pts|);
  }

  /** In a sorted sequence, nothing after position `k` lies above anything before it. */
  lemma SplitOfSorted(s: seq<Point>, k: nat)
    requires SortedByYDesc(s) && k <= |s|
    ensures forall q, p :: q in multiset(s[k..]) && p in s[..k] ==> p.y >= q.y
  {
    forall q, p | q in multiset(s[k..]) && p in s[..k] ensures p.y >= q.y {
      assert q in s[k..];
      var m :| 0 <= m < |s[k..]| && s[k..][m] == q;
      var i :| 0 <= i < k && s[..k][i] == p;
      assert s[i] == p && s[k + m] == q;
    }
  }

  /** Ranking keeps `min(n, |rows|)` of the rows, the first ones of the sorted
      order, sorted by non-increasing Y, and no row it drops lies above a row
      it keeps. */
  lemma RankFacts(rows: seq<Point>, n: nat)
    ensures var pts := Rank(rows, n);
      && |pts| == (if |rows| < n then |rows| else n)
      && pts == SortByYDesc(rows)[..|pts|]
      && SortedByYDesc(pts)
      && multiset(pts) <= multiset(rows)
      && (forall q, p :: q in multiset(rows) - multiset(pts) && p in pts ==> p.y >= q.y)
  {
    SortByYDescFacts(rows);
    HeadOfSorted(SortByYDesc(rows), n);
  }

  /** The rows left before ranking: complete rows, grouped if Y repeats. */
  function RankedInput(t: Table, jx: nat, jy: nat): seq<Point>
    requires WellFormed(t) && jx < |t.cols| && jy < |t.cols|
  {
    MaybeGroup(DropIncomplete(t.cols[jx], t.cols[jy]))
  }

  /** Lines 114-128: the chart data for X column `x`, Y column `y` (absent when
      the table has no numeric column) and slider value `topN`. */
  function PrepareChart(t: Table, x: string, y: Option<string>, topN: nat): Chart
    requires WellFormed(t)
    requires MinTopN <= topN <= MaxTopN
  {
    if x == "" || y.None? || y.value == "" then NoSelection
    else if x == y.value then SameAxis
    else
      var wx, wy := Where(t.names, x), Where(t.names, y.value);
      if wx == [] then Failed(UnknownColumn(x))
      else if wy == [] then Failed(UnknownColumn(y.value))
      else if |wx| > 1 then Failed(AmbiguousColumn(x))
      else if |wy| > 1 then Failed(AmbiguousColumn(y.value))
      else if !IsNumber(t.dtypes[wy[0]]) then Failed(NonNumericY(y.value))
      else Bars(Rank(RankedInput(t, wx[0], wy[0]), topN))
  }

  /** The same column on both axes gives the warning and no chart. */
  lemma SameAxisGivesNoChart(t: Table, x: string, topN: nat)
    requires WellFormed(t) && MinTopN <= topN <= MaxTopN
    ensures x != "" ==> PrepareChart(t, x, Some(x), topN) == SameAxis
    ensures !PrepareChart(t, x, Some(x), topN).Bars?
  {
  }

  /** A selection yields bars exactly when both names are chosen and
      non-empty, differ, each names one column, and Y is numeric. */
  lemma BarsExactlyForValidSelection(t: Table, x: string, y: Option<string>, topN: nat)
    requires WellFormed(t) && MinTopN <= topN <= MaxTopN
    ensures PrepareChart(t, x, y, topN).Bars? <==>
      && x != "" && y.Some? && y.value != "" && x != y.value
      && |Where(t.names, x)| == 1 && |Where(t.names, y.value)| == 1
      && IsNumber(t.dtypes[Where(t.names, y.value)[0]])
  {
  }

  /** When bars come out, both columns exist once each and Y is numeric; the
      bars are the first `min(top_n, n)` of the `n` ranked rows, sorted by
      non-increasing Y, none with a missing category, every category a value
      of the X column, and no dropped row above a kept one. */
  lemma PrepareChartFacts(t: Table, x: string, y: Option<string>, topN: nat)
    requires WellFormed(t) && MinTopN <= topN <= MaxTopN
    ensures PrepareChart(t, x, y, topN).Bars? ==>
      var pts := PrepareChart(t, x, y, topN).points;
      && x != "" && y.Some? && x != y.value
      && |Where(t.names, x)| == 1 && |Where(t.names, y.value)| == 1
      && var jx, jy := Where(t.names, x)[0], Where(t.names, y.value)[0];
      && IsNumber(t.dtypes[jy])
      && var rows := RankedInput(t, jx, jy);
      && |pts| == (if |rows| < topN then |rows| else topN)
      && pts == SortByYDesc(rows)[..|pts|]
      && |pts| <= MaxTopN
      && SortedByYDesc(pts)
      && multiset(pts) <= multiset(rows)
      && (forall p :: p in pts ==> !p.x.Missing? && exists i :: 0 <= i < t.rows && t.cols[jx][i] == p.x)
      && (forall q, p :: q in multiset(rows) - multiset(pts) && p in pts ==> p.y >= q.y)
  {
    var c := PrepareChart(t, x, y, topN);
    if c.Bars? {
      var jx, jy := Where(t.names, x)[0], Where(t.names, y.value)[0];
      RankFacts(RankedInput(t, jx, jy), topN);
      CategoriesComeFromX(t, jx, jy, c.points);
    }
  }

  /** Grouping invents no category. */
  lemma MaybeGroupKeepsCategories(ps: seq<Point>)
    ensures forall p :: p in MaybeGroup(ps) ==> p.x in Xs(ps)
  {
    MaybeGroupFacts(ps);
    var r := MaybeGroup(ps);
    forall p | p in r ensures p.x in Xs(ps) {
      var k :| 0 <= k < |r| && r[k] == p;
      assert Xs(r)[k] == p.x;
      if r == ps {
        assert Xs(ps)[k] == p.x;
      }
    }
  }

  /** Every category on a bar is a present value of the X column. */
  lemma CategoriesComeFromX(t: Table, jx: nat, jy: nat, pts: seq<Point>)
    requires WellFormed(t) && jx < |t.cols| && jy < |t.cols|
    requires multiset(pts) <= multiset(RankedInput(t, jx, jy))
    ensures forall p :: p in pts ==> !p.x.Missing? && exists i :: 0 <= i < t.rows && t.cols[jx][i] == p.x
  {
    var complete := DropIncomplete(t.cols[jx], t.cols[jy]);
    DropIncompleteFacts(t.cols[jx], t.cols[jy]);
    MaybeGroupKeepsCategories(complete);
    forall p | p in pts ensures !p.x.Missing? && exists i :: 0 <= i < t.rows && t.cols[jx][i] == p.x {
      assert p in multiset(RankedInput(t, jx, jy));
      assert p.x in Xs(complete);
      var m :| 0 <= m < |complete| && Xs(complete)[m] == p.x;
      assert complete[m] in complete;
    }
  }
}
