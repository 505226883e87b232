/** The "Basic Dataset Overview": shape, missing cells, and the columns
    broken down by dtype. */
module Overview {
  import opened Frame

  /** How many times `x` occurs in `s`. */
  function Occurrences<T(==)>(s: seq<T>, x: T): (n: nat)
    ensures n <= |s|
  {
    if s == [] then 0 else (if s[0] == x then 1 else 0) + Occurrences(s[1..], x)
  }

  lemma {:induction false} OccurrencesIsMultiplicity<T>(s: seq<T>, x: T)
    ensures Occurrences(s, x) == multiset(s)[x]
  {
    if s != [] {
      OccurrencesIsMultiplicity(s[1..], x);
      assert s == [s[0]] + s[1..];
    }
  }

  lemma {:induction false} OccurrencesPositive<T>(s: seq<T>, x: T)
    ensures Occurrences(s, x) > 0 <==> x in s
  {
    if s != [] {
      OccurrencesPositive(s[1..], x);
    }
  }

  /** An element of a sequence without repeats occurs in it once. */
  lemma {:induction false} OccursOnce<T>(s: seq<T>, x: T)
    requires Distinct(s) && x in s
    ensures Occurrences(s, x) == 1
  {
    if s[0] == x {
      OccurrencesPositive(s[1..], x);
    } else {
      OccursOnce(s[1..], x);
    }
  }

  /** `df.isnull().sum().sum()`: the missing cells of each column, summed. */
  function TotalMissing(cols: seq<seq<Cell>>): nat
  {
    if cols == [] then 0 else Occurrences(cols[0], Missing) + TotalMissing(cols[1..])
  }

  /** All cells, column after column. */
  function Flatten(cols: seq<seq<Cell>>): seq<Cell>
  {
    if cols == [] then [] else cols[0] + Flatten(cols[1..])
  }

  /** The per-column sum is the number of missing cells in the whole table. */
  lemma {:induction false} TotalMissingCountsCells(cols: seq<seq<Cell>>)
    ensures TotalMissing(cols) == multiset(Flatten(cols))[Missing]
  {
    if cols != [] {
      TotalMissingCountsCells(cols[1..]);
      OccurrencesIsMultiplicity(cols[0], Missing);
    }
  }

  /** There are never more missing cells than cells. */
  lemma {:induction false} TotalMissingBound(cols: seq<seq<Cell>>, rows: nat)
    requires forall j :: 0 <= j < |cols| ==> |cols[j]| == rows
    ensures TotalMissing(cols) <= rows * |cols|
  {
    if cols != [] {
      TotalMissingBound(cols[1..], rows);
      assert rows * |cols| == rows + rows * |cols[1..]|;
    }
  }

  /** `df.dtypes.unique()`: every dtype once, in order of first appearance. */
  function UniqueDTypes(ds: seq<DType>): seq<DType>
  {
    if ds == [] then []
    else
      var seen := UniqueDTypes(ds[..|ds| - 1]);
      if ds[|ds| - 1] in seen then seen else seen + [ds[|ds| - 1]]
  }

  lemma {:induction false} UniqueDTypesFacts(ds: seq<DType>)
    ensures Distinct(UniqueDTypes(ds))
    ensures forall d :: d in UniqueDTypes(ds) <==> d in ds
  {
    if ds != [] {
      var init := ds[..|ds| - 1];
      UniqueDTypesFacts(init);
      assert ds == init + [ds[|ds| - 1]];
    }
  }

  /** `df.select_dtypes(include=[d]).columns.tolist()`: the names of the
      columns of dtype `d`, in table order. */
  function NamesOfType(names: seq<string>, ds: seq<DType>, d: DType): seq<string>
    requires |names| == |ds|
  {
    if names == [] then []
    else (if ds[0] == d then [names[0]] else []) + NamesOfType(names[1..], ds[1..], d)
  }

  lemma {:induction false} NamesOfTypeCount(names: seq<string>, ds: seq<DType>, d: DType)
    requires |names| == |ds|
    ensures |NamesOfType(names, ds, d)| == Occurrences(ds, d)
  {
    if names != [] {
      NamesOfTypeCount(names[1..], ds[1..], d);
    }
  }

  /** Every column is listed under its own dtype, and every listed name is
      the name of a column of that dtype. */
  lemma {:induction false} NamesOfTypeMembers(names: seq<string>, ds: seq<DType>, d: DType)
    requires |names| == |ds|
    ensures forall j :: 0 <= j < |names| && ds[j] == d ==> names[j] in NamesOfType(names, ds, d)
    ensures forall n :: n in NamesOfType(names, ds, d) ==>
      exists j :: 0 <= j < |names| && names[j] == n && ds[j] == d
  {
    if names != [] {
      NamesOfTypeMembers(names[1..], ds[1..], d);
      forall j | 0 < j < |names| && ds[j] == d ensures names[j] in NamesOfType(names, ds, d) {
        assert names[1..][j - 1] == names[j] && ds[1..][j - 1] == ds[j];
      }
      forall n | n in NamesOfType(names[1..], ds[1..], d)
        ensures exists j :: 0 <= j < |names| && names[j] == n && ds[j] == d
      {
        var k :| 0 <= k < |names[1..]| && names[1..][k] == n && ds[1..][k] == d;
        assert names[k + 1] == n && ds[k + 1] == d;
      }
    }
  }

  /** The positions from `i` on of the columns of dtype `d`, in increasing order. */
  function PositionsOfType(ds: seq<DType>, d: DType, i: nat): seq<nat>
    requires i <= |ds|
    decreases |ds| - i
  {
    if i == |ds| then []
    else (if ds[i] == d then [i] else []) + PositionsOfType(ds, d, i + 1)
  }

  /** The k-th listed position is a position from `i` on holding dtype `d`. */
  lemma {:induction false} PositionsOfTypeAt(ds: seq<DType>, d: DType, i: nat, k: nat)
    requires i <= |ds| && k < |PositionsOfType(ds, d, i)|
    ensures i <= PositionsOfType(ds, d, i)[k] < |ds| && ds[PositionsOfType(ds, d, i)[k]] == d
    decreases |ds| - i
  {
    var h := if ds[i] == d then 1 else 0;
    if k >= h {
      PositionsOfTypeAt(ds, d, i + 1, k - h);
    }
  }

  /** Every position from `i` on holding dtype `d` is listed. */
  lemma {:induction false} PositionsOfTypeHas(ds: seq<DType>, d: DType, i: nat, j: nat)
    requires i <= j < |ds| && ds[j] == d
    ensures j in PositionsOfType(ds, d, i)
    decreases |ds| - i
  {
    if j > i {
      PositionsOfTypeHas(ds, d, i + 1, j);
    }
  }

  /** The listed positions increase. */
  lemma {:induction false} PositionsOfTypeIncreasing(ds: seq<DType>, d: DType, i: nat, k: nat, m: nat)
    requires i <= |ds| && k < m < |PositionsOfType(ds, d, i)|
    ensures PositionsOfType(ds, d, i)[k] < PositionsOfType(ds, d, i)[m]
    decreases |ds| - i
  {
    var h := if ds[i] == d then 1 else 0;
    if k >= h {
      PositionsOfTypeIncreasing(ds, d, i + 1, k - h, m - h);
    } else {
      PositionsOfTypeAt(ds, d, i + 1, m - h);
    }
  }

  /** `PositionsOfType` lists, in increasing order, exactly the positions from
      `i` on that hold dtype `d`. */
  lemma PositionsOfTypeFacts(ds: seq<DType>, d: DType, i: nat)
    requires i <= |ds|
    ensures var js := PositionsOfType(ds, d, i);
      && (forall k :: 0 <= k < |js| ==> i <= js[k] < |ds| && ds[js[k]] == d)
      && (forall j :: i <= j < |ds| && ds[j] == d ==> j in js)
      && (forall k, m :: 0 <= k < m < |js| ==> js[k] < js[m])
  {
    var js := PositionsOfType(ds, d, i);
    forall k | 0 <= k < |js| ensures i <= js[k] < |ds| && ds[js[k]] == d {
      PositionsOfTypeAt(ds, d, i, k);
    }
    forall j | i <= j < |ds| && ds[j] == d ensures j in js {
      PositionsOfTypeHas(ds, d, i, j);
    }
    forall k, m | 0 <= k < m < |js| ensures js[k] < js[m] {
      PositionsOfTypeIncreasing(ds, d, i, k, m);
    }
  }

  /** One step of `NamesOfType` from position `i`. */
  lemma NamesOfTypeStep(names: seq<string>, ds: seq<DType>, d: DType, i: nat)
    requires |names| == |ds| && i < |names|
    ensures NamesOfType(names[i..], ds[i..], d)
      == (if ds[i] == d then [names[i]] else []) + NamesOfType(names[i + 1..], ds[i + 1..], d)
  {
    assert names[i..][1..] == names[i + 1..] && ds[i..][1..] == ds[i + 1..];
  }

  lemma {:induction false} NamesOfTypeFromLength(names: seq<string>, ds: seq<DType>, d: DType, i: nat)
    requires |names| == |ds| && i <= |names|
    ensures |NamesOfType(names[i..], ds[i..], d)| == |PositionsOfType(ds, d, i)|
    decreases |names| - i
  {
    if i < |names| {
      NamesOfTypeFromLength(names, ds, d, i + 1);
      NamesOfTypeStep(names, ds, d, i);
    }
  }

  lemma {:induction false} NamesOfTypeFromAt(names: seq<string>, ds: seq<DType>, d: DType, i: nat, k: nat)
    requires |names| == |ds| && i <= |names|
    requires k < |PositionsOfType(ds, d, i)|
    ensures k < |NamesOfType(names[i..], ds[i..], d)|
      && PositionsOfType(ds, d, i)[k] < |names|
      && NamesOfType(names[i..], ds[i..], d)[k] == names[PositionsOfType(ds, d, i)[k]]
    decreases |names| - i
  {
    NamesOfTypeFromLength(names, ds, d, i);
    PositionsOfTypeAt(ds, d, i, k);
    NamesOfTypeStep(names, ds, d, i);
    var h := if ds[i] == d then 1 else 0;
    if k >= h {
      NamesOfTypeFromAt(names, ds, d, i + 1, k - h);
    }
  }

  /** A `cols_by_type` list names the columns of its dtype in table order:
      its k-th name is the name of the k-th column of that dtype. */
  lemma NamesOfTypeInTableOrder(names: seq<string>, ds: seq<DType>, d: DType)
    requires |names| == |ds|
    ensures var ns, js := NamesOfType(names, ds, d), PositionsOfType(ds, d, 0);
      && (forall k :: 0 <= k < |js| ==> js[k] < |ds| && ds[js[k]] == d)
      && (forall j :: 0 <= j < |ds| && ds[j] == d ==> j in js)
      && (forall k, m :: 0 <= k < m < |js| ==> js[k] < js[m])
      && |ns| == |js|
      && forall k :: 0 <= k < |js| ==> ns[k] == names[js[k]]
  {
    PositionsOfTypeFacts(ds, d, 0);
    assert names[0..] == names && ds[0..] == ds;
    NamesOfTypeFromLength(names, ds, d, 0);
    forall k | 0 <= k < |PositionsOfType(ds, d, 0)|
      ensures NamesOfType(names, ds, d)[k] == names[PositionsOfType(ds, d, 0)[k]]
    {
      NamesOfTypeFromAt(names, ds, d, 0, k);
    }
  }

  /** One entry of `cols_by_type`. */
  datatype TypeGroup = TypeGroup(dtype: DType, names: seq<string>)

  function GroupsFor(us: seq<DType>, names: seq<string>, ds: seq<DType>): seq<TypeGroup>
    requires |names| == |ds|
  {
    if us == [] then [] else [TypeGroup(us[0], NamesOfType(names, ds, us[0]))] + GroupsFor(us[1..], names, ds)
  }

  /** `cols_by_type`: for each dtype in order of first appearance, its column names. */
  function ColsByType(t: Table): seq<TypeGroup>
    requires |t.names| == |t.dtypes|
  {
    GroupsFor(UniqueDTypes(t.dtypes), t.names, t.dtypes)
  }

  /** `df.dtypes.value_counts()`: the number of columns of each dtype. */
  function TypeCounts(t: Table): map<DType, nat>
  {
    map d | d in t.dtypes :: Occurrences(t.dtypes, d)
  }

  /** The snapshot printed under "Dataset Summary". */
  datatype Summary = Summary(
    totalRows: nat, totalCols: nat, totalMissing: nat,
    typeCounts: map<DType, nat>, colsByType: seq<TypeGroup>)

  function Summarise(t: Table): Summary
    requires WellFormed(t)
  {
    Summary(t.rows, |t.names|, TotalMissing(t.cols), TypeCounts(t), ColsByType(t))
  }

  /** Rows and columns are the table's shape; the missing count is exactly the
      number of missing cells, so it lies between 0 and rows times columns and
      is 0 for a table without rows. */
  lemma SummaryShape(t: Table)
    requires WellFormed(t)
    ensures var s := Summarise(t);
      && s.totalRows == t.rows
      && s.totalCols == |t.names| == |t.cols|
      && s.totalMissing == multiset(Flatten(t.cols))[Missing]
      && s.totalMissing <= s.totalRows * s.totalCols
      && (t.rows == 0 ==> s.totalMissing == 0)
  {
    TotalMissingCountsCells(t.cols);
    TotalMissingBound(t.cols, t.rows);
  }

  /** Sum of the group sizes. */
  function GroupSizes(gs: seq<TypeGroup>): nat
  {
    if gs == [] then 0 else |gs[0].names| + GroupSizes(gs[1..])
  }

  /** Sum over `us` of how often each occurs in `ds`. */
  function CountsOver(us: seq<DType>, ds: seq<DType>): nat
  {
    if us == [] then 0 else Occurrences(ds, us[0]) + CountsOver(us[1..], ds)
  }

  lemma {:induction false} CountsOverCons(us: seq<DType>, a: DType, ds: seq<DType>)
    ensures CountsOver(us, [a] + ds) == CountsOver(us, ds) + Occurrences(us, a)
  {
    if us != [] {
      CountsOverCons(us[1..], a, ds);
      assert ([a] + ds)[1..] == ds;
    }
  }

  /** Counting every dtype of a repeat-free list that covers `ds` counts each
      column exactly once. */
  lemma {:induction false} CountsOverAll(us: seq<DType>, ds: seq<DType>)
    requires Distinct(us)
    requires forall d :: d in ds ==> d in us
    ensures CountsOver(us, ds) == |ds|
  {
    if ds == [] {
      CountsOverEmpty(us);
    } else {
      assert ds == [ds[0]] + ds[1..];
      CountsOverCons(us, ds[0], ds[1..]);
      OccursOnce(us, ds[0]);
      CountsOverAll(us, ds[1..]);
    }
  }

  lemma {:induction false} CountsOverEmpty(us: seq<DType>)
    ensures CountsOver(us, []) == 0
  {
    if us != [] {
      CountsOverEmpty(us[1..]);
    }
  }

  lemma {:induction false} GroupsForFacts(us: seq<DType>, names: seq<string>, ds: seq<DType>)
    requires |names| == |ds|
    ensures var gs := GroupsFor(us, names, ds);
      && |gs| == |us|
      && (forall k :: 0 <= k < |gs| ==> gs[k].dtype == us[k] && |gs[k].names| == Occurrences(ds, us[k]))
      && GroupSizes(gs) == CountsOver(us, ds)
  {
    if us != [] {
      GroupsForFacts(us[1..], names, ds);
      NamesOfTypeCount(names, ds, us[0]);
    }
  }

  /** `type_counts` lists exactly the dtypes present, each with its number of columns. */
  lemma TypeCountsFacts(t: Table)
    ensures forall d :: d in TypeCounts(t) <==> d in t.dtypes
    ensures forall d :: d in TypeCounts(t) ==> TypeCounts(t)[d] == Occurrences(t.dtypes, d) > 0
  {
    forall d | d in t.dtypes ensures Occurrences(t.dtypes, d) > 0 {
      OccurrencesPositive(t.dtypes, d);
    }
  }

  /** `cols_by_type` has one group per dtype present and no dtype twice. */
  lemma TypeGroupsCoverDTypes(t: Table)
    requires |t.names| == |t.dtypes|
    ensures var gs := ColsByType(t);
      && (forall d :: d in t.dtypes <==> exists k :: 0 <= k < |gs| && gs[k].dtype == d)
      && (forall k, m :: 0 <= k < m < |gs| ==> gs[k].dtype != gs[m].dtype)
  {
    var us := UniqueDTypes(t.dtypes);
    var gs := ColsByType(t);
    UniqueDTypesFacts(t.dtypes);
    GroupsForFacts(us, t.names, t.dtypes);
    forall d | d in t.dtypes ensures exists k :: 0 <= k < |gs| && gs[k].dtype == d {
      var k :| 0 <= k < |us| && us[k] == d;
      assert gs[k].dtype == d;
    }
  }

  /** `cols_by_type` and `type_counts` agree: no group is empty, each group is
      as large as `type_counts` says, and the group sizes add up to `total_cols`. */
  lemma TypeGroupsCountColumns(t: Table)
    requires |t.names| == |t.dtypes|
    ensures var gs := ColsByType(t);
      && (forall k :: 0 <= k < |gs| ==>
            gs[k].dtype in TypeCounts(t) && |gs[k].names| == TypeCounts(t)[gs[k].dtype] > 0)
      && GroupSizes(gs) == |t.names|
  {
    var us := UniqueDTypes(t.dtypes);
    var gs := ColsByType(t);
    UniqueDTypesFacts(t.dtypes);
    GroupsForFacts(us, t.names, t.dtypes);
    CountsOverAll(us, t.dtypes);
    TypeCountsFacts(t);
  }

  /** `cols_by_type` places every column under its own dtype. */
  lemma TypeGroupsPlaceColumns(t: Table)
    requires |t.names| == |t.dtypes|
    ensures var gs := ColsByType(t);
      forall j :: 0 <= j < |t.names| ==>
        exists k :: 0 <= k < |gs| && gs[k].dtype == t.dtypes[j] && t.names[j] in gs[k].names
  {
    var gs := ColsByType(t);
    forall j | 0 <= j < |t.names|
      ensures exists k :: 0 <= k < |gs| && gs[k].dtype == t.dtypes[j] && t.names[j] in gs[k].names
    {
      ColumnInItsGroup(t, j);
    }
  }

  lemma ColumnInItsGroup(t: Table, j: nat)
    requires |t.names| == |t.dtypes| && j < |t.names|
    ensures exists k :: 0 <= k < |ColsByType(t)| && ColsByType(t)[k].dtype == t.dtypes[j] && t.names[j] in ColsByType(t)[k].names
  {
    var us := UniqueDTypes(t.dtypes);
    UniqueDTypesFacts(t.dtypes);
    assert t.dtypes[j] in us;
    var k :| 0 <= k < |us| && us[k] == t.dtypes[j];
    GroupsForNames(us, t.names, t.dtypes, k);
    NamesOfTypeMembers(t.names, t.dtypes, us[k]);
    assert ColsByType(t)[k].dtype == t.dtypes[j] && t.names[j] in ColsByType(t)[k].names;
  }

  /** `cols_by_type` lists under a dtype only names of columns of that dtype. */
  lemma TypeGroupsHoldOwnType(t: Table)
    requires |t.names| == |t.dtypes|
    ensures var gs := ColsByType(t);
      forall k, n :: 0 <= k < |gs| && n in gs[k].names ==>
        exists j :: 0 <= j < |t.names| && t.names[j] == n && t.dtypes[j] == gs[k].dtype
  {
    var us := UniqueDTypes(t.dtypes);
    var gs := ColsByType(t);
    GroupsForFacts(us, t.names, t.dtypes);
    forall k, n | 0 <= k < |gs| && n in gs[k].names
      ensures exists j :: 0 <= j < |t.names| && t.names[j] == n && t.dtypes[j] == gs[k].dtype
    {
      GroupsForNames(us, t.names, t.dtypes, k);
      NamesOfTypeMembers(t.names, t.dtypes, us[k]);
    }
  }

  lemma {:induction false} GroupsForNames(us: seq<DType>, names: seq<string>, ds: seq<DType>, k: nat)
    requires |names| == |ds| && k < |us|
    ensures |GroupsFor(us, names, ds)| == |us|
    ensures GroupsFor(us, names, ds)[k] == TypeGroup(us[k], NamesOfType(names, ds, us[k]))
  {
    GroupsForFacts(us, names, ds);
    if k > 0 {
      GroupsForNames(us[1..], names, ds, k - 1);
    }
  }
}
