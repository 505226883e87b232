/** Load-time normalisation of the uploaded table: duplicate column names are
    made unique, and a leading `Unnamed: 0` column that looks like a saved row
    index is renamed `index`. Both steps update the DataFrame in place. */
module Normalise {
  import opened Frame
  import opened Dedup

  const UnnamedIndex: string := "Unnamed: 0"
  const IndexName: string := "index"

  /** `df.columns.duplicated().any()`. */
  predicate HasDuplicates(names: seq<string>)
  {
    exists i, j :: 0 <= i < j < |names| && names[i] == names[j]
  }

  /** Python's `<` on strings: lexicographic by code point. */
  predicate StrLess(a: string, b: string)
  {
    if a == [] then b != []
    else if b == [] then false
    else a[0] < b[0] || (a[0] == b[0] && StrLess(a[1..], b[1..]))
  }

  /** Strict order on two present cells of the same kind; cells of different
      kinds, and missing cells, do not compare. */
  predicate CellLess(a: Cell, b: Cell)
  {
    match (a, b)
    case (Num(x), Num(y)) => x < y
    case (Text(x), Text(y)) => StrLess(x, y)
    case (Flag(x), Flag(y)) => !x && y
    case _ => false
  }

  /** Non-strict order on present cells; a missing cell compares with nothing. */
  predicate CellLessEq(a: Cell, b: Cell)
  {
    !a.Missing? && (a == b || CellLess(a, b))
  }

  /** `Series.is_unique`: no value twice (two missing markers count as one value twice). */
  predicate IsUnique(col: seq<Cell>)
  {
    Distinct(col)
  }

  /** `Series.is_monotonic_increasing`: false as soon as a value is missing. */
  predicate IsMonotonicIncreasing(col: seq<Cell>)
  {
    && (forall i :: 0 <= i < |col| ==> !col[i].Missing?)
    && (forall i :: 0 <= i < |col| - 1 ==> CellLessEq(col[i], col[i + 1]))
  }

  /** The test on line 32 that decides whether `Unnamed: 0` is a row index. */
  predicate IsProperIndex(col: seq<Cell>)
  {
    IsUnique(col) && IsMonotonicIncreasing(col)
  }

  /** Every value present and each strictly below the next. */
  predicate StrictlyIncreasing(col: seq<Cell>)
  {
    && (forall i :: 0 <= i < |col| ==> !col[i].Missing?)
    && (forall i :: 0 <= i < |col| - 1 ==> CellLess(col[i], col[i + 1]))
  }

  lemma {:induction false} StrLessIrreflexive(a: string)
    ensures !StrLess(a, a)
  {
    if a != [] {
      StrLessIrreflexive(a[1..]);
    }
  }

  lemma {:induction false} StrLessTransitive(a: string, b: string, c: string)
    requires StrLess(a, b) && StrLess(b, c)
    ensures StrLess(a, c)
  {
    if a != [] && b != [] && c != [] && a[0] == b[0] == c[0] {
      StrLessTransitive(a[1..], b[1..], c[1..]);
    }
  }

  lemma CellLessIrreflexive(a: Cell)
    ensures !CellLess(a, a)
  {
    if a.Text? {
      StrLessIrreflexive(a.s);
    }
  }

  lemma CellLessTransitive(a: Cell, b: Cell, c: Cell)
    requires CellLess(a, b) && CellLess(b, c)
    ensures CellLess(a, c)
  {
    if a.Text? {
      StrLessTransitive(a.s, b.s, c.s);
    }
  }

  /** Adjacent strict steps give a strict order between any two positions. */
  lemma {:induction false} StrictlyIncreasingOrdered(col: seq<Cell>, i: nat, j: nat)
    requires StrictlyIncreasing(col)
    requires i < j < |col|
    ensures CellLess(col[i], col[j])
    decreases j - i
  {
    if i + 1 < j {
      StrictlyIncreasingOrdered(col, i + 1, j);
      CellLessTransitive(col[i], col[i + 1], col[j]);
    }
  }

  /** "Unique and monotonic increasing" is exactly "present and strictly
      increasing", in both directions. */
  lemma ProperIndexIsStrictlyIncreasing(col: seq<Cell>)
    ensures IsProperIndex(col) <==> StrictlyIncreasing(col)
  {
    if StrictlyIncreasing(col) {
      forall i, j | 0 <= i < j < |col| ensures col[i] != col[j] {
        StrictlyIncreasingOrdered(col, i, j);
        CellLessIrreflexive(col[i]);
      }
      forall i | 0 <= i < |col| - 1 ensures CellLessEq(col[i], col[i + 1]) {
      }
    }
    if IsProperIndex(col) {
      forall i | 0 <= i < |col| - 1 ensures CellLess(col[i], col[i + 1]) {
        assert col[i] != col[i + 1];
      }
    }
  }

  /** Position of the first column called `name`, if any. */
  function IndexOf(names: seq<string>, name: string): (r: Option<nat>)
    ensures r.None? <==> name !in names
    ensures r.Some? ==> r.value < |names| && names[r.value] == name && name !in names[..r.value]
  {
    if names == [] then None
    else if names[0] == name then Some(0)
    else match IndexOf(names[1..], name)
      case None => None
      case Some(k) => assert names[..k + 1] == [names[0]] + names[1..][..k]; Some(k + 1)
  }

  /** `df.rename(columns={'Unnamed: 0': 'index'})`: every column called
      `Unnamed: 0` is called `index` afterwards. */
  function RenameIndexColumn(names: seq<string>): seq<string>
  {
    seq(|names|, i requires 0 <= i < |names| => if names[i] == UnnamedIndex then IndexName else names[i])
  }

  /** On distinct names without an `index` column the rename keeps the names distinct. */
  lemma RenameKeepsDistinct(names: seq<string>)
    requires Distinct(names) && IndexName !in names
    ensures Distinct(RenameIndexColumn(names))
  {
    var r := RenameIndexColumn(names);
    forall i, j | 0 <= i < j < |r| ensures r[i] != r[j] {
      assert names[i] != IndexName && names[j] != IndexName;
    }
  }

  /** Lines 26-28 on the table value: deduplicate when some name repeats;
      the flag is the warning shown to the user. */
  function FixDuplicates(t: Table): (Table, bool)
  {
    if HasDuplicates(t.names) then (t.(names := DedupNames(t.names)), true) else (t, false)
  }

  /** Lines 31-35 on the table value: rename `Unnamed: 0` when its values form
      a proper index, otherwise keep it and warn. */
  function FixIndexColumn(t: Table): (Table, bool)
    requires WellFormed(t)
  {
    match IndexOf(t.names, UnnamedIndex)
    case None => (t, false)
    case Some(j) =>
      if IsProperIndex(t.cols[j]) then (t.(names := RenameIndexColumn(t.names)), false)
      else (t, true)
  }

  /** Deduplication runs exactly when a name repeats, leaves the data, the
      dtypes and the row count alone, and yields distinct names of the same
      number, the first one unchanged, each extending the name it replaces. */
  lemma FixDuplicatesFacts(t: Table)
    ensures var (r, warned) := FixDuplicates(t);
      && warned == HasDuplicates(t.names)
      && r.cols == t.cols && r.dtypes == t.dtypes && r.rows == t.rows
      && |r.names| == |t.names|
      && Distinct(r.names)
      && (|t.names| > 0 ==> r.names[0] == t.names[0])
      && (forall i :: 0 <= i < |t.names| ==> t.names[i] <= r.names[i])
      && (forall i :: 0 <= i < |t.names| ==> (r.names[i] == t.names[i] <==> t.names[i] !in r.names[..i]))
      && (!warned ==> r == t)
  {
    if HasDuplicates(t.names) {
      DedupNamesFacts(t.names);
    } else {
      forall i | 0 <= i < |t.names| ensures t.names[i] !in t.names[..i] {
        assert forall k :: 0 <= k < i ==> t.names[..i][k] == t.names[k] != t.names[i];
      }
    }
  }

  /** `Unnamed: 0` becomes `index` exactly when that column is present and its
      values are all present and strictly increasing; otherwise the names are
      unchanged, and the warning is raised exactly when the column is there
      but is no proper index. When the names are distinct, no other name
      changes. The cells, dtypes and row count never change. */
  lemma FixIndexColumnFacts(t: Table)
    requires WellFormed(t)
    ensures var (r, warned) := FixIndexColumn(t);
      && r.cols == t.cols && r.dtypes == t.dtypes && r.rows == t.rows
      && |r.names| == |t.names|
      && match IndexOf(t.names, UnnamedIndex)
         case None => r.names == t.names && !warned
         case Some(j) =>
           && (StrictlyIncreasing(t.cols[j]) ==>
                 r.names[j] == IndexName && !warned
                 && (Distinct(t.names) ==> forall i :: 0 <= i < |t.names| && i != j ==> r.names[i] == t.names[i]))
           && (!StrictlyIncreasing(t.cols[j]) ==> r.names == t.names && warned)
  {
    match IndexOf(t.names, UnnamedIndex)
    case None =>
    case Some(j) =>
      ProperIndexIsStrictlyIncreasing(t.cols[j]);
  }

  /** The one way the rename can break unique names: a table that already has
      an `index` column next to a proper `Unnamed: 0` column ends up with two
      columns called `index`. */
  lemma RenameCanCollide()
    ensures var t := Table([UnnamedIndex, IndexName], [Int64, Int64], [[Num(0.0)], [Num(7.0)]], 1);
      && WellFormed(t) && Distinct(t.names)
      && FixIndexColumn(t).0.names == [IndexName, IndexName]
  {
    var t := Table([UnnamedIndex, IndexName], [Int64, Int64], [[Num(0.0)], [Num(7.0)]], 1);
    assert IndexOf(t.names, UnnamedIndex) == Some(0);
    assert IsProperIndex(t.cols[0]);
  }

  /** The uploaded DataFrame `df`, whose column list the two load-time steps
      reassign in place. */
  class DataFrame {
    var columns: seq<string>
    var dtypes: seq<DType>
    var data: seq<seq<Cell>>
    var rows: nat

    /** The table value the rest of the script reads. */
    function View(): Table
      reads this
    {
      Table(columns, dtypes, data, rows)
    }

    ghost predicate Valid()
      reads this
    {
      WellFormed(View())
    }

    /** `pd.read_csv`: the parsed table arrives as the constructor's argument. */
    constructor (t: Table)
      requires WellFormed(t)
      ensures Valid() && View() == t
    {
      columns, dtypes, data, rows := t.names, t.dtypes, t.cols, t.rows;
    }

    /** Lines 26-28: `df.columns = ...` when some name repeats. */
    method FixDuplicateColumns() returns (warned: bool)
      requires Valid()
      modifies this
      ensures Valid()
      ensures (View(), warned) == FixDuplicates(old(View()))
      ensures Distinct(columns)
    {
      FixDuplicatesFacts(View());
      warned := HasDuplicates(columns);
      if warned {
        columns := MaybeDedupNames(columns);
      }
    }

    /** Lines 31-35: `df.rename(..., inplace=True)` when `Unnamed: 0` is a
        proper index, a warning when it is present but is not. */
    method FixUnnamedIndex() returns (warned: bool)
      requires Valid()
      modifies this
      ensures Valid()
      ensures (View(), warned) == FixIndexColumn(old(View()))
    {
      warned := false;
      var j := IndexOf(columns, UnnamedIndex);
      if j.Some? {
        if IsProperIndex(data[j.value]) {
          columns := RenameIndexColumn(columns);
        } else {
          warned := true;
        }
      }
    }

    /** Lines 25-35 in order. Afterwards names are distinct unless the rename
        met an existing `index` column. */
    method Normalise() returns (duplicateWarning: bool, indexWarning: bool)
      requires Valid()
      modifies this
      ensures Valid()
      ensures var (mid, w1) := FixDuplicates(old(View()));
        && duplicateWarning == w1
        && WellFormed(mid)
        && (View(), indexWarning) == FixIndexColumn(mid)
      ensures IndexName !in FixDuplicates(old(View())).0.names ==> Distinct(columns)
    {
      duplicateWarning := FixDuplicateColumns();
      if IndexName !in columns {
        RenameKeepsDistinct(columns);
      }
      indexWarning := FixUnnamedIndex();
    }
  }
}
