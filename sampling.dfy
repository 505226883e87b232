/** The rows sent along with the summary request and with a question:
    `df.sample(min(10, len(df)), random_state=seed)`. */
module Sampling {
  import opened Frame

  /** `min(10, len(df))`. */
  function SampleSize(rows: nat): (k: nat)
    ensures k <= 10 && k <= rows
    ensures k == 10 || k == rows
  {
    if rows < 10 then rows else 10
  }

  /** `p` lists each row position below `n` exactly once. */
  predicate IsPermutation(p: seq<nat>, n: nat)
  {
    && |p| == n
    && Distinct(p)
    && (forall k :: 0 <= k < |p| ==> p[k] < n)
  }

  /** Row `i` of the table, one cell per column. */
  function Row(t: Table, i: nat): (r: seq<Cell>)
    requires WellFormed(t) && i < t.rows
    ensures |r| == |t.cols|
    ensures forall j :: 0 <= j < |r| ==> r[j] == t.cols[j][i]
  {
    seq(|t.cols|, j requires 0 <= j < |t.cols| => t.cols[j][i])
  }

  /** The sampled rows and the positions they were taken from. */
  datatype Sample = Sample(positions: seq<nat>, rows: seq<seq<Cell>>)

  /** Sampling without replacement takes the first `min(10, rows)` positions
      of a shuffle of all row positions. `shuffle(seed, n)` stands for the
      random generator seeded with `seed`: which shuffle it yields is left
      open, only that it is one. */
  function DrawSample(t: Table, shuffle: (int, nat) -> seq<nat>, seed: int): (s: Sample)
    requires WellFormed(t)
    requires IsPermutation(shuffle(seed, t.rows), t.rows)
    ensures |s.positions| == |s.rows| == SampleSize(t.rows)
    ensures Distinct(s.positions)
    ensures forall k :: 0 <= k < |s.positions| ==> s.positions[k] < t.rows && s.rows[k] == Row(t, s.positions[k])
    ensures t.rows == 0 ==> s.rows == []
    ensures t.rows <= 10 ==> forall i :: 0 <= i < t.rows ==> i in s.positions
  {
    var order := shuffle(seed, t.rows);
    var positions := order[..SampleSize(t.rows)];
    EveryPositionListed(order, t.rows);
    assert t.rows <= 10 ==> positions == order;
    Sample(positions, seq(|positions|, k requires 0 <= k < |positions| => Row(t, positions[k])))
  }

  /** The positions below `n`. */
  function Below(n: nat): (s: set<nat>)
    ensures forall i: nat :: i in s <==> i < n
    ensures |s| == n
  {
    if n == 0 then {} else Below(n - 1) + {n - 1}
  }

  /** A permutation of the positions below `n` lists every one of them. */
  lemma EveryPositionListed(p: seq<nat>, n: nat)
    requires IsPermutation(p, n)
    ensures forall i :: 0 <= i < n ==> i in p
  {
    var listed := set k | 0 <= k < |p| :: p[k];
    DistinctImageSize(p);
    assert listed <= Below(n);
    forall i | 0 <= i < n ensures i in p {
      if i !in listed {
        SubsetSize(listed, Below(n) - {i});
        assert false;
      }
    }
  }

  lemma {:induction false} DistinctImageSize(p: seq<nat>)
    requires Distinct(p)
    ensures |set k | 0 <= k < |p| :: p[k]| == |p|
  {
    if p != [] {
      var init := p[..|p| - 1];
      DistinctImageSize(init);
      var s := set k | 0 <= k < |init| :: init[k];
      assert (set k | 0 <= k < |p| :: p[k]) == s + {p[|p| - 1]};
      assert p[|p| - 1] !in s;
    }
  }

  lemma {:induction false} SubsetSize(a: set<nat>, b: set<nat>)
    requires a <= b
    ensures |a| <= |b|
    decreases |b|
  {
    if b != {} {
      var y :| y in b;
      SubsetSize(a - {y}, b - {y});
    }
  }
}
