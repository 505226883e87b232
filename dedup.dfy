/** pandas' repeat-suffix rule for duplicate column names (the reader's
    `_maybe_dedup_names`): a later copy of `c` becomes `c.1`, `c.2`, ...,
    and a suffixed name that is itself taken is suffixed again. */
module Dedup {
  import opened Frame

  /** Decimal text of a natural number, as Python's `str` writes it. */
  function NatToString(n: nat): (s: string)
    ensures |s| >= 1
    ensures forall k :: 0 <= k < |s| ==> '0' <= s[k] <= '9'
  {
    if n < 10 then ["0123456789"[n]] else NatToString(n / 10) + ["0123456789"[n % 10]]
  }

  /** The reader's `counts` dictionary, a `defaultdict(int)`. */
  type Counts = map<string, nat>

  /** `counts[k]` on a `defaultdict(int)`: an absent key reads as 0. */
  function Seen(counts: Counts, k: string): nat
  {
    if k in counts then counts[k] else 0
  }

  /** The names that `counts` marks as already used. */
  ghost function Taken(counts: Counts): set<string>
  {
    set k | k in counts && counts[k] > 0
  }

  /** Taken names at least `n` characters long; shrinks on every suffixing step. */
  ghost function TakenFrom(counts: Counts, n: nat): set<string>
  {
    set k | k in counts && counts[k] > 0 && |k| >= n
  }

  /** Suffixing `col` with its current count is progress: the taken names at
      least as long as the new name are fewer than before. */
  lemma SuffixShrinks(col: string, counts: Counts)
    requires Seen(counts, col) > 0
    ensures var cur := Seen(counts, col);
      TakenFrom(counts[col := cur + 1], |col + "." + NatToString(cur)|) < TakenFrom(counts, |col|)
  {
    var cur := Seen(counts, col);
    var counts' := counts[col := cur + 1];
    var col' := col + "." + NatToString(cur);
    assert col in TakenFrom(counts, |col|);
    assert col !in TakenFrom(counts', |col'|);
    forall k | k in TakenFrom(counts', |col'|) ensures k in TakenFrom(counts, |col|) {
      if k != col {
        assert k in counts && counts[k] == counts'[k];
      }
    }
  }

  /** The inner `while cur_count > 0` loop: suffix `col` until the name is
      free, bumping the count of each name it passes. */
  function Resolve(col: string, counts: Counts): (string, Counts)
    decreases TakenFrom(counts, |col|)
  {
    var cur := Seen(counts, col);
    if cur == 0 then (col, counts)
    else
      SuffixShrinks(col, counts);
      Resolve(col + "." + NatToString(cur), counts[col := cur + 1])
  }

  /** The outer loop over the names, from a given `counts` state. */
  function DedupFrom(names: seq<string>, counts: Counts): seq<string>
    decreases |names|
  {
    if names == [] then []
    else
      var (col, counts') := Resolve(names[0], counts);
      [col] + DedupFrom(names[1..], counts'[col := 1])
  }

  /** The new column list the reader computes for `names`. */
  function DedupNames(names: seq<string>): seq<string>
  {
    DedupFrom(names, map[])
  }

  /** What the inner loop achieves: the name it settles on is free, it extends
      `col`, it is `col` itself exactly when `col` was free, and the set of
      taken names is unchanged. */
  lemma {:induction false} ResolveFacts(col: string, counts: Counts)
    ensures var (c, counts') := Resolve(col, counts);
      && Seen(counts', c) == 0
      && c !in Taken(counts)
      && Taken(counts') == Taken(counts)
      && col <= c
      && (c == col <==> Seen(counts, col) == 0)
    decreases TakenFrom(counts, |col|)
  {
    var cur := Seen(counts, col);
    if cur > 0 {
      var col' := col + "." + NatToString(cur);
      var next := counts[col := cur + 1];
      SuffixShrinks(col, counts);
      ResolveFacts(col', next);
      assert Taken(next) == Taken(counts) by {
        assert col in Taken(counts);
      }
      var (c, _) := Resolve(col', next);
      assert col <= col' <= c;
      assert |c| >= |col'| > |col|;
    }
  }

  /** The outer loop's invariant, from any starting `counts`: one name per
      input name, pairwise distinct, none of them already taken, each
      extending its original, and a name kept exactly when it is free. */
  lemma {:induction false} DedupFromFacts(names: seq<string>, counts: Counts)
    ensures var r := DedupFrom(names, counts);
      && |r| == |names|
      && Distinct(r)
      && (forall i :: 0 <= i < |r| ==> r[i] !in Taken(counts))
      && (forall i :: 0 <= i < |r| ==> names[i] <= r[i])
      && (forall i :: 0 <= i < |r| ==>
            (r[i] == names[i] <==> names[i] !in Taken(counts) && names[i] !in r[..i]))
    decreases |names|
  {
    if names != [] {
      var (c, counts') := Resolve(names[0], counts);
      ResolveFacts(names[0], counts);
      var next := counts'[c := 1];
      assert Taken(next) == Taken(counts) + {c};
      DedupFromFacts(names[1..], next);
      var rest := DedupFrom(names[1..], next);
      var r := DedupFrom(names, counts);
      assert r == [c] + rest;
      forall i | 0 <= i < |r|
        ensures r[i] == names[i] <==> names[i] !in Taken(counts) && names[i] !in r[..i]
      {
        if i > 0 {
          assert r[..i] == [c] + rest[..i - 1];
          assert names[i] == names[1..][i - 1];
        }
      }
    }
  }

  /** The deduplicated column list has one name per column, all distinct, the
      first name unchanged, every name extending the one it replaces, and a
      name changed exactly when an earlier column already holds it. */
  lemma DedupNamesFacts(names: seq<string>)
    ensures var r := DedupNames(names);
      && |r| == |names|
      && Distinct(r)
      && (|names| > 0 ==> r[0] == names[0])
      && (forall i :: 0 <= i < |r| ==> names[i] <= r[i])
      && (forall i :: 0 <= i < |r| ==> (r[i] == names[i] <==> names[i] !in r[..i]))
  {
    DedupFromFacts(names, map[]);
    assert Taken(map[]) == {};
  }

  /** Names that are distinct and all free come through untouched. */
  lemma {:induction false} DedupFromFreeIsIdentity(names: seq<string>, counts: Counts)
    requires Distinct(names)
    requires forall i :: 0 <= i < |names| ==> names[i] !in Taken(counts)
    ensures DedupFrom(names, counts) == names
    decreases |names|
  {
    if names != [] {
      var (c, counts') := Resolve(names[0], counts);
      ResolveFacts(names[0], counts);
      var next := counts'[c := 1];
      assert Taken(next) == Taken(counts) + {names[0]};
      forall i | 0 <= i < |names[1..]| ensures names[1..][i] !in Taken(next) {
        assert names[1..][i] == names[i + 1] != names[0];
      }
      DedupFromFreeIsIdentity(names[1..], next);
    }
  }

  /** Names that are already distinct come through untouched. */
  lemma DedupDistinctIsIdentity(names: seq<string>)
    requires Distinct(names)
    ensures DedupNames(names) == names
  {
    assert Taken(map[]) == {};
    DedupFromFreeIsIdentity(names, map[]);
  }

  /** Two columns called `date` and one called `sales`: the second `date`
      becomes `date.1`. */
  lemma DedupDateExample()
    ensures DedupNames(["date", "date", "sales"]) == ["date", "date.1", "sales"]
  {
    var c1: Counts := map["date" := 1];
    assert Resolve("date", map[]) == ("date", map[]);
    assert NatToString(1) == "1";
    assert "date" + "." + NatToString(1) == "date.1";
    assert Resolve("date.1", c1["date" := 2]) == ("date.1", c1["date" := 2]);
    assert Resolve("date", c1) == ("date.1", c1["date" := 2]);
    var c2: Counts := c1["date" := 2]["date.1" := 1];
    assert Resolve("sales", c2) == ("sales", c2);
  }

  /** A suffixed name that is itself taken is suffixed again: `a`, `a`, `a.1`
      become `a`, `a.1`, `a.1.1`. */
  lemma DedupTakenSuffixExample()
    ensures DedupNames(["a", "a", "a.1"]) == ["a", "a.1", "a.1.1"]
  {
    var c1: Counts := map["a" := 1];
    assert NatToString(1) == "1";
    assert Resolve("a", map[]) == ("a", map[]);
    assert "a" + "." + NatToString(1) == "a.1";
    assert Resolve("a.1", c1["a" := 2]) == ("a.1", c1["a" := 2]);
    assert Resolve("a", c1) == ("a.1", c1["a" := 2]);
    var c2: Counts := c1["a" := 2]["a.1" := 1];
    assert "a.1" + "." + NatToString(1) == "a.1.1";
    assert Resolve("a.1.1", c2["a.1" := 2]) == ("a.1.1", c2["a.1" := 2]);
    assert Resolve("a.1", c2) == ("a.1.1", c2["a.1" := 2]);
  }

  /** The reader's loop itself: a `for` over the names with the inner `while`
      that suffixes a taken name until it is free. */
  method MaybeDedupNames(names: seq<string>) returns (r: seq<string>)
    ensures r == DedupNames(names)
  {
    var counts: Counts := map[];
    r := [];
    for i := 0 to |names|
      invariant r + DedupFrom(names[i..], counts) == DedupNames(names)
    {
      ghost var start := counts;
      var col := names[i];
      var cur := Seen(counts, col);
      while cur > 0
        invariant cur == Seen(counts, col)
        invariant Resolve(col, counts) == Resolve(names[i], start)
        decreases TakenFrom(counts, |col|)
      {
        SuffixShrinks(col, counts);
        counts := counts[col := cur + 1];
        col := col + "." + NatToString(cur);
        cur := Seen(counts, col);
      }
      assert names[i..][1..] == names[i + 1..];
      r := r + [col];
      counts := counts[col := cur + 1];
    }
  }
}
