/** The roster grid (worker x day -> duty) and the counts the engines keep
    of it: `list.count(c)` over a worker's row and the per-day number of
    workers holding a code. */
module Grids {
  import opened Duties

  type Row = seq<Duty>
  type Grid = seq<Row>

  /** One row per worker, one cell per day. */
  predicate Shaped(g: Grid, workers: nat, days: nat) {
    |g| == workers && forall w :: 0 <= w < |g| ==> |g[w]| == days
  }

  /** `schedule_data[w][d] = x` */
  function Put(g: Grid, w: nat, d: nat, x: Duty): Grid
    requires w < |g| && d < |g[w]|
  {
    g[w := g[w][d := x]]
  }

  /** `h` agrees with `g` on every decided cell of `g`: an automatic phase
      only ever writes cells that are still `Empty`. */
  predicate Extends(g: Grid, h: Grid) {
    && |h| == |g|
    && (forall w :: 0 <= w < |g| ==> |h[w]| == |g[w]|)
    && (forall w, d :: 0 <= w < |g| && 0 <= d < |g[w]| && g[w][d] != Empty ==> h[w][d] == g[w][d])
  }

  /** The row form of `Extends`: s keeps every decided cell of r. */
  predicate RowExtends(r: Row, s: Row) {
    |s| == |r| && forall d :: 0 <= d < |r| && r[d] != Empty ==> s[d] == r[d]
  }

  lemma ExtendsTrans(f: Grid, g: Grid, h: Grid)
    requires Extends(f, g) && Extends(g, h)
    ensures Extends(f, h)
  {
  }

  /** No cell is left undecided. */
  predicate Complete(g: Grid) {
    forall w, d :: 0 <= w < |g| && 0 <= d < |g[w]| ==> g[w][d] != Empty
  }

  /** `row.count(c)` */
  function Count(row: Row, c: Duty): nat {
    if |row| == 0 then 0
    else Count(row[..|row| - 1], c) + (if row[|row| - 1] == c then 1 else 0)
  }

  /** The number of workers holding `c` on day `d`. */
  function DayCount(g: Grid, d: nat, c: Duty): nat {
    if |g| == 0 then 0
    else DayCount(g[..|g| - 1], d, c) + (if d < |g[|g| - 1]| && g[|g| - 1][d] == c then 1 else 0)
  }

  lemma {:induction false} CountBounds(row: Row, c: Duty)
    ensures Count(row, c) <= |row|
    ensures Count(row, c) > 0 <==> c in row
  {
    if |row| > 0 {
      var n := |row| - 1;
      CountBounds(row[..n], c);
      assert row == row[..n] + [row[n]];
    }
  }

  lemma {:induction false} CountPrefix(row: Row, i: nat, c: Duty)
    requires i < |row|
    ensures Count(row[..i + 1], c) == Count(row[..i], c) + (if row[i] == c then 1 else 0)
  {
    assert row[..i + 1][..i] == row[..i];
  }

  /** Writing one cell moves the count by exactly what was replaced and written. */
  lemma {:induction false} CountUpdate(row: Row, i: nat, x: Duty, c: Duty)
    requires i < |row|
    ensures Count(row[i := x], c) == Count(row, c) - (if row[i] == c then 1 else 0) + (if x == c then 1 else 0)
  {
    var r := row[i := x];
    var n := |row| - 1;
    if i == n {
      assert r[..n] == row[..n];
    } else {
      assert r[..n] == row[..n][i := x];
      CountUpdate(row[..n], i, x, c);
    }
  }

  /** Rows that hold `c` at the same places have the same count. */
  lemma {:induction false} CountSame(r: Row, s: Row, c: Duty)
    requires |r| == |s|
    requires forall i :: 0 <= i < |r| ==> (r[i] == c <==> s[i] == c)
    ensures Count(r, c) == Count(s, c)
  {
    if |r| > 0 {
      CountSame(r[..|r| - 1], s[..|s| - 1], c);
    }
  }

  lemma {:induction false} DayCountPrefix(g: Grid, k: nat, d: nat, c: Duty)
    requires k < |g|
    ensures DayCount(g[..k + 1], d, c) == DayCount(g[..k], d, c) + (if d < |g[k]| && g[k][d] == c then 1 else 0)
  {
    assert g[..k + 1][..k] == g[..k];
  }

  /** Writing cell (w, e) moves the day count of day e only, and by exactly
      what was replaced and written. */
  lemma {:induction false} DayCountPut(g: Grid, w: nat, e: nat, x: Duty, d: nat, c: Duty)
    requires w < |g| && e < |g[w]|
    ensures DayCount(Put(g, w, e, x), d, c) ==
      DayCount(g, d, c) + (if d == e then (if x == c then 1 else 0) - (if g[w][e] == c then 1 else 0) else 0)
  {
    var h := Put(g, w, e, x);
    var n := |g| - 1;
    if w == n {
      assert h[..n] == g[..n];
    } else {
      assert h[..n] == Put(g[..n], w, e, x);
      DayCountPut(g[..n], w, e, x, d, c);
    }
  }

  /** Grids that hold `c` for the same workers on day d have the same day count. */
  lemma {:induction false} DayCountSame(g: Grid, h: Grid, d: nat, c: Duty)
    requires |g| == |h|
    requires forall w :: 0 <= w < |g| ==> |g[w]| == |h[w]|
    requires forall w :: 0 <= w < |g| && d < |g[w]| ==> (g[w][d] == c <==> h[w][d] == c)
    ensures DayCount(g, d, c) == DayCount(h, d, c)
  {
    if |g| > 0 {
      var n := |g| - 1;
      DayCountSame(g[..n], h[..n], d, c);
    }
  }

  lemma {:induction false} DayCountBound(g: Grid, d: nat, c: Duty)
    ensures DayCount(g, d, c) <= |g|
  {
    if |g| > 0 {
      DayCountBound(g[..|g| - 1], d, c);
    }
  }

  function Max(a: int, b: int): int {
    if a < b then b else a
  }

  /** What `random.shuffle` of the roster yields: every worker exactly once. */
  predicate IsOrder(perm: seq<nat>, workers: nat) {
    && (forall i :: 0 <= i < |perm| ==> perm[i] < workers)
    && (forall i, j :: 0 <= i < j < |perm| ==> perm[i] != perm[j])
    && (forall w :: 0 <= w < workers ==> w in perm)
  }

  /** `h` extends `g`, and every cell it decided that `g` left empty holds
      one of the codes in `fill`. */
  predicate FillsWith(g: Grid, h: Grid, fill: set<Duty>) {
    && Extends(g, h)
    && forall w, d :: 0 <= w < |g| && 0 <= d < |g[w]| && g[w][d] == Empty && h[w][d] != Empty ==> h[w][d] in fill
  }

  lemma FillsWithTrans(f: Grid, g: Grid, h: Grid, s: set<Duty>)
    requires FillsWith(f, g, s) && FillsWith(g, h, s)
    ensures FillsWith(f, h, s)
  {
  }

  lemma FillsWithWeaken(g: Grid, h: Grid, s: set<Duty>, t: set<Duty>)
    requires FillsWith(g, h, s) && s <= t
    ensures FillsWith(g, h, t)
  {
  }

  /** A code no phase writes keeps its counts, by day and by worker. */
  lemma FillsKeepCounts(g: Grid, h: Grid, fill: set<Duty>, c: Duty)
    requires FillsWith(g, h, fill) && c != Empty && c !in fill
    ensures forall d :: DayCount(h, d, c) == DayCount(g, d, c)
    ensures forall w :: 0 <= w < |g| ==> Count(h[w], c) == Count(g[w], c)
  {
    forall d ensures DayCount(h, d, c) == DayCount(g, d, c) {
      DayCountSame(g, h, d, c);
    }
    forall w | 0 <= w < |g| ensures Count(h[w], c) == Count(g[w], c) {
      CountSame(g[w], h[w], c);
    }
  }
}
