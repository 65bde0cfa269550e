/** The transient counters of the patched engine: `daily_n_usage` (night
    duties per day) and `duty_counts` (each worker's count of every work
    code), and the invariant that they always equal the counts of the grid. */
module Counters {
  import opened Duties
  import opened Grids

  /** `duty_counts[name]` : counts of D, E, N and DH. */
  datatype Tally = Tally(d: nat, e: nat, n: nat, dh: nat)

  const Zero := Tally(0, 0, 0, 0)

  /** `duty_counts[name][c]`, or `.get(c, 0)` for a code that is not counted. */
  function Get(t: Tally, c: Duty): nat {
    match c
    case D => t.d
    case E => t.e
    case N => t.n
    case DH => t.dh
    case _ => 0
  }

  /** `duty_counts[name][c] += 1` for a work code; other codes are not counted. */
  function Bump(t: Tally, c: Duty): (r: Tally)
    ensures forall x :: IsWork(x) ==> Get(r, x) == Get(t, x) + (if x == c then 1 else 0)
    ensures !IsWork(c) ==> r == t
  {
    match c
    case D => t.(d := t.d + 1)
    case E => t.(e := t.e + 1)
    case N => t.(n := t.n + 1)
    case DH => t.(dh := t.dh + 1)
    case _ => t
  }

  /** What `duty_counts[name]` must be for a row. */
  function RowTally(row: Row): Tally {
    Tally(Count(row, D), Count(row, E), Count(row, N), Count(row, DH))
  }

  /** What `daily_duty_counts` must be for day d. */
  function DayTally(g: Grid, d: nat): Tally {
    Tally(DayCount(g, d, D), DayCount(g, d, E), DayCount(g, d, N), DayCount(g, d, DH))
  }

  /** The counters equal the true counts of the grid. */
  predicate InSync(g: Grid, days: nat, usage: seq<nat>, tally: seq<Tally>) {
    && Shaped(g, |g|, days)
    && |usage| == days
    && |tally| == |g|
    && (forall w :: 0 <= w < |g| ==> tally[w] == RowTally(g[w]))
    && (forall d :: 0 <= d < days ==> usage[d] == DayCount(g, d, N))
  }

  lemma {:induction false} RowTallyUpdate(row: Row, i: nat, x: Duty)
    requires i < |row| && row[i] == Empty
    ensures RowTally(row[i := x]) == Bump(RowTally(row), x)
  {
    CountUpdate(row, i, x, D);
    CountUpdate(row, i, x, E);
    CountUpdate(row, i, x, N);
    CountUpdate(row, i, x, DH);
  }

  lemma {:induction false} RowTallyPrefix(row: Row, i: nat)
    requires i < |row|
    ensures RowTally(row[..i + 1]) == (if IsWork(row[i]) then Bump(RowTally(row[..i]), row[i]) else RowTally(row[..i]))
  {
    CountPrefix(row, i, D);
    CountPrefix(row, i, E);
    CountPrefix(row, i, N);
    CountPrefix(row, i, DH);
  }

  lemma {:induction false} DayTallyPut(g: Grid, w: nat, d: nat, x: Duty)
    requires w < |g| && d < |g[w]| && g[w][d] == Empty
    ensures DayTally(Put(g, w, d, x), d) == Bump(DayTally(g, d), x)
  {
    DayCountPut(g, w, d, x, d, D);
    DayCountPut(g, w, d, x, d, E);
    DayCountPut(g, w, d, x, d, N);
    DayCountPut(g, w, d, x, d, DH);
  }

  lemma {:induction false} DayTallyPrefix(g: Grid, k: nat, d: nat)
    requires k < |g| && d < |g[k]|
    ensures DayTally(g[..k + 1], d) == (if IsWork(g[k][d]) then Bump(DayTally(g[..k], d), g[k][d]) else DayTally(g[..k], d))
  {
    DayCountPrefix(g, k, d, D);
    DayCountPrefix(g, k, d, E);
    DayCountPrefix(g, k, d, N);
    DayCountPrefix(g, k, d, DH);
  }

  /** Filling one empty cell and bumping the two counters the way the source
      does keeps them in sync. */
  lemma FillKeepsSync(g: Grid, days: nat, usage: seq<nat>, tally: seq<Tally>, w: nat, d: nat, x: Duty)
    requires InSync(g, days, usage, tally)
    requires w < |g| && d < days && g[w][d] == Empty
    ensures InSync(Put(g, w, d, x), days, usage[d := usage[d] + (if x == N then 1 else 0)], tally[w := Bump(tally[w], x)])
  {
    var h := Put(g, w, d, x);
    RowTallyUpdate(g[w], d, x);
    forall e | 0 <= e < days
      ensures usage[d := usage[d] + (if x == N then 1 else 0)][e] == DayCount(h, e, N)
    {
      DayCountPut(g, w, d, x, e, N);
    }
  }

  /** Step 2 of generate_monthly_schedule: count the seeded grid. */
  method CountDuties(g: Grid, days: nat) returns (usage: seq<nat>, tally: seq<Tally>)
    requires Shaped(g, |g|, days)
    ensures InSync(g, days, usage, tally)
  {
    usage := seq(days, _ => 0);
    tally := seq(|g|, _ => Zero);
    for w := 0 to |g|
      invariant |usage| == days && |tally| == |g|
      invariant forall v :: 0 <= v < w ==> tally[v] == RowTally(g[v])
      invariant forall v :: w <= v < |g| ==> tally[v] == Zero
      invariant forall e :: 0 <= e < days ==> usage[e] == DayCount(g[..w], e, N)
    {
      for d := 0 to days
        invariant |usage| == days && |tally| == |g|
        invariant forall v :: 0 <= v < w ==> tally[v] == RowTally(g[v])
        invariant forall v :: w < v < |g| ==> tally[v] == Zero
        invariant tally[w] == RowTally(g[w][..d])
        invariant forall e :: 0 <= e < d ==> usage[e] == DayCount(g[..w + 1], e, N)
        invariant forall e :: d <= e < days ==> usage[e] == DayCount(g[..w], e, N)
      {
        DayCountPrefix(g, w, d, N);
        RowTallyPrefix(g[w], d);
        var duty := g[w][d];
        if duty == N {
          usage := usage[d := usage[d] + 1];
        }
        if IsWork(duty) {
          tally := tally[w := Bump(tally[w], duty)];
        }
      }
      assert g[w][..days] == g[w];
      forall e | 0 <= e < days ensures usage[e] == DayCount(g[..w + 1], e, N) { }
    }
    assert g[..|g|] == g;
  }
}
