/** `generate_monthly_schedule` of optimized_shift_scheduler.py: seed the
    manual edits, give the head nurse her weekday duties, then fill the
    rest day by day with D, E, N or O under the forced-rest rules, the
    rotation preference and the daily and per-worker caps. There are no
    night blocks and no look-back into the previous month. */
module Optimized {
  import opened Duties
  import opened Grids
  import opened Counters
  import opened Calendar
  import Engine
  import Rotation

  type Key = Engine.Key

  // ----- seeding the manual edits -----

  /** `day_columns.index(col)`: the first index holding the column, or none
      (the ValueError the source catches). */
  function ColumnIndex(cols: seq<DayColumn>, c: DayColumn): (r: Option<nat>)
    ensures r.Some? ==> r.value < |cols| && cols[r.value] == c && forall i :: 0 <= i < r.value ==> cols[i] != c
    ensures r.None? <==> c !in cols
  {
    if |cols| == 0 then None
    else if cols[0] == c then Some(0)
    else match ColumnIndex(cols[1..], c)
      case None => None
      case Some(i) => Some(i + 1)
  }

  predicate Distinct(cols: seq<DayColumn>) {
    forall i, j :: 0 <= i < j < |cols| ==> cols[i] != cols[j]
  }

  /** Taking one more edited key into the seed writes at most its own cell. */
  lemma SeedAdd(workers: nat, cols: seq<DayColumn>, prior: map<Key, Duty>, done: set<Key>, k: Key)
    requires Distinct(cols) && (k in prior && k.1 in cols ==> k.0 < workers)
    ensures Engine.SeedGrid(workers, cols, prior, done + {k}) ==
      if k in prior && ColumnIndex(cols, k.1).Some?
      then Put(Engine.SeedGrid(workers, cols, prior, done), k.0, ColumnIndex(cols, k.1).value, prior[k])
      else Engine.SeedGrid(workers, cols, prior, done)
  {
    if k in prior && ColumnIndex(cols, k.1).Some? {
      SeedAddWrites(workers, cols, prior, done, k, ColumnIndex(cols, k.1).value);
    } else {
      SeedAddSkips(workers, cols, prior, done, k);
    }
  }

  lemma SeedAddWrites(workers: nat, cols: seq<DayColumn>, prior: map<Key, Duty>, done: set<Key>, k: Key, i: nat)
    requires Distinct(cols) && k in prior && i < |cols| && cols[i] == k.1 && k.0 < workers
    ensures Engine.SeedGrid(workers, cols, prior, done + {k}) ==
      Put(Engine.SeedGrid(workers, cols, prior, done), k.0, i, prior[k])
  {
    var g := Engine.SeedGrid(workers, cols, prior, done);
    var h := Engine.SeedGrid(workers, cols, prior, done + {k});
    var p := Put(g, k.0, i, prior[k]);
    forall w | 0 <= w < workers ensures h[w] == p[w] {
      forall d | 0 <= d < |cols| ensures h[w][d] == p[w][d] {
        if (w, cols[d]) == k {
          assert d == i;
        }
      }
    }
  }

  lemma SeedAddSkips(workers: nat, cols: seq<DayColumn>, prior: map<Key, Duty>, done: set<Key>, k: Key)
    requires k !in prior || k.1 !in cols
    ensures Engine.SeedGrid(workers, cols, prior, done + {k}) == Engine.SeedGrid(workers, cols, prior, done)
  {
    var g := Engine.SeedGrid(workers, cols, prior, done);
    var h := Engine.SeedGrid(workers, cols, prior, done + {k});
    forall w | 0 <= w < workers ensures h[w] == g[w] {
    }
  }

  /** The seed loop: every edited key of a cell the previous table holds
      writes the table's value into the day of its column. */
  method SeedManual(workers: nat, cols: seq<DayColumn>, prior: map<Key, Duty>, manual: set<Key>)
    returns (g: Grid)
    requires Distinct(cols)
    requires forall k :: k in manual && k in prior && k.1 in cols ==> k.0 < workers
    ensures g == Engine.SeedGrid(workers, cols, prior, manual)
  {
    g := seq(workers, _ => seq(|cols|, _ => Empty));
    forall w | 0 <= w < workers ensures g[w] == Engine.SeedGrid(workers, cols, prior, {})[w] {
    }
    var rest := manual;
    ghost var done: set<Key> := {};
    while rest != {}
      invariant rest + done == manual && rest !! done
      invariant g == Engine.SeedGrid(workers, cols, prior, done)
      decreases rest
    {
      var k :| k in rest;
      SeedAdd(workers, cols, prior, done, k);
      if k in prior {
        var i := ColumnIndex(cols, k.1);
        if i.Some? {
          g := Put(g, k.0, i.value, prior[k]);
        }
      }
      rest := rest - {k};
      done := done + {k};
    }
  }

  // ----- the head nurse -----

  /** The grid after the head-nurse step: in head-nurse mode the first
      worker's empty cells get D on weekdays and O at the weekend. */
  function HeadNurseFilled(g: Grid, cols: seq<DayColumn>, active: bool): (h: Grid)
    requires Shaped(g, |g|, |cols|) && (active ==> |g| > 0)
    requires active ==> forall d :: 0 <= d < |cols| ==> cols[d].weekday.Known?
    ensures Shaped(h, |g|, |cols|)
  {
    if !active then g
    else g[0 := seq(|cols|, d requires 0 <= d < |cols| =>
      if g[0][d] == Empty then Engine.HeadNurseDuty(cols[d]) else g[0][d])]
  }

  /** The head-nurse step writes only the first worker's empty cells, with D
      or O, and leaves none of them empty. */
  lemma HeadNurseFilledFacts(g: Grid, cols: seq<DayColumn>, active: bool)
    requires Shaped(g, |g|, |cols|) && (active ==> |g| > 0)
    requires active ==> forall d :: 0 <= d < |cols| ==> cols[d].weekday.Known?
    ensures FillsWith(g, HeadNurseFilled(g, cols, active), {D, O})
    ensures forall v :: 0 <= v < |g| && !Rotation.Skipped(active, v) ==> HeadNurseFilled(g, cols, active)[v] == g[v]
    ensures active ==> forall d :: 0 <= d < |cols| ==> HeadNurseFilled(g, cols, active)[0][d] != Empty
  {
    var h := HeadNurseFilled(g, cols, active);
    if active {
      assert forall d :: 0 <= d < |cols| && g[0][d] != Empty ==> h[0][d] == g[0][d];
    }
  }

  /** The head-nurse loop over the days of the month. */
  method HeadNurseFill(g: Grid, cols: seq<DayColumn>, active: bool) returns (h: Grid)
    requires Shaped(g, |g|, |cols|) && (active ==> |g| > 0)
    requires active ==> forall d :: 0 <= d < |cols| ==> cols[d].weekday.Known?
    ensures h == HeadNurseFilled(g, cols, active)
  {
    h := g;
    if !active {
      return;
    }
    var row := g[0];
    for d := 0 to |cols|
      invariant |row| == |cols|
      invariant forall e :: 0 <= e < |cols| ==>
        row[e] == if e < d && g[0][e] == Empty then Engine.HeadNurseDuty(cols[e]) else g[0][e]
    {
      if row[d] == Empty {
        row := row[d := if cols[d].weekday.index <= 4 then D else O];
      }
    }
    assert row == HeadNurseFilled(g, cols, active)[0];
    h := g[0 := row];
  }

  // ----- the target -----

  /** `max(1, math.ceil(last_day / 7 * 5 * 3 / n))` for n > 0 workers on
      duty (the head nurse in head-nurse mode is not one), else 0. */
  function Target(workers: nat, headNurseMode: bool, lastDay: nat): (t: nat)
    ensures t == 0 <==> workers - (if headNurseMode && workers > 0 then 1 else 0) == 0
  {
    var n := workers - (if headNurseMode && workers > 0 then 1 else 0);
    if n == 0 then 0
    else
      var q := Engine.CeilDiv(15 * lastDay, 7 * n);
      if q < 1 then 1 else q
  }

  /** The target is the least whole number of duties, and at least 1, that
      covers three duties a weekday, five weekdays a week, spread over the
      workers on duty. */
  lemma TargetIsCeiling(workers: nat, headNurseMode: bool, lastDay: nat)
    ensures var n := workers - (if headNurseMode && workers > 0 then 1 else 0);
      var t := Target(workers, headNurseMode, lastDay);
      && (n == 0 ==> t == 0)
      && (n > 0 ==> t >= 1 && 15 * lastDay <= t * (7 * n) && (t == 1 || (t - 1) * (7 * n) < 15 * lastDay))
  {
    var n := workers - (if headNurseMode && workers > 0 then 1 else 0);
    if n > 0 {
      Engine.CeilDivIsCeiling(15 * lastDay, 7 * n);
    }
  }

  // ----- one decision of the rotation -----

  /** `DAILY_LIMITS`: two D's, two E's and one N a day. */
  function DailyLimit(x: Duty): nat {
    if x == N then 1 else 2
  }

  /** `prev_duty`: yesterday's cell of this month, '' on the first day. */
  function Prev(row: Row, d: nat): Duty
    requires d <= |row|
  {
    if d > 0 then row[d - 1] else Empty
  }

  /** The three days before d are all D, E or N (which also rules out 'O',
      leave and ''). */
  predicate ThreeWork(row: Row, d: nat): (r: bool)
    requires d <= |row|
    ensures r <==> d >= 3 && IsWork3(row[d - 3]) && IsWork3(row[d - 2]) && IsWork3(row[d - 1])
    ensures r ==> forall k :: d - 3 <= k < d ==> row[k] !in {O, V, VQuarter, VHalf, Empty}
  {
    d >= 3 && forall k :: d - 3 <= k < d ==> IsWork3(row[k])
  }

  /** The cases that force O: a night yesterday, or three work days in a row. */
  predicate MustRest(row: Row, d: nat): (r: bool)
    requires d <= |row|
    ensures d == 0 ==> !r
    ensures d > 0 && row[d - 1] == N ==> r
    ensures r && (d == 0 || row[d - 1] != N) ==> d >= 3 && row[d - 1] != O && row[d - 2] != O && row[d - 3] != O
  {
    Prev(row, d) == N || ThreeWork(row, d)
  }

  /** `target_rotation`: E after D, N after E, otherwise the code the worker
      has fewest of, D before E before N on a tie (the stable sort). */
  function Preferred(prev: Duty, mine: Tally): (x: Duty)
    ensures x == D || x == E || x == N
    ensures prev == D ==> x == E
    ensures prev == E ==> x == N
    ensures prev != D && prev != E ==>
      Get(mine, x) <= mine.d && Get(mine, x) <= mine.e && Get(mine, x) <= mine.n
    ensures prev != D && prev != E && x == E ==> mine.e < mine.d
    ensures prev != D && prev != E && x == N ==> mine.n < mine.d && mine.n < mine.e
  {
    if prev == D then E
    else if prev == E then N
    else if mine.d <= mine.e && mine.d <= mine.n then D
    else if mine.e <= mine.n then E
    else N
  }

  /** The code fits: the day is below its limit and the worker below `cap`
      (`target + 1`). */
  predicate Fits(x: Duty, mine: Tally, today: Tally, cap: nat) {
    Get(today, x) < DailyLimit(x) && Get(mine, x) < cap
  }

  /** `under_limit`, in the order D, E, N. */
  function UnderLimit(mine: Tally, today: Tally, cap: nat): (u: seq<Duty>)
    ensures forall x :: x in u <==> (x == D || x == E || x == N) && Fits(x, mine, today, cap)
  {
    (if Fits(D, mine, today, cap) then [D] else []) +
    (if Fits(E, mine, today, cap) then [E] else []) +
    (if Fits(N, mine, today, cap) then [N] else [])
  }

  /** One decision for a worker whose cell is empty. `pick` stands for
      `random.choice` among the codes that fit. */
  function Decide(mustRest: bool, prev: Duty, mine: Tally, today: Tally, cap: nat, pick: nat): (r: Duty)
    ensures r == D || r == E || r == N || r == O
    ensures mustRest ==> r == O
    ensures r != O ==> Fits(r, mine, today, cap)
    ensures !mustRest && Fits(Preferred(prev, mine), mine, today, cap) ==> r == Preferred(prev, mine)
    ensures !mustRest && r == O ==>
      !Fits(D, mine, today, cap) && !Fits(E, mine, today, cap) && !Fits(N, mine, today, cap)
  {
    if mustRest then O
    else
      var t := Preferred(prev, mine);
      var u := UnderLimit(mine, today, cap);
      if |u| == 0 then O
      else if t in u then t
      else u[pick % |u|]
  }

  // ----- the rotation, read on a grid -----

  /** The counters of the rotation equal the counts of the grid. */
  predicate Synced(g: Grid, days: nat, tally: seq<Tally>) {
    Shaped(g, |g|, days) && |tally| == |g| && forall w :: 0 <= w < |g| ==> tally[w] == RowTally(g[w])
  }

  /** What the rotation guarantees about a cell it filled: D, E, N or O, and
      O when rest is due. */
  predicate RulesAt(g: Grid, w: nat, d: nat)
    requires w < |g| && d < |g[w]|
  {
    && (g[w][d] == D || g[w][d] == E || g[w][d] == N || g[w][d] == O)
    && (MustRest(g[w], d) ==> g[w][d] == O)
  }

  /** Code c is full for worker w on day d: the day holds its limit, or the
      worker holds `cap` of it. */
  predicate Full(g: Grid, w: nat, d: nat, c: Duty, cap: nat)
    requires w < |g|
  {
    DayCount(g, d, c) >= DailyLimit(c) || Count(g[w], c) >= cap
  }

  /** The rotation passes over a code only when it is full: it gives O
      without a forced rest only when all three codes are full, and it gives
      something other than E after a D, or other than N after an E, only
      when that code is full. */
  predicate PassedOnlyWhenFull(g: Grid, w: nat, d: nat, cap: nat)
    requires w < |g| && d < |g[w]|
  {
    var x := g[w][d];
    var p := Prev(g[w], d);
    && (!MustRest(g[w], d) && x == O ==> Full(g, w, d, D, cap) && Full(g, w, d, E, cap) && Full(g, w, d, N, cap))
    && (!MustRest(g[w], d) && p == D && x != E ==> Full(g, w, d, E, cap))
    && (!MustRest(g[w], d) && p == E && x != N ==> Full(g, w, d, N, cap))
  }

  /** Both facts only read the worker's row up to the cell and counts that
      never go down. */
  lemma RulesKept(g: Grid, h: Grid, w: nat, d: nat, cap: nat)
    requires w < |g| && w < |h| && d < |g[w]| && |h[w]| == |g[w]|
    requires forall e :: 0 <= e <= d ==> h[w][e] == g[w][e]
    requires DayCount(h, d, D) >= DayCount(g, d, D) && Count(h[w], D) >= Count(g[w], D)
    requires DayCount(h, d, E) >= DayCount(g, d, E) && Count(h[w], E) >= Count(g[w], E)
    requires DayCount(h, d, N) >= DayCount(g, d, N) && Count(h[w], N) >= Count(g[w], N)
    requires RulesAt(g, w, d) && PassedOnlyWhenFull(g, w, d, cap)
    ensures RulesAt(h, w, d) && PassedOnlyWhenFull(h, w, d, cap)
  {
    assert Prev(h[w], d) == Prev(g[w], d);
    assert ThreeWork(h[w], d) == ThreeWork(g[w], d);
  }

  /** Counts of a decided code never go down when empty cells are filled. */
  lemma {:induction false} CountGrows(r: Row, s: Row, c: Duty)
    requires |r| == |s| && c != Empty
    requires forall i :: 0 <= i < |r| && r[i] != Empty ==> s[i] == r[i]
    ensures Count(s, c) >= Count(r, c)
  {
    if |r| > 0 {
      CountGrows(r[..|r| - 1], s[..|s| - 1], c);
    }
  }

  lemma {:induction false} DayCountGrows(g: Grid, h: Grid, d: nat, c: Duty)
    requires Extends(g, h) && c != Empty
    ensures DayCount(h, d, c) >= DayCount(g, d, c)
  {
    if |g| > 0 {
      var n := |g| - 1;
      DayCountGrows(g[..n], h[..n], d, c);
    }
  }

  /** The three work codes of one day stay within their limits unless the
      grid before the rotation already exceeded them. */
  predicate WithinCaps(g0: Grid, g: Grid, d: nat) {
    && DayCount(g, d, D) <= Max(DayCount(g0, d, D), DailyLimit(D))
    && DayCount(g, d, E) <= Max(DayCount(g0, d, E), DailyLimit(E))
    && DayCount(g, d, N) <= Max(DayCount(g0, d, N), DailyLimit(N))
  }

  /** No worker is pushed past `cap` of any work code. */
  predicate WorkerCaps(g0: Grid, g: Grid, cap: nat)
    requires |g| == |g0|
  {
    forall v :: 0 <= v < |g0| ==>
      && Count(g[v], D) <= Max(Count(g0[v], D), cap)
      && Count(g[v], E) <= Max(Count(g0[v], E), cap)
      && Count(g[v], N) <= Max(Count(g0[v], N), cap)
  }

  // ----- the rotation, step by step -----

  /** One worker's turn: decide, write the cell and bump both counters. */
  method RotateWorker(g: Grid, days: nat, tally: seq<Tally>, today: Tally, w: nat, d: nat, cap: nat, pick: nat)
    returns (g': Grid, tally': seq<Tally>, today': Tally, x: Duty)
    requires Synced(g, days, tally) && today == DayTally(g, d)
    requires w < |g| && d < days && g[w][d] == Empty
    ensures Synced(g', days, tally') && today' == DayTally(g', d)
    ensures g' == Put(g, w, d, x) && RulesAt(g', w, d) && PassedOnlyWhenFull(g', w, d, cap)
    ensures x != O ==> DayCount(g, d, x) < DailyLimit(x) && Count(g[w], x) < cap
    ensures x == Decide(MustRest(g[w], d), Prev(g[w], d), tally[w], today, cap, pick)
  {
    x := Decide(MustRest(g[w], d), Prev(g[w], d), tally[w], today, cap, pick);
    RowTallyUpdate(g[w], d, x);
    DayTallyPut(g, w, d, x);
    g' := Put(g, w, d, x);
    tally' := tally[w := Bump(tally[w], x)];
    today' := Bump(today, x);
    assert g'[w] == g[w][d := x];
    assert forall k :: 0 <= k < d ==> g'[w][k] == g[w][k];
    assert Prev(g'[w], d) == Prev(g[w], d);
    assert ThreeWork(g'[w], d) == ThreeWork(g[w], d);
  }

  /** What the loop over one day's workers keeps, `done` the workers already
      handled. */
  predicate DayInv(g0: Grid, days: nat, d: nat, cap: nat, done: seq<nat>, g: Grid, tally: seq<Tally>, today: Tally)
    requires Shaped(g0, |g0|, days) && d < days
  {
    && Synced(g, days, tally) && |g| == |g0| && today == DayTally(g, d)
    && (forall v, e :: 0 <= v < |g0| && 0 <= e < days && e != d ==> g[v][e] == g0[v][e])
    && (forall v :: 0 <= v < |g0| && v !in done ==> g[v][d] == g0[v][d])
    && (forall v :: 0 <= v < |g0| && v in done ==> g0[v][d] == Empty && RulesAt(g, v, d) && PassedOnlyWhenFull(g, v, d, cap))
    && WithinCaps(g0, g, d) && WorkerCaps(g0, g, cap)
  }

  /** Filling another worker's empty cell of the day keeps the facts at a
      handled cell. */
  lemma FillKeepsRules(g: Grid, w: nat, d: nat, x: Duty, v: nat, cap: nat)
    requires w < |g| && v < |g| && v != w && d < |g[w]| && d < |g[v]| && g[w][d] == Empty
    requires RulesAt(g, v, d) && PassedOnlyWhenFull(g, v, d, cap)
    ensures RulesAt(Put(g, w, d, x), v, d) && PassedOnlyWhenFull(Put(g, w, d, x), v, d, cap)
  {
    var h := Put(g, w, d, x);
    assert h[v] == g[v];
    DayCountPut(g, w, d, x, d, D);
    DayCountPut(g, w, d, x, d, E);
    DayCountPut(g, w, d, x, d, N);
    RulesKept(g, h, v, d, cap);
  }

  /** A cell the rotation writes keeps the day below its limits. */
  lemma WithinCapsPut(g0: Grid, g: Grid, w: nat, d: nat, x: Duty)
    requires w < |g| && d < |g[w]| && g[w][d] == Empty && WithinCaps(g0, g, d)
    requires x != O ==> DayCount(g, d, x) < DailyLimit(x)
    ensures WithinCaps(g0, Put(g, w, d, x), d)
  {
    DayCountPut(g, w, d, x, d, D);
    DayCountPut(g, w, d, x, d, E);
    DayCountPut(g, w, d, x, d, N);
  }

  /** ... and every worker below `cap`. */
  lemma WorkerCapsPut(g0: Grid, g: Grid, w: nat, d: nat, x: Duty, cap: nat)
    requires |g| == |g0| && w < |g| && d < |g[w]| && g[w][d] == Empty && WorkerCaps(g0, g, cap)
    requires x != O ==> Count(g[w], x) < cap
    ensures WorkerCaps(g0, Put(g, w, d, x), cap)
  {
    var h := Put(g, w, d, x);
    CountUpdate(g[w], d, x, D);
    CountUpdate(g[w], d, x, E);
    CountUpdate(g[w], d, x, N);
    forall v | 0 <= v < |g0|
      ensures Count(h[v], D) <= Max(Count(g0[v], D), cap)
      ensures Count(h[v], E) <= Max(Count(g0[v], E), cap)
      ensures Count(h[v], N) <= Max(Count(g0[v], N), cap)
    {
      if v != w {
        assert h[v] == g[v];
      }
    }
  }

  /** ... and the facts at every cell of the day already handled. */
  lemma HandledKept(g0: Grid, g: Grid, w: nat, d: nat, x: Duty, cap: nat, done: seq<nat>)
    requires |g| == |g0| && w < |g| && d < |g[w]| && g[w][d] == Empty && w !in done
    requires forall v :: 0 <= v < |g0| ==> d < |g[v]|
    requires forall v :: 0 <= v < |g0| && v in done ==> RulesAt(g, v, d) && PassedOnlyWhenFull(g, v, d, cap)
    ensures forall v :: 0 <= v < |g0| && v in done ==>
      RulesAt(Put(g, w, d, x), v, d) && PassedOnlyWhenFull(Put(g, w, d, x), v, d, cap)
  {
    forall v | 0 <= v < |g0| && v in done
      ensures RulesAt(Put(g, w, d, x), v, d) && PassedOnlyWhenFull(Put(g, w, d, x), v, d, cap)
    {
      FillKeepsRules(g, w, d, x, v, cap);
    }
  }

  /** One turn of the loop over the day's workers keeps its invariant. */
  method RotateNext(ghost g0: Grid, days: nat, d: nat, cap: nat, ghost done: seq<nat>, w: nat, pick: nat,
                    g: Grid, tally: seq<Tally>, today: Tally)
    returns (g': Grid, tally': seq<Tally>, today': Tally)
    requires Shaped(g0, |g0|, days) && d < days
    requires DayInv(g0, days, d, cap, done, g, tally, today)
    requires w < |g0| && w !in done && g0[w][d] == Empty
    ensures DayInv(g0, days, d, cap, done + [w], g', tally', today')
  {
    var x;
    g', tally', today', x := RotateWorker(g, days, tally, today, w, d, cap, pick);
    HandledKept(g0, g, w, d, x, cap, done);
    WithinCapsPut(g0, g, w, d, x);
    WorkerCapsPut(g0, g, w, d, x, cap);
  }

  /** The rotation for one day: every pending worker, in the day's order,
      gets a duty under the rules; only the day's empty cells change. */
  method RotateDay(g: Grid, days: nat, tally: seq<Tally>, d: nat, perm: seq<nat>, hnOut: bool, cap: nat,
                   pick: (nat, nat) -> nat)
    returns (g': Grid, tally': seq<Tally>)
    requires Synced(g, days, tally) && d < days && IsOrder(perm, |g|)
    ensures Synced(g', days, tally') && |g'| == |g|
    ensures forall v, e :: 0 <= v < |g| && 0 <= e < days && e != d ==> g'[v][e] == g[v][e]
    ensures forall v :: 0 <= v < |g| && (g[v][d] != Empty || Rotation.Skipped(hnOut, v)) ==> g'[v][d] == g[v][d]
    ensures forall v :: 0 <= v < |g| && g[v][d] == Empty && !Rotation.Skipped(hnOut, v) ==>
      RulesAt(g', v, d) && PassedOnlyWhenFull(g', v, d, cap)
    ensures WithinCaps(g, g', d) && WorkerCaps(g, g', cap) && Extends(g, g')
  {
    var today, pending := Rotation.CountDay(g, days, d, hnOut);
    var order := Rotation.Shuffled(pending, perm);
    g', tally' := g, tally;
    for i := 0 to |order|
      invariant DayInv(g, days, d, cap, order[..i], g', tally', today)
    {
      var w := order[i];
      assert w !in order[..i] && w in pending;
      assert order[..i + 1] == order[..i] + [w];
      g', tally', today := RotateNext(g, days, d, cap, order[..i], w, pick(d, w), g', tally', today);
    }
    assert order[..|order|] == order;
  }

  /** What the loop over the days keeps, with the days before `d` done. */
  predicate RotationInv(g0: Grid, days: nat, hnOut: bool, cap: nat, d: nat, g: Grid, tally: seq<Tally>)
    requires Shaped(g0, |g0|, days) && d <= days
  {
    && Synced(g, days, tally) && |g| == |g0| && Extends(g0, g)
    && (forall v, e :: 0 <= v < |g0| && d <= e < days ==> g[v][e] == g0[v][e])
    && (forall v, e :: 0 <= v < |g0| && 0 <= e < d && Rotation.Skipped(hnOut, v) ==> g[v][e] == g0[v][e])
    && (forall v, e :: 0 <= v < |g0| && 0 <= e < d && g0[v][e] == Empty && !Rotation.Skipped(hnOut, v) ==>
          RulesAt(g, v, e) && PassedOnlyWhenFull(g, v, e, cap))
    && (forall e :: 0 <= e < d ==> WithinCaps(g0, g, e))
    && WorkerCaps(g0, g, cap)
  }

  /** Grids that agree on day d have the same counts of the work codes there. */
  lemma DayUnchanged(g: Grid, h: Grid, d: nat)
    requires |g| == |h| && forall w :: 0 <= w < |g| ==> |g[w]| == |h[w]| && d < |g[w]| && h[w][d] == g[w][d]
    ensures DayCount(h, d, D) == DayCount(g, d, D)
    ensures DayCount(h, d, E) == DayCount(g, d, E)
    ensures DayCount(h, d, N) == DayCount(g, d, N)
  {
    DayCountSame(g, h, d, D);
    DayCountSame(g, h, d, E);
    DayCountSame(g, h, d, N);
  }

  /** A day that a later step leaves alone keeps its counts. */
  lemma DayKept(g: Grid, h: Grid, days: nat, d: nat, e: nat)
    requires Shaped(g, |g|, days) && Shaped(h, |g|, days) && e < days && e != d
    requires forall v, k :: 0 <= v < |g| && 0 <= k < days && k != d ==> h[v][k] == g[v][k]
    ensures DayCount(h, e, D) == DayCount(g, e, D)
    ensures DayCount(h, e, E) == DayCount(g, e, E)
    ensures DayCount(h, e, N) == DayCount(g, e, N)
  {
    DayUnchanged(g, h, e);
  }

  /** Filling empty cells of a later day d keeps the facts at a cell of day e. */
  lemma CellKept(g: Grid, h: Grid, days: nat, d: nat, v: nat, e: nat, cap: nat)
    requires Shaped(g, |g|, days) && Shaped(h, |g|, days) && Extends(g, h) && v < |g| && e < d <= days
    requires forall u, k :: 0 <= u < |g| && 0 <= k < days && k != d ==> h[u][k] == g[u][k]
    requires RulesAt(g, v, e) && PassedOnlyWhenFull(g, v, e, cap)
    ensures RulesAt(h, v, e) && PassedOnlyWhenFull(h, v, e, cap)
  {
    DayKept(g, h, days, d, e);
    CountGrows(g[v], h[v], D);
    CountGrows(g[v], h[v], E);
    CountGrows(g[v], h[v], N);
    RulesKept(g, h, v, e, cap);
  }

  /** The days before d keep their facts and their caps when day d is filled. */
  lemma EarlierDaysKept(g0: Grid, g: Grid, h: Grid, days: nat, hnOut: bool, cap: nat, d: nat)
    requires Shaped(g0, |g0|, days) && Shaped(g, |g0|, days) && Shaped(h, |g0|, days) && Extends(g, h) && d < days
    requires forall v, k :: 0 <= v < |g| && 0 <= k < days && k != d ==> h[v][k] == g[v][k]
    requires forall v, e :: 0 <= v < |g0| && 0 <= e < d && g0[v][e] == Empty && !Rotation.Skipped(hnOut, v) ==>
      RulesAt(g, v, e) && PassedOnlyWhenFull(g, v, e, cap)
    requires forall e :: 0 <= e < d ==> WithinCaps(g0, g, e)
    ensures forall v, e :: 0 <= v < |g0| && 0 <= e < d && g0[v][e] == Empty && !Rotation.Skipped(hnOut, v) ==>
      RulesAt(h, v, e) && PassedOnlyWhenFull(h, v, e, cap)
    ensures forall e :: 0 <= e < d ==> WithinCaps(g0, h, e)
  {
    forall v, e | 0 <= v < |g0| && 0 <= e < d && g0[v][e] == Empty && !Rotation.Skipped(hnOut, v)
      ensures RulesAt(h, v, e) && PassedOnlyWhenFull(h, v, e, cap)
    {
      CellKept(g, h, days, d, v, e, cap);
    }
    forall e | 0 <= e < d ensures WithinCaps(g0, h, e) {
      assert WithinCaps(g0, g, e);
      DayKept(g, h, days, d, e);
    }
  }

  lemma WorkerCapsTrans(f: Grid, g: Grid, h: Grid, cap: nat)
    requires |f| == |g| == |h| && WorkerCaps(f, g, cap) && WorkerCaps(g, h, cap)
    ensures WorkerCaps(f, h, cap)
  {
  }

  /** One day of the rotation keeps the invariant of the loop over days. */
  method RotationTurn(ghost g0: Grid, days: nat, hnOut: bool, cap: nat, d: nat, perm: seq<nat>,
                      pick: (nat, nat) -> nat, g: Grid, tally: seq<Tally>)
    returns (g': Grid, tally': seq<Tally>)
    requires Shaped(g0, |g0|, days) && d < days && IsOrder(perm, |g0|)
    requires RotationInv(g0, days, hnOut, cap, d, g, tally)
    ensures RotationInv(g0, days, hnOut, cap, d + 1, g', tally')
  {
    g', tally' := RotateDay(g, days, tally, d, perm, hnOut, cap, pick);
    EarlierDaysKept(g0, g, g', days, hnOut, cap, d);
    DayUnchanged(g0, g, d);
    ExtendsTrans(g0, g, g');
    WorkerCapsTrans(g0, g, g', cap);
  }

  /** The rotation: the days in order, each with its own shuffle. */
  method RotationPhase(g: Grid, days: nat, tally: seq<Tally>, perms: seq<seq<nat>>, hnOut: bool, cap: nat,
                       pick: (nat, nat) -> nat)
    returns (g': Grid, tally': seq<Tally>)
    requires Synced(g, days, tally) && |perms| == days
    requires forall d :: 0 <= d < days ==> IsOrder(perms[d], |g|)
    ensures RotationInv(g, days, hnOut, cap, days, g', tally')
  {
    g', tally' := g, tally;
    for d := 0 to days
      invariant RotationInv(g, days, hnOut, cap, d, g', tally')
    {
      g', tally' := RotationTurn(g, days, hnOut, cap, d, perms[d], pick, g', tally');
    }
  }

  // ----- the whole engine -----

  /** What the engine guarantees for a roster with workers: the manual cells
      kept, every cell decided, the head nurse's empty days given her code,
      the rotation's rules at every cell it filled, and the caps. */
  predicate Outcome(seed: Grid, g: Grid, cols: seq<DayColumn>, hnActive: bool, cap: nat)
    requires Shaped(seed, |seed|, |cols|) && |seed| > 0
    requires hnActive ==> forall d :: 0 <= d < |cols| ==> cols[d].weekday.Known?
  {
    var h := HeadNurseFilled(seed, cols, hnActive);
    && Shaped(g, |seed|, |cols|) && Complete(g) && FillsWith(seed, g, {D, E, N, O})
    && (hnActive ==> forall d :: 0 <= d < |cols| ==> g[0][d] == h[0][d])
    && (forall v, e :: 0 <= v < |seed| && 0 <= e < |cols| && h[v][e] == Empty ==>
          RulesAt(g, v, e) && PassedOnlyWhenFull(g, v, e, cap))
    && (forall e :: 0 <= e < |cols| ==> WithinCaps(h, g, e))
    && WorkerCaps(h, g, cap)
  }

  /** `generate_monthly_schedule(year, month)`. `manual` is the set of edited
      keys and `prior` the cells of the previous table; `perms` holds each
      day's shuffle and `pick` each `random.choice`. An empty roster gives
      an empty table. */
  method Generate(workers: nat, cols: seq<DayColumn>, prior: map<Key, Duty>, manual: set<Key>,
                  headNurseMode: bool, perms: seq<seq<nat>>, pick: (nat, nat) -> nat)
    returns (g: Grid)
    requires Distinct(cols)
    requires forall k :: k in manual && k in prior && k.1 in cols ==> k.0 < workers
    requires headNurseMode ==> forall d :: 0 <= d < |cols| ==> cols[d].weekday.Known?
    requires |perms| == |cols| && forall d :: 0 <= d < |cols| ==> IsOrder(perms[d], workers)
    ensures workers == 0 ==> g == []
    ensures workers > 0 ==>
      Outcome(Engine.SeedGrid(workers, cols, prior, manual), g, cols, headNurseMode,
              Target(workers, headNurseMode, |cols|) + 1)
  {
    if workers == 0 {
      return [];
    }
    var seed := SeedManual(workers, cols, prior, manual);
    var h := HeadNurseFill(seed, cols, headNurseMode);
    var cap := Target(workers, headNurseMode, |cols|) + 1;
    var tally := seq(|h|, w requires 0 <= w < |h| => RowTally(h[w]));
    var tally';
    g, tally' := RotationPhase(h, |cols|, tally, perms, headNurseMode, cap, pick);
    OutcomeFacts(seed, h, g, cols, headNurseMode, cap, tally');
  }

  /** The rotation's invariant at the last day, on top of the head-nurse
      step, gives the outcome. */
  lemma OutcomeFacts(seed: Grid, h: Grid, g: Grid, cols: seq<DayColumn>, hnActive: bool, cap: nat, tally: seq<Tally>)
    requires Shaped(seed, |seed|, |cols|) && |seed| > 0
    requires hnActive ==> forall d :: 0 <= d < |cols| ==> cols[d].weekday.Known?
    requires h == HeadNurseFilled(seed, cols, hnActive)
    requires RotationInv(h, |cols|, hnActive, cap, |cols|, g, tally)
    ensures Outcome(seed, g, cols, hnActive, cap)
  {
    HeadNurseFilledFacts(seed, cols, hnActive);
    forall v, e | 0 <= v < |seed| && 0 <= e < |cols|
      ensures g[v][e] != Empty
      ensures seed[v][e] != Empty ==> g[v][e] == seed[v][e]
      ensures seed[v][e] == Empty ==> g[v][e] in {D, E, N, O}
    {
      if h[v][e] == Empty {
        assert !Rotation.Skipped(hnActive, v);
        assert RulesAt(g, v, e);
      }
    }
  }
}
