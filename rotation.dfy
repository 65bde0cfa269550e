/** Step 6 of the patched engine: day by day, every worker whose cell is
    still empty gets D, E or O, under the forced-rest rules, the rotation
    preference and the daily and per-worker caps. */
module Rotation {
  import opened Duties
  import opened Grids
  import opened Counters
  import opened Lookback
  import opened Calendar

  /** `DAILY_LIMITS['D']` */
  const DayLimit: nat := 2

  /** `current_daily_limits['E']`: 2, or 1 on Saturday and Sunday. */
  function EveningLimit(c: DayColumn): nat {
    if c.weekday.Known? && c.weekday.index >= 5 then 1 else 2
  }

  /** `current_daily_limits` for the two codes the rotation hands out. */
  function Limit(x: Duty, eLimit: nat): nat {
    if x == E then eLimit else DayLimit
  }

  /** `all(d in WORK_DUTIES for d in last_5)` over the five preceding days of
      this month (the check does not look into last month). */
  predicate FiveWork(row: Row, d: nat)
    requires d <= |row|
  {
    d >= 5 && forall k :: d - 5 <= k < d ==> IsWork(row[k])
  }

  /** 6-2: the cases that force O, in the source's order. */
  predicate MustRest(p1: Duty, p2: Duty, p3: Duty, p4: Duty, fiveWork: bool) {
    if p1 == N then true
    else if p1 == O then p2 == N && p3 == N && p4 == N
    else fiveWork
  }

  /** `forbidden_duties`: no D right after E, nor right after N then O. */
  predicate Forbidden(x: Duty, p1: Duty, p2: Duty) {
    x == D && (p1 == E || (p2 == N && p1 == O))
  }

  /** `target_rotation`: E after E or D, otherwise the code the worker has
      fewer of (D on a tie, as the stable sort puts it first). */
  function Preferred(p1: Duty, mine: Tally): (x: Duty)
    ensures x == D || x == E
    ensures (p1 == E || p1 == D) ==> x == E
    ensures p1 != E && p1 != D ==> (x == D <==> mine.d <= mine.e)
  {
    if p1 == E || p1 == D then E
    else if mine.d <= mine.e then D else E
  }

  /** The other one of D and E. */
  function Alternate(x: Duty): Duty {
    if x == D then E else D
  }

  /** Neither the day nor the worker is full for x (`target + 1` is the
      worker's cap). */
  predicate Fits(x: Duty, mine: Tally, today: Tally, eLimit: nat, cap: nat) {
    Get(today, x) < Limit(x, eLimit) && Get(mine, x) < cap
  }

  /** One decision of step 6 for a worker whose cell is empty. */
  function Decide(p1: Duty, p2: Duty, p3: Duty, p4: Duty, fiveWork: bool,
                  mine: Tally, today: Tally, eLimit: nat, cap: nat): (r: Duty)
    ensures r == D || r == E || r == O
    ensures MustRest(p1, p2, p3, p4, fiveWork) ==> r == O
    ensures r != O ==> !Forbidden(r, p1, p2) && Fits(r, mine, today, eLimit, cap)
    ensures !MustRest(p1, p2, p3, p4, fiveWork) && r == O ==>
      forall x :: (x == D || x == E) ==> Forbidden(x, p1, p2) || !Fits(x, mine, today, eLimit, cap)
    ensures var t := Preferred(p1, mine);
      !MustRest(p1, p2, p3, p4, fiveWork) && !Forbidden(t, p1, p2) && Fits(t, mine, today, eLimit, cap) ==> r == t
    ensures r == Alternate(Preferred(p1, mine)) ==>
      var t := Preferred(p1, mine); Forbidden(t, p1, p2) || !Fits(t, mine, today, eLimit, cap)
  {
    if MustRest(p1, p2, p3, p4, fiveWork) then O
    else
      var t := Preferred(p1, mine);
      var u := Alternate(t);
      if !Forbidden(t, p1, p2) && Fits(t, mine, today, eLimit, cap) then t
      else if !Forbidden(u, p1, p2) && Fits(u, mine, today, eLimit, cap) then u
      else O
  }

  /** The head nurse (worker 0) is taken out of step 6 in head-nurse mode. */
  predicate Skipped(hnOut: bool, w: nat) {
    hnOut && w == 0
  }

  /** What step 6 guarantees about a cell it filled, read on a grid: a D, E
      or O; O when rest is due; and no D right after E or after N, O. */
  predicate RulesAt(g: Grid, tails: Tails, w: nat, d: nat)
    requires w < |g| && d < |g[w]|
  {
    var p1 := PreviousDuty(g, tails, w, d, 1);
    var p2 := PreviousDuty(g, tails, w, d, 2);
    var p3 := PreviousDuty(g, tails, w, d, 3);
    var p4 := PreviousDuty(g, tails, w, d, 4);
    && (g[w][d] == D || g[w][d] == E || g[w][d] == O)
    && (MustRest(p1, p2, p3, p4, FiveWork(g[w], d)) ==> g[w][d] == O)
    && !Forbidden(g[w][d], p1, p2)
  }

  /** The rules at a cell only read the worker's row up to that cell. */
  lemma RulesFrame(g: Grid, h: Grid, tails: Tails, w: nat, d: nat)
    requires w < |g| && w < |h| && d < |g[w]| && |h[w]| == |g[w]|
    requires forall e :: 0 <= e <= d ==> h[w][e] == g[w][e]
    ensures RulesAt(h, tails, w, d) == RulesAt(g, tails, w, d)
  {
    assert FiveWork(h[w], d) == FiveWork(g[w], d);
    forall k | 1 <= k <= 4 ensures PreviousDuty(h, tails, w, d, k) == PreviousDuty(g, tails, w, d, k) {
    }
  }

  /** The counting loop at the head of a day: today's counts of the work
      codes, and the workers whose cell is still empty, in roster order and
      without the head nurse when she is taken out. */
  method CountDay(g: Grid, days: nat, d: nat, hnOut: bool) returns (today: Tally, pending: seq<nat>)
    requires Shaped(g, |g|, days) && d < days
    ensures today == DayTally(g, d)
    ensures forall v: nat :: v in pending <==> v < |g| && g[v][d] == Empty && !Skipped(hnOut, v)
    ensures forall i, j :: 0 <= i < j < |pending| ==> pending[i] < pending[j]
  {
    today := Zero;
    pending := [];
    for w := 0 to |g|
      invariant today == DayTally(g[..w], d)
      invariant forall v: nat :: v in pending <==> v < w && g[v][d] == Empty
      invariant forall i, j :: 0 <= i < j < |pending| ==> pending[i] < pending[j]
      invariant forall i :: 0 <= i < |pending| ==> pending[i] < w
    {
      DayTallyPrefix(g, w, d);
      var duty := g[w][d];
      if IsWork(duty) {
        today := Bump(today, duty);
      } else if duty == Empty {
        pending := pending + [w];
      }
    }
    assert g[..|g|] == g;
    if hnOut && 0 in pending {
      assert pending[0] == 0;
      pending := pending[1..];
    }
  }

  /** `random.shuffle(workers_to_schedule)`: the day's order of the roster,
      kept to the pending workers. */
  method Shuffled(pending: seq<nat>, perm: seq<nat>) returns (order: seq<nat>)
    requires forall i, j :: 0 <= i < j < |perm| ==> perm[i] != perm[j]
    requires forall v :: v in pending ==> v in perm
    ensures forall v :: v in order <==> v in pending
    ensures forall i, j :: 0 <= i < j < |order| ==> order[i] != order[j]
  {
    order := [];
    for i := 0 to |perm|
      invariant forall v :: v in order <==> v in pending && v in perm[..i]
      invariant forall k, j :: 0 <= k < j < |order| ==> order[k] != order[j]
    {
      assert perm[..i + 1] == perm[..i] + [perm[i]];
      if perm[i] in pending {
        order := order + [perm[i]];
      }
    }
    assert perm[..|perm|] == perm;
  }

  /** 6-1 to 6-3 for one worker: look back, decide, write the cell and bump
      both counters. */
  method RotateWorker(g: Grid, days: nat, usage: seq<nat>, tally: seq<Tally>, today: Tally,
                      tails: Tails, w: nat, d: nat, eLimit: nat, cap: nat)
    returns (g': Grid, tally': seq<Tally>, today': Tally, x: Duty)
    requires InSync(g, days, usage, tally) && today == DayTally(g, d)
    requires w < |g| && d < days && g[w][d] == Empty
    ensures InSync(g', days, usage, tally') && today' == DayTally(g', d)
    ensures g' == Put(g, w, d, x) && RulesAt(g', tails, w, d)
    ensures x == D ==> today.d < DayLimit && tally[w].d < cap
    ensures x == E ==> today.e < eLimit && tally[w].e < cap
    ensures tally'[w].d == tally[w].d + (if x == D then 1 else 0)
    ensures tally'[w].e == tally[w].e + (if x == E then 1 else 0)
    ensures today'.d == today.d + (if x == D then 1 else 0)
    ensures today'.e == today.e + (if x == E then 1 else 0)
    ensures x == Decide(PreviousDuty(g, tails, w, d, 1), PreviousDuty(g, tails, w, d, 2),
                        PreviousDuty(g, tails, w, d, 3), PreviousDuty(g, tails, w, d, 4),
                        FiveWork(g[w], d), tally[w], today, eLimit, cap)
  {
    var p1 := PreviousDuty(g, tails, w, d, 1);
    var p2 := PreviousDuty(g, tails, w, d, 2);
    var p3 := PreviousDuty(g, tails, w, d, 3);
    var p4 := PreviousDuty(g, tails, w, d, 4);
    x := Decide(p1, p2, p3, p4, FiveWork(g[w], d), tally[w], today, eLimit, cap);
    FillKeepsSync(g, days, usage, tally, w, d, x);
    DayTallyPut(g, w, d, x);
    assert usage[d := usage[d] + 0] == usage;
    g' := Put(g, w, d, x);
    tally' := tally[w := Bump(tally[w], x)];
    today' := Bump(today, x);
    assert g'[w] == g[w][d := x];
    assert forall k :: 0 <= k < d ==> g'[w][k] == g[w][k];
    assert FiveWork(g'[w], d) == FiveWork(g[w], d);
    forall k | 1 <= k <= 4 ensures PreviousDuty(g', tails, w, d, k) == PreviousDuty(g, tails, w, d, k) {
    }
  }

  /** The bounds one day of step 6 keeps: D and E stay within the day's
      limits unless the seed already exceeded them, and no worker is pushed
      past `cap` D's or E's. */
  predicate WithinCaps(g0: Grid, g: Grid, d: nat, eLimit: nat, cap: nat)
    requires |g| == |g0|
  {
    && DayCount(g, d, D) <= Max(DayCount(g0, d, D), DayLimit)
    && DayCount(g, d, E) <= Max(DayCount(g0, d, E), eLimit)
  }

  /** No worker is pushed past `cap` D's or E's by step 6. */
  predicate WorkerCaps(g0: Grid, g: Grid, cap: nat)
    requires |g| == |g0|
  {
    forall v :: 0 <= v < |g0| ==>
      Count(g[v], D) <= Max(Count(g0[v], D), cap) && Count(g[v], E) <= Max(Count(g0[v], E), cap)
  }

  /** What the loop over one day's workers keeps, with `done` the workers
      already handled: counters in sync, other days untouched, the other
      workers' cells untouched, the rules at every handled cell, and the caps. */
  predicate DayInv(g0: Grid, days: nat, usage: seq<nat>, tails: Tails, d: nat, eLimit: nat, cap: nat,
                   done: seq<nat>, g: Grid, tally: seq<Tally>, today: Tally)
    requires Shaped(g0, |g0|, days) && d < days
  {
    && InSync(g, days, usage, tally) && |g| == |g0| && today == DayTally(g, d)
    && (forall v, e :: 0 <= v < |g0| && 0 <= e < days && e != d ==> g[v][e] == g0[v][e])
    && (forall v :: 0 <= v < |g0| && v !in done ==> g[v][d] == g0[v][d])
    && (forall v :: 0 <= v < |g0| && v in done ==> RulesAt(g, tails, v, d))
    && WithinCaps(g0, g, d, eLimit, cap) && WorkerCaps(g0, g, cap)
  }

  /** One turn of the loop over the day's workers keeps its invariant. */
  method RotateNext(ghost g0: Grid, days: nat, usage: seq<nat>, tails: Tails, d: nat, eLimit: nat, cap: nat,
                    ghost done: seq<nat>, w: nat, g: Grid, tally: seq<Tally>, today: Tally)
    returns (g': Grid, tally': seq<Tally>, today': Tally)
    requires Shaped(g0, |g0|, days) && d < days
    requires DayInv(g0, days, usage, tails, d, eLimit, cap, done, g, tally, today)
    requires w < |g0| && w !in done && g0[w][d] == Empty
    ensures DayInv(g0, days, usage, tails, d, eLimit, cap, done + [w], g', tally', today')
  {
    var x;
    g', tally', today', x := RotateWorker(g, days, usage, tally, today, tails, w, d, eLimit, cap);
    forall v | 0 <= v < |g0| && v != w ensures g'[v] == g[v] {
    }
    forall v | 0 <= v < |g0| && v in done + [w] ensures RulesAt(g', tails, v, d) {
      if v != w {
        RulesFrame(g, g', tails, v, d);
      }
    }
    forall v | 0 <= v < |g0|
      ensures Count(g'[v], D) <= Max(Count(g0[v], D), cap) && Count(g'[v], E) <= Max(Count(g0[v], E), cap)
    {
      if v != w {
        assert g'[v] == g[v];
      }
    }
  }

  /** Step 6 for one day: every pending worker, in the day's order, gets a
      duty that obeys the rules; only the day's empty cells change. */
  method RotateDay(g: Grid, days: nat, usage: seq<nat>, tally: seq<Tally>, tails: Tails,
                   d: nat, perm: seq<nat>, hnOut: bool, eLimit: nat, cap: nat)
    returns (g': Grid, tally': seq<Tally>)
    requires InSync(g, days, usage, tally) && d < days && IsOrder(perm, |g|)
    ensures InSync(g', days, usage, tally') && |g'| == |g|
    ensures forall v, e :: 0 <= v < |g| && 0 <= e < days && e != d ==> g'[v][e] == g[v][e]
    ensures forall v :: 0 <= v < |g| && (g[v][d] != Empty || Skipped(hnOut, v)) ==> g'[v][d] == g[v][d]
    ensures forall v :: 0 <= v < |g| && g[v][d] == Empty && !Skipped(hnOut, v) ==> RulesAt(g', tails, v, d)
    ensures WithinCaps(g, g', d, eLimit, cap) && WorkerCaps(g, g', cap)
  {
    var today, pending := CountDay(g, days, d, hnOut);
    var order := Shuffled(pending, perm);
    g', tally' := g, tally;
    for i := 0 to |order|
      invariant DayInv(g, days, usage, tails, d, eLimit, cap, order[..i], g', tally', today)
    {
      var w := order[i];
      assert w !in order[..i] && w in pending;
      assert order[..i + 1] == order[..i] + [w];
      g', tally', today := RotateNext(g, days, usage, tails, d, eLimit, cap, order[..i], w, g', tally', today);
    }
    assert order[..|order|] == order;
  }

  /** What the loop over the days of step 6 keeps, with days before `d`
      done: later days untouched, the decided and skipped cells of earlier
      days untouched, the rules at every other cell of earlier days, the
      day caps of earlier days, and the worker caps. */
  predicate RotationInv(g0: Grid, days: nat, usage: seq<nat>, tails: Tails, cols: seq<DayColumn>,
                        hnOut: bool, cap: nat, d: nat, g: Grid, tally: seq<Tally>)
    requires Shaped(g0, |g0|, days) && |cols| == days && d <= days
  {
    && InSync(g, days, usage, tally) && |g| == |g0|
    && (forall v, e :: 0 <= v < |g0| && d <= e < days ==> g[v][e] == g0[v][e])
    && (forall v, e :: 0 <= v < |g0| && 0 <= e < d && (g0[v][e] != Empty || Skipped(hnOut, v)) ==>
          g[v][e] == g0[v][e])
    && (forall v, e :: 0 <= v < |g0| && 0 <= e < d && g0[v][e] == Empty && !Skipped(hnOut, v) ==>
          RulesAt(g, tails, v, e))
    && (forall e :: 0 <= e < d ==> WithinCaps(g0, g, e, EveningLimit(cols[e]), cap))
    && WorkerCaps(g0, g, cap)
  }

  /** One day of step 6 keeps the invariant of the loop over days. */
  method RotationTurn(ghost g0: Grid, days: nat, usage: seq<nat>, tails: Tails, cols: seq<DayColumn>,
                      hnOut: bool, cap: nat, d: nat, perm: seq<nat>, g: Grid, tally: seq<Tally>)
    returns (g': Grid, tally': seq<Tally>)
    requires Shaped(g0, |g0|, days) && |cols| == days && d < days && IsOrder(perm, |g0|)
    requires RotationInv(g0, days, usage, tails, cols, hnOut, cap, d, g, tally)
    ensures RotationInv(g0, days, usage, tails, cols, hnOut, cap, d + 1, g', tally')
  {
    g', tally' := RotateDay(g, days, usage, tally, tails, d, perm, hnOut, EveningLimit(cols[d]), cap);
    forall v, e | 0 <= v < |g0| && 0 <= e < d && g0[v][e] == Empty && !Skipped(hnOut, v)
      ensures RulesAt(g', tails, v, e)
    {
      RulesFrame(g, g', tails, v, e);
    }
    forall e | 0 <= e < d + 1 ensures WithinCaps(g0, g', e, EveningLimit(cols[e]), cap) {
      if e < d {
        DayCountSame(g, g', e, D);
        DayCountSame(g, g', e, E);
      } else {
        DayCountSame(g0, g, d, D);
        DayCountSame(g0, g, d, E);
      }
    }
  }

  /** Step 6: the days in order, each with its own shuffle of the roster.
      Every empty cell except the skipped head nurse's is filled under the
      rules; nothing else changes; the night counts stay as they were. */
  method RotationPhase(g: Grid, days: nat, usage: seq<nat>, tally: seq<Tally>, tails: Tails,
                       cols: seq<DayColumn>, perms: seq<seq<nat>>, hnOut: bool, cap: nat)
    returns (g': Grid, tally': seq<Tally>)
    requires InSync(g, days, usage, tally) && |cols| == days && |perms| == days
    requires forall d :: 0 <= d < days ==> IsOrder(perms[d], |g|)
    ensures RotationInv(g, days, usage, tails, cols, hnOut, cap, days, g', tally')
  {
    g', tally' := g, tally;
    for d := 0 to days
      invariant RotationInv(g, days, usage, tails, cols, hnOut, cap, d, g', tally')
    {
      g', tally' := RotationTurn(g, days, usage, tails, cols, hnOut, cap, d, perms[d], g', tally');
    }
  }
}
