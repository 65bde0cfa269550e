/** `generate_monthly_schedule` of the patched engine: the seed of manual
    edits, the head nurse's weekday duties, the night phases, the duty
    target and the daily rotation, composed in the source's order. */
module Engine {
  import opened Duties
  import opened Grids
  import opened Counters
  import opened Calendar
  import opened Lookback
  import opened Continuity
  import opened NightBlocks
  import opened Rotation

  /** A cell of the previous table: worker and column header. */
  type Key = (nat, DayColumn)

  /** The grid step 1 builds: a manually edited cell that the previous
      table holds keeps its value, every other cell starts empty. */
  function SeedGrid(workers: nat, cols: seq<DayColumn>, prior: map<Key, Duty>, manual: set<Key>): (g: Grid)
    ensures Shaped(g, workers, |cols|)
  {
    seq(workers, w requires 0 <= w < workers =>
      seq(|cols|, d requires 0 <= d < |cols| =>
        if (w, cols[d]) in manual && (w, cols[d]) in prior then prior[(w, cols[d])] else Empty))
  }

  /** Step 1: two loops over workers and day columns that copy the manual
      edits out of the previous table. */
  method SeedManual(workers: nat, cols: seq<DayColumn>, prior: map<Key, Duty>, manual: set<Key>)
    returns (g: Grid)
    ensures Shaped(g, workers, |cols|)
    ensures forall w, d :: 0 <= w < workers && 0 <= d < |cols| && (w, cols[d]) in manual && (w, cols[d]) in prior ==>
      g[w][d] == prior[(w, cols[d])]
    ensures forall w, d :: 0 <= w < workers && 0 <= d < |cols| && ((w, cols[d]) !in manual || (w, cols[d]) !in prior) ==>
      g[w][d] == Empty
    ensures g == SeedGrid(workers, cols, prior, manual)
  {
    g := [];
    for w := 0 to workers
      invariant |g| == w
      invariant forall v :: 0 <= v < w ==> g[v] == SeedGrid(workers, cols, prior, manual)[v]
    {
      var row := seq(|cols|, _ => Empty);
      for d := 0 to |cols|
        invariant |row| == |cols|
        invariant forall e :: 0 <= e < d ==> row[e] == SeedGrid(workers, cols, prior, manual)[w][e]
        invariant forall e :: d <= e < |cols| ==> row[e] == Empty
      {
        var key := (w, cols[d]);
        if key in manual && key in prior {
          row := row[d := prior[key]];
        }
      }
      g := g + [row];
    }
  }

  /** The head nurse's code on an empty day: D Monday to Friday, O at the
      weekend. */
  function HeadNurseDuty(c: DayColumn): (x: Duty)
    requires c.weekday.Known?
    ensures x == D <==> c.weekday.index <= 4
    ensures x == D || x == O
  {
    if c.weekday.index <= 4 then D else O
  }

  /** What the loop of step 3 keeps after d days: counters in sync, only
      row 0 changed, its empty cells before d given the head nurse's code,
      and at most one more D a day. */
  predicate HeadNurseInv(g0: Grid, days: nat, usage: seq<nat>, cols: seq<DayColumn>, d: nat, g: Grid, tally: seq<Tally>)
    requires Shaped(g0, |g0|, days) && |g0| > 0 && |cols| == days && d <= days
    requires forall e :: 0 <= e < days ==> cols[e].weekday.Known?
  {
    && InSync(g, days, usage, tally) && |g| == |g0| && FillsWith(g0, g, {D, O})
    && (forall v :: 0 < v < |g0| ==> g[v] == g0[v])
    && (forall e :: 0 <= e < days ==>
          g[0][e] == if e < d && g0[0][e] == Empty then HeadNurseDuty(cols[e]) else g0[0][e])
    && (forall e :: 0 <= e < days ==> DayCount(g, e, D) <= DayCount(g0, e, D) + 1)
  }
  /** The first write on day d of a grid that still agrees with g0 on that
      day keeps every day's D count within one of g0's. */
  lemma FirstWriteAddsOne(g0: Grid, g: Grid, days: nat, d: nat, x: Duty)
    requires Shaped(g0, |g0|, days) && Shaped(g, |g0|, days) && |g0| > 0 && d < days && g[0][d] == Empty
    requires forall v :: 0 <= v < |g0| ==> g[v][d] == g0[v][d]
    requires forall e :: 0 <= e < days ==> DayCount(g, e, D) <= DayCount(g0, e, D) + 1
    ensures forall e :: 0 <= e < days ==> DayCount(Put(g, 0, d, x), e, D) <= DayCount(g0, e, D) + 1
  {
    forall e | 0 <= e < days ensures DayCount(Put(g, 0, d, x), e, D) <= DayCount(g0, e, D) + 1 {
      DayCountPut(g, 0, d, x, e, D);
      if e == d {
        DayCountSame(g0, g, d, D);
      }
    }
  }

  /** One day of the loop of step 3. */
  method HeadNurseStep(ghost g0: Grid, days: nat, usage: seq<nat>, cols: seq<DayColumn>, d: nat, g: Grid, tally: seq<Tally>)
    returns (g': Grid, tally': seq<Tally>)
    requires Shaped(g0, |g0|, days) && |g0| > 0 && |cols| == days && d < days
    requires forall e :: 0 <= e < days ==> cols[e].weekday.Known?
    requires HeadNurseInv(g0, days, usage, cols, d, g, tally)
    ensures HeadNurseInv(g0, days, usage, cols, d + 1, g', tally')
  {
    g', tally' := g, tally;
    if g[0][d] == Empty {
      var x := HeadNurseDuty(cols[d]);
      FillKeepsSync(g, days, usage, tally, 0, d, x);
      assert usage[d := usage[d] + 0] == usage;
      assert forall v :: 0 <= v < |g0| ==> g[v][d] == g0[v][d];
      FirstWriteAddsOne(g0, g, days, d, x);
      g' := Put(g, 0, d, x);
      tally' := tally[0 := Bump(tally[0], x)];
    }
  }

  /** Step 3: in head-nurse mode, when the first worker's category is head
      nurse, her empty cells get D on weekdays and O at weekends. */
  method HeadNursePhase(g: Grid, days: nat, usage: seq<nat>, tally: seq<Tally>, cols: seq<DayColumn>, active: bool)
    returns (g': Grid, tally': seq<Tally>)
    requires InSync(g, days, usage, tally) && |cols| == days
    requires forall d :: 0 <= d < days ==> cols[d].weekday.Known?
    requires active ==> |g| > 0
    ensures InSync(g', days, usage, tally') && FillsWith(g, g', {D, O})
    ensures !active ==> g' == g
    ensures active ==> forall v :: 0 < v < |g| ==> g'[v] == g[v]
    ensures active ==> forall d :: 0 <= d < days ==>
      g'[0][d] == if g[0][d] == Empty then HeadNurseDuty(cols[d]) else g[0][d]
    ensures forall d :: 0 <= d < days ==> DayCount(g', d, D) <= DayCount(g, d, D) + (if active then 1 else 0)
    ensures active ==> forall d :: 0 <= d < days ==> g'[0][d] != Empty
    ensures forall v :: 0 <= v < |g| && !Skipped(active, v) ==> g'[v] == g[v]
  {
    g', tally' := g, tally;
    if !active {
      return;
    }
    for d := 0 to days
      invariant HeadNurseInv(g, days, usage, cols, d, g', tally')
    {
      g', tally' := HeadNurseStep(g, days, usage, cols, d, g', tally');
    }
    forall d | 0 <= d < days ensures g'[0][d] != Empty {
      assert HeadNurseDuty(cols[d]) != Empty;
    }
  }

  /** `workers_for_n`: the workers whose category is not head nurse, in the
      shuffled order. */
  method NightWorkers(rosterPerm: seq<nat>, isHeadNurse: seq<bool>) returns (nWorkers: seq<nat>)
    requires IsOrder(rosterPerm, |isHeadNurse|)
    ensures forall i :: 0 <= i < |nWorkers| ==> nWorkers[i] < |isHeadNurse|
    ensures forall i, j :: 0 <= i < j < |nWorkers| ==> nWorkers[i] != nWorkers[j]
    ensures forall w :: 0 <= w < |isHeadNurse| ==> (w in nWorkers <==> !isHeadNurse[w])
  {
    nWorkers := [];
    for i := 0 to |rosterPerm|
      invariant forall k :: 0 <= k < |nWorkers| ==> nWorkers[k] < |isHeadNurse| && nWorkers[k] in rosterPerm[..i]
      invariant forall k, j :: 0 <= k < j < |nWorkers| ==> nWorkers[k] != nWorkers[j]
      invariant forall w :: 0 <= w < |isHeadNurse| ==> (w in nWorkers <==> w in rosterPerm[..i] && !isHeadNurse[w])
    {
      assert rosterPerm[..i + 1] == rosterPerm[..i] + [rosterPerm[i]];
      assert rosterPerm[i] !in rosterPerm[..i];
      if !isHeadNurse[rosterPerm[i]] {
        nWorkers := nWorkers + [rosterPerm[i]];
      }
    }
    assert rosterPerm[..|rosterPerm|] == rosterPerm;
  }

  /** Continuity writes only N and O, and from the third day on only O. */
  lemma ContinuityFills(g: Grid, h: Grid, days: nat, nWorkers: seq<nat>, tails: Tails)
    requires Shaped(g, |g|, days) && |h| == |g|
    requires forall w :: 0 <= w < |g| ==>
      h[w] == if w in nWorkers then ContinueRow(g[w], Forced(TailOf(tails, w)), 0) else g[w]
    ensures FillsWith(g, h, {N, O})
    ensures forall w, d :: 0 <= w < |g| && 2 <= d < days && g[w][d] == Empty && h[w][d] != Empty ==> h[w][d] == O
    ensures forall d :: 2 <= d < days ==> DayCount(h, d, N) == DayCount(g, d, N)
  {
    forall w | 0 <= w < |g| && w in nWorkers
      ensures forall d :: 0 <= d < days && g[w][d] == Empty && h[w][d] != Empty ==>
        (h[w][d] == N || h[w][d] == O) && (2 <= d ==> h[w][d] == O)
    {
      var f := Forced(TailOf(tails, w));
      ForcedNightsEarly(TailOf(tails, w));
      ContinueRowExtends(g[w], f);
    }
    forall d | 2 <= d < days ensures DayCount(h, d, N) == DayCount(g, d, N) {
      DayCountSame(g, h, d, N);
    }
  }

  /** Row w as step 4-A leaves it: continued from the worker's tail when
      the worker is listed, unchanged otherwise. */
  function CarriedRow(g: Grid, nWorkers: seq<nat>, tails: Tails, w: nat): Row
    requires w < |g|
  {
    if w in nWorkers then ContinueRow(g[w], Forced(TailOf(tails, w)), 0) else g[w]
  }

  /** Every cell that step 4-A forced on a listed worker is still in b. */
  predicate CarriedOver(g: Grid, b: Grid, nWorkers: seq<nat>, tails: Tails) {
    |b| == |g| &&
    forall w :: 0 <= w < |g| && w in nWorkers ==> RowExtends(ContinueRow(g[w], Forced(TailOf(tails, w)), 0), b[w])
  }

  /** After step 4-C the last day has a listed worker on N, or is at the
      night cap, or has no listed worker left to take a night. */
  predicate LastNightSettled(g: Grid, nWorkers: seq<nat>, days: nat)
    requires Shaped(g, |g|, days) && days > 0
    requires forall i :: 0 <= i < |nWorkers| ==> nWorkers[i] < |g|
  {
    || NightOnDay(g, nWorkers, days - 1)
    || DayCount(g, days - 1, N) >= NightCap
    || forall i :: 0 <= i < |nWorkers| ==> g[nWorkers[i]][days - 1] != Empty
  }

  /** Steps 4-A and 4-B: continuity, then fresh blocks. `nSets` counts each
      worker's blocks, at most two and none for an unlisted worker, each
      adding three nights to the row that continuity left. */
  method CarryAndBlocks(g: Grid, days: nat, usage: seq<nat>, tally: seq<Tally>, nWorkers: seq<nat>, tails: Tails)
    returns (g': Grid, usage': seq<nat>, tally': seq<Tally>, nSets: seq<nat>)
    requires InSync(g, days, usage, tally)
    requires forall i :: 0 <= i < |nWorkers| ==> nWorkers[i] < |g|
    requires forall i, j :: 0 <= i < j < |nWorkers| ==> nWorkers[i] != nWorkers[j]
    ensures InSync(g', days, usage', tally') && NightsDone(g, g', days)
    ensures CarriedOver(g, g', nWorkers, tails)
    ensures |nSets| == |g| && forall w :: 0 <= w < |g| ==> nSets[w] <= BlockCap && (w !in nWorkers ==> nSets[w] == 0)
    ensures forall w :: 0 <= w < |g| ==> Count(g'[w], N) == Count(CarriedRow(g, nWorkers, tails, w), N) + NightLen * nSets[w]
  {
    var g1, usage1, tally1 := ContinuityPhase(g, days, usage, tally, nWorkers, tails);
    ContinuityFills(g, g1, days, nWorkers, tails);
    g', usage', tally', nSets := NightBlockPhase(g1, days, usage1, tally1, nWorkers);
    FillsWithTrans(g, g1, g', {N, O});
    forall w | 0 <= w < |g| ensures g1[w] == CarriedRow(g, nWorkers, tails, w) {
    }
  }

  /** Step 4: continuity, fresh blocks and the last-day night. Only N and O
      are written, and from the third day on no day gets a night above the
      cap that it did not already have. The carried-over cells survive the
      later steps; `nSets` counts each worker's blocks, at most two and none
      for an unlisted worker, each adding three nights; `placed` and `who`
      say whether and to whom step 4-C gave the last day's night. */
  method NightPhases(g: Grid, days: nat, usage: seq<nat>, tally: seq<Tally>, nWorkers: seq<nat>, tails: Tails)
    returns (g': Grid, usage': seq<nat>, tally': seq<Tally>, nSets: seq<nat>, placed: bool, who: nat)
    requires InSync(g, days, usage, tally) && days > 0
    requires forall i :: 0 <= i < |nWorkers| ==> nWorkers[i] < |g|
    requires forall i, j :: 0 <= i < j < |nWorkers| ==> nWorkers[i] != nWorkers[j]
    ensures InSync(g', days, usage', tally') && NightsDone(g, g', days)
    ensures CarriedOver(g, g', nWorkers, tails)
    ensures |nSets| == |g| && forall w :: 0 <= w < |g| ==> nSets[w] <= BlockCap && (w !in nWorkers ==> nSets[w] == 0)
    ensures forall w :: 0 <= w < |g| ==>
      Count(g'[w], N) == Count(CarriedRow(g, nWorkers, tails, w), N) + NightLen * nSets[w] + (if placed && who == w then 1 else 0)
    ensures placed ==> who in nWorkers && g'[who][days - 1] == N
    ensures LastNightSettled(g', nWorkers, days)
  {
    var g2, usage2, tally2;
    g2, usage2, tally2, nSets := CarryAndBlocks(g, days, usage, tally, nWorkers, tails);
    g', usage', tally', placed, who := LastDayPhase(g2, days, usage2, tally2, nSets, nWorkers);
    LastDayFacts(g2, g', days, usage2, nWorkers, placed, who);
    LastDayKeeps(g, g2, g', days, nWorkers, tails);
  }

  /** Step 4-C keeps what steps 4-A and 4-B promise of the cells. */
  lemma LastDayKeeps(g: Grid, g2: Grid, g': Grid, days: nat, nWorkers: seq<nat>, tails: Tails)
    requires Shaped(g, |g|, days) && NightsDone(g, g2, days) && CarriedOver(g, g2, nWorkers, tails)
    requires FillsWith(g2, g', {N})
    requires forall d :: 0 <= d < days ==> DayCount(g', d, N) <= Max(DayCount(g2, d, N), NightCap)
    ensures NightsDone(g, g', days) && CarriedOver(g, g', nWorkers, tails)
  {
    FillsWithWeaken(g2, g', {N}, {N, O});
    FillsWithTrans(g, g2, g', {N, O});
    forall w | 0 <= w < |g| && w in nWorkers
      ensures RowExtends(ContinueRow(g[w], Forced(TailOf(tails, w)), 0), g'[w])
    {
      assert RowExtends(ContinueRow(g[w], Forced(TailOf(tails, w)), 0), g2[w]);
    }
  }

  /** What step 4-C adds: one more night for its worker, and the last day
      settled. */
  lemma LastDayFacts(g2: Grid, g': Grid, days: nat, usage2: seq<nat>, nWorkers: seq<nat>, placed: bool, who: nat)
    requires Shaped(g2, |g2|, days) && days > 0 && |usage2| == days && usage2[days - 1] == DayCount(g2, days - 1, N)
    requires forall i :: 0 <= i < |nWorkers| ==> nWorkers[i] < |g2|
    requires placed <==> (!NightOnDay(g2, nWorkers, days - 1) && usage2[days - 1] < NightCap &&
                          exists i :: 0 <= i < |nWorkers| && g2[nWorkers[i]][days - 1] == Empty)
    requires !placed ==> g' == g2
    requires placed ==> who in nWorkers && g2[who][days - 1] == Empty && g' == Put(g2, who, days - 1, N)
    ensures Shaped(g', |g2|, days) && LastNightSettled(g', nWorkers, days)
    ensures placed ==> g'[who][days - 1] == N
    ensures forall w :: 0 <= w < |g2| ==> Count(g'[w], N) == Count(g2[w], N) + (if placed && who == w then 1 else 0)
  {
    if placed {
      var i :| 0 <= i < |nWorkers| && nWorkers[i] == who;
      assert g'[nWorkers[i]][days - 1] == N;
      CountUpdate(g2[who], days - 1, N, N);
    }
  }

  /** `math.ceil(a / n)` for whole a and n, as repeated subtraction. */
  function CeilDiv(a: nat, n: nat): (q: nat)
    requires n > 0
    decreases a
  {
    if a == 0 then 0
    else if a <= n then 1
    else 1 + CeilDiv(a - n, n)
  }

  /** CeilDiv is the least whole q with a <= q * n. */
  lemma {:induction false} CeilDivIsCeiling(a: nat, n: nat)
    requires n > 0
    ensures a <= CeilDiv(a, n) * n
    ensures CeilDiv(a, n) == 0 || (CeilDiv(a, n) - 1) * n < a
    decreases a
  {
    if a > n {
      CeilDivIsCeiling(a - n, n);
      var c := CeilDiv(a - n, n);
      assert CeilDiv(a, n) * n == c * n + n;
      assert (CeilDiv(a, n) - 1) * n == c * n;
      assert (c - 1) * n == c * n - n;
    }
  }

  lemma {:induction false} MulStep(a: nat, b: nat, n: nat)
    requires a < b
    ensures a * n + n <= b * n
    decreases b - a
  {
    if a + 1 < b {
      MulStep(a + 1, b, n);
    }
  }

  /** Integer division is determined by quotient and remainder. */
  lemma DivUnique(x: nat, n: nat, q: nat, r: nat)
    requires n > 0 && x == q * n + r && r < n
    ensures x / n == q
  {
    var q' := x / n;
    assert x == q' * n + x % n;
    if q' < q {
      MulStep(q', q, n);
    } else if q' > q {
      MulStep(q, q', n);
    }
  }

  /** CeilDiv agrees with the integer formula `(a + n - 1) // n`. */
  lemma CeilDivIsQuotient(a: nat, n: nat)
    requires n > 0
    ensures CeilDiv(a, n) == (a + n - 1) / n
  {
    CeilDivIsCeiling(a, n);
    var c := CeilDiv(a, n);
    if c == 0 {
      DivUnique(n - 1, n, 0, n - 1);
    } else {
      assert (c - 1) * n == c * n - n;
      DivUnique(a + n - 1, n, c, a + n - 1 - c * n);
    }
  }

  /** Step 5: `max(1, ceil(work days * 3 / n))` for the n workers that share
      the D, E and N duties (the roster less the head nurse in head-nurse
      mode), or 0 without such workers. */
  function Target(workers: nat, headNurseMode: bool, cols: seq<DayColumn>): (t: nat)
    ensures t == 0 <==> workers - (if headNurseMode && workers > 0 then 1 else 0) == 0
  {
    var n := workers - (if headNurseMode && workers > 0 then 1 else 0);
    if n == 0 then 0
    else
      var q := CeilDiv(3 * WorkdayCount(cols), n);
      if q < 1 then 1 else q
  }

  /** The target is the least whole number of duties that covers the D, E
      and N of every work day when shared by the n workers, and at least 1. */
  lemma TargetIsCeiling(workers: nat, headNurseMode: bool, cols: seq<DayColumn>)
    ensures var n := workers - (if headNurseMode && workers > 0 then 1 else 0);
      var t := Target(workers, headNurseMode, cols);
      && (n == 0 ==> t == 0)
      && (n > 0 ==> t >= 1 && 3 * WorkdayCount(cols) <= t * n && (t == 1 || (t - 1) * n < 3 * WorkdayCount(cols)))
  {
    var n := workers - (if headNurseMode && workers > 0 then 1 else 0);
    if n > 0 {
      CeilDivIsCeiling(3 * WorkdayCount(cols), n);
    }
  }

  /** From the third day on no automatic night lifts a day above the cap. */
  predicate NightsBounded(seed: Grid, g: Grid, days: nat) {
    forall d :: 2 <= d < days ==> DayCount(g, d, N) <= Max(DayCount(seed, d, N), NightCap)
  }

  /** D and E stay within each day's limits, unless the seed (and, for D,
      the head nurse's weekday D on top of it) already went further. */
  predicate DayLimitsKept(seed: Grid, g: Grid, cols: seq<DayColumn>, hnActive: bool) {
    forall d :: 0 <= d < |cols| ==>
      && DayCount(g, d, D) <= Max(DayCount(seed, d, D) + (if hnActive then 1 else 0), DayLimit)
      && DayCount(g, d, E) <= Max(DayCount(seed, d, E), EveningLimit(cols[d]))
  }

  /** No automatic E, and no automatic D outside the head nurse's row, takes
      a worker past `cap`. */
  predicate WorkerLimitsKept(seed: Grid, g: Grid, hnActive: bool, cap: nat)
    requires |g| == |seed|
  {
    forall w :: 0 <= w < |seed| ==>
      && Count(g[w], E) <= Max(Count(seed[w], E), cap)
      && (!Skipped(hnActive, w) ==> Count(g[w], D) <= Max(Count(seed[w], D), cap))
  }

  /** Every automatic D or E outside the head nurse's row obeys the rest
      rules of step 6. */
  predicate RestRulesKept(seed: Grid, g: Grid, days: nat, tails: Tails, hnActive: bool)
    requires Shaped(g, |seed|, days)
  {
    forall w, d :: 0 <= w < |seed| && 0 <= d < days && d < |seed[w]| && !Skipped(hnActive, w) ==>
      (seed[w][d] == Empty && (g[w][d] == D || g[w][d] == E) ==> RulesAt(g, tails, w, d))
  }

  /** What steps 1 to 3 leave, against the seed: only D and O added, the
      head nurse's row full when she is in, every other row untouched, and
      at most one more D a day. */
  predicate HeadNurseDone(seed: Grid, h: Grid, days: nat, hnActive: bool)
    requires Shaped(seed, |seed|, days)
  {
    && Shaped(h, |seed|, days) && FillsWith(seed, h, {D, O})
    && (hnActive ==> |seed| > 0 && forall d :: 0 <= d < days ==> h[0][d] != Empty)
    && (forall v :: 0 <= v < |seed| && !Skipped(hnActive, v) ==> h[v] == seed[v])
    && (forall d :: 0 <= d < days ==> DayCount(h, d, D) <= DayCount(seed, d, D) + (if hnActive then 1 else 0))
  }

  /** What step 4 leaves: only N and O added, and from the third day on no
      day above the night cap that it was not already above. */
  predicate NightsDone(h: Grid, b: Grid, days: nat)
  {
    && Shaped(b, |h|, days) && FillsWith(h, b, {N, O})
    && (forall d :: 2 <= d < days ==> DayCount(b, d, N) <= Max(DayCount(h, d, N), NightCap))
  }

  /** The promise of the whole run against the seed: the table is full,
      manual edits are kept, every automatic cell is D, E, N or O, and the
      night, day, worker and rest bounds hold. */
  predicate Outcome(seed: Grid, g: Grid, cols: seq<DayColumn>, tails: Tails, hnActive: bool, cap: nat)
    requires Shaped(seed, |seed|, |cols|)
  {
    && Shaped(g, |seed|, |cols|) && Complete(g) && FillsWith(seed, g, {D, E, N, O})
    && NightsBounded(seed, g, |cols|) && DayLimitsKept(seed, g, cols, hnActive)
    && WorkerLimitsKept(seed, g, hnActive, cap) && RestRulesKept(seed, g, |cols|, tails, hnActive)
  }

  /** Steps 1 to 3: the seed of manual edits, the counters, and the head
      nurse's weekday duties. */
  method Prepare(workers: nat, cols: seq<DayColumn>, prior: map<Key, Duty>, manual: set<Key>, hnActive: bool)
    returns (g: Grid, usage: seq<nat>, tally: seq<Tally>)
    requires forall d :: 0 <= d < |cols| ==> cols[d].weekday.Known?
    requires hnActive ==> workers > 0
    ensures InSync(g, |cols|, usage, tally) && HeadNurseDone(SeedGrid(workers, cols, prior, manual), g, |cols|, hnActive)
  {
    g := SeedManual(workers, cols, prior, manual);
    usage, tally := CountDuties(g, |cols|);
    g, tally := HeadNursePhase(g, |cols|, usage, tally, cols, hnActive);
  }

  /** `generate_monthly_schedule(year, month)`. The roster is workers
      0 .. |isHeadNurse| - 1, worker 0 being the head nurse when the mode is
      on; `rosterPerm` is the shuffle of `workers_for_n` and `dayPerms[d]`
      the shuffle of day d's pending workers, both given as shuffles of the
      whole roster. With an empty roster the table is empty. Otherwise:
      manual edits are kept, no cell stays empty, every automatic cell is D,
      E, N or O, and the night, day, worker and rest bounds hold. */
  method Generate(isHeadNurse: seq<bool>, headNurseMode: bool, cols: seq<DayColumn>,
                  prior: map<Key, Duty>, manual: set<Key>, tails: Tails,
                  rosterPerm: seq<nat>, dayPerms: seq<seq<nat>>)
    returns (g: Grid)
    requires |cols| > 0 && forall d :: 0 <= d < |cols| ==> cols[d].weekday.Known?
    requires IsOrder(rosterPerm, |isHeadNurse|)
    requires |dayPerms| == |cols| && forall d :: 0 <= d < |cols| ==> IsOrder(dayPerms[d], |isHeadNurse|)
    ensures |isHeadNurse| == 0 ==> g == []
    ensures |isHeadNurse| > 0 ==>
      Outcome(SeedGrid(|isHeadNurse|, cols, prior, manual), g, cols, tails,
              headNurseMode && isHeadNurse[0], Target(|isHeadNurse|, headNurseMode, cols) + 1)
    ensures |isHeadNurse| > 0 ==> CarryOverKept(SeedGrid(|isHeadNurse|, cols, prior, manual), g, isHeadNurse, tails)
  {
    var workers := |isHeadNurse|;
    if workers == 0 {
      return [];
    }
    var hnActive := headNurseMode && isHeadNurse[0];
    ghost var seed := SeedGrid(workers, cols, prior, manual);
    var h, usage, tally := Prepare(workers, cols, prior, manual, hnActive);
    g := AfterPrepare(seed, h, usage, tally, isHeadNurse, headNurseMode, cols, tails, rosterPerm, dayPerms);
  }

  /** Steps 4 to 6 on the grid h that steps 1 to 3 left. */
  method AfterPrepare(ghost seed: Grid, h: Grid, usage: seq<nat>, tally: seq<Tally>, isHeadNurse: seq<bool>,
                      headNurseMode: bool, cols: seq<DayColumn>, tails: Tails, rosterPerm: seq<nat>, dayPerms: seq<seq<nat>>)
    returns (g: Grid)
    requires Shaped(seed, |seed|, |cols|) && |seed| == |isHeadNurse| > 0 && |cols| > 0
    requires InSync(h, |cols|, usage, tally) && HeadNurseDone(seed, h, |cols|, headNurseMode && isHeadNurse[0])
    requires IsOrder(rosterPerm, |isHeadNurse|)
    requires |dayPerms| == |cols| && forall d :: 0 <= d < |cols| ==> IsOrder(dayPerms[d], |isHeadNurse|)
    ensures Outcome(seed, g, cols, tails, headNurseMode && isHeadNurse[0], Target(|isHeadNurse|, headNurseMode, cols) + 1)
    ensures CarryOverKept(seed, g, isHeadNurse, tails)
  {
    var nWorkers := NightWorkers(rosterPerm, isHeadNurse);
    var cap := Target(|isHeadNurse|, headNurseMode, cols) + 1;
    g := NightsAndRotation(seed, h, usage, tally, nWorkers, tails, cols, dayPerms, headNurseMode && isHeadNurse[0], cap);
    CarryOverFromSeed(seed, h, g, |cols|, isHeadNurse, nWorkers, tails, headNurseMode);
  }

  /** Steps 4 and 6 on the grid h that steps 1 to 3 left. */
  method NightsAndRotation(ghost seed: Grid, h: Grid, usage: seq<nat>, tally: seq<Tally>, nWorkers: seq<nat>,
                           tails: Tails, cols: seq<DayColumn>, dayPerms: seq<seq<nat>>, hnActive: bool, cap: nat)
    returns (g: Grid)
    requires Shaped(seed, |seed|, |cols|) && |seed| > 0 && |cols| > 0
    requires InSync(h, |cols|, usage, tally) && HeadNurseDone(seed, h, |cols|, hnActive)
    requires forall i :: 0 <= i < |nWorkers| ==> nWorkers[i] < |h|
    requires forall i, j :: 0 <= i < j < |nWorkers| ==> nWorkers[i] != nWorkers[j]
    requires |dayPerms| == |cols| && forall d :: 0 <= d < |cols| ==> IsOrder(dayPerms[d], |h|)
    ensures Outcome(seed, g, cols, tails, hnActive, cap)
    ensures CarriedOver(h, g, nWorkers, tails)
  {
    var days := |cols|;
    var b, usage', tally', nSets, placed, who := NightPhases(h, days, usage, tally, nWorkers, tails);
    g, tally' := RotationPhase(b, days, usage', tally', tails, cols, dayPerms, hnActive, cap);
    GenerateFacts(seed, h, b, g, days, usage', tally', tails, cols, hnActive, cap);
    CarriedOverKept(h, b, g, days, usage', tally', nWorkers, tails, cols, hnActive, cap);
  }

  /** The rotation only fills empty cells, so the carried-over cells reach
      the table. */
  lemma CarriedOverKept(h: Grid, b: Grid, g: Grid, days: nat, usage: seq<nat>, tally: seq<Tally>,
                        nWorkers: seq<nat>, tails: Tails, cols: seq<DayColumn>, hnActive: bool, cap: nat)
    requires Shaped(b, |h|, days) && |cols| == days && CarriedOver(h, b, nWorkers, tails)
    requires RotationInv(b, days, usage, tails, cols, hnActive, cap, days, g, tally)
    ensures CarriedOver(h, g, nWorkers, tails)
  {
    assert Extends(b, g);
    forall w | 0 <= w < |h| && w in nWorkers
      ensures RowExtends(ContinueRow(h[w], Forced(TailOf(tails, w)), 0), g[w])
    {
      assert RowExtends(ContinueRow(h[w], Forced(TailOf(tails, w)), 0), b[w]);
    }
  }

  /** Every worker outside the head-nurse category keeps, in the table, the
      duties that last month's tail forced on their row of the seed. */
  predicate CarryOverKept(seed: Grid, g: Grid, isHeadNurse: seq<bool>, tails: Tails) {
    |g| == |seed| &&
    forall w :: 0 <= w < |seed| && w < |isHeadNurse| && !isHeadNurse[w] ==>
      RowExtends(ContinueRow(seed[w], Forced(TailOf(tails, w)), 0), g[w])
  }

  /** The listed workers of step 4 are those outside the head-nurse
      category, and the head nurse's phase left their rows as seeded. */
  lemma CarryOverFromSeed(seed: Grid, h: Grid, g: Grid, days: nat, isHeadNurse: seq<bool>, nWorkers: seq<nat>,
                          tails: Tails, headNurseMode: bool)
    requires Shaped(seed, |seed|, days) && |isHeadNurse| == |seed| > 0
    requires HeadNurseDone(seed, h, days, headNurseMode && isHeadNurse[0])
    requires forall w :: 0 <= w < |isHeadNurse| ==> (w in nWorkers <==> !isHeadNurse[w])
    requires CarriedOver(h, g, nWorkers, tails)
    ensures CarryOverKept(seed, g, isHeadNurse, tails)
  {
    forall w | 0 <= w < |seed| && !isHeadNurse[w]
      ensures RowExtends(ContinueRow(seed[w], Forced(TailOf(tails, w)), 0), g[w])
    {
      assert !Skipped(headNurseMode && isHeadNurse[0], w);
      assert h[w] == seed[w];
    }
  }

  /** How the phase contracts add up to the contract of Generate, with h
      the grid after the head nurse's phase and b the grid before rotation. */
  lemma GenerateFacts(seed: Grid, h: Grid, b: Grid, g: Grid, days: nat, usage: seq<nat>, tally: seq<Tally>,
                   tails: Tails, cols: seq<DayColumn>, hnActive: bool, cap: nat)
    requires Shaped(seed, |seed|, days) && |seed| > 0 && |cols| == days
    requires HeadNurseDone(seed, h, days, hnActive) && NightsDone(h, b, days)
    requires RotationInv(b, days, usage, tails, cols, hnActive, cap, days, g, tally)
    ensures Outcome(seed, g, cols, tails, hnActive, cap)
  {
    FillsFacts(seed, h, b, g, days, usage, tally, tails, cols, hnActive, cap);
    NightFacts(seed, h, b, g, days, usage, tally, tails, cols, hnActive, cap);
    DayFacts(seed, h, b, g, days, usage, tally, tails, cols, hnActive, cap);
    WorkerFacts(seed, h, b, g, days, usage, tally, tails, cols, hnActive, cap);
    RestFacts(seed, h, b, g, days, usage, tally, tails, cols, hnActive, cap);
  }

  /** Generate's rotation step writes D, E or O, and leaves no cell empty. */
  lemma FillsFacts(seed: Grid, h: Grid, b: Grid, g: Grid, days: nat, usage: seq<nat>, tally: seq<Tally>,
                   tails: Tails, cols: seq<DayColumn>, hnActive: bool, cap: nat)
    requires Shaped(seed, |seed|, days) && |seed| > 0 && |cols| == days
    requires HeadNurseDone(seed, h, days, hnActive) && NightsDone(h, b, days)
    requires RotationInv(b, days, usage, tails, cols, hnActive, cap, days, g, tally)
    ensures Shaped(g, |seed|, days) && Complete(g) && FillsWith(seed, g, {D, E, N, O})
  {
    assert FillsWith(b, g, {D, E, O});
    FillsWithWeaken(seed, h, {D, O}, {D, E, N, O});
    FillsWithWeaken(h, b, {N, O}, {D, E, N, O});
    FillsWithWeaken(b, g, {D, E, O}, {D, E, N, O});
    FillsWithTrans(seed, h, b, {D, E, N, O});
    FillsWithTrans(seed, b, g, {D, E, N, O});
    forall w, d | 0 <= w < |g| && 0 <= d < |g[w]| ensures g[w][d] != Empty {
      if Skipped(hnActive, w) {
        assert h[w][d] != Empty;
      }
    }
  }

  /** Generate's night bound. */
  lemma NightFacts(seed: Grid, h: Grid, b: Grid, g: Grid, days: nat, usage: seq<nat>, tally: seq<Tally>,
                   tails: Tails, cols: seq<DayColumn>, hnActive: bool, cap: nat)
    requires Shaped(seed, |seed|, days) && |seed| > 0 && |cols| == days
    requires HeadNurseDone(seed, h, days, hnActive) && NightsDone(h, b, days)
    requires RotationInv(b, days, usage, tails, cols, hnActive, cap, days, g, tally)
    ensures NightsBounded(seed, g, days)
  {
    assert FillsWith(b, g, {D, E, O});
    FillsKeepCounts(seed, h, {D, O}, N);
    FillsKeepCounts(b, g, {D, E, O}, N);
  }

  /** Generate's day limits. */
  lemma DayFacts(seed: Grid, h: Grid, b: Grid, g: Grid, days: nat, usage: seq<nat>, tally: seq<Tally>,
                   tails: Tails, cols: seq<DayColumn>, hnActive: bool, cap: nat)
    requires Shaped(seed, |seed|, days) && |seed| > 0 && |cols| == days
    requires HeadNurseDone(seed, h, days, hnActive) && NightsDone(h, b, days)
    requires RotationInv(b, days, usage, tails, cols, hnActive, cap, days, g, tally)
    ensures DayLimitsKept(seed, g, cols, hnActive)
  {
    FillsKeepCounts(seed, h, {D, O}, E);
    FillsKeepCounts(h, b, {N, O}, D);
    FillsKeepCounts(h, b, {N, O}, E);
    assert forall d :: 0 <= d < days ==> WithinCaps(b, g, d, EveningLimit(cols[d]), cap);
    DayBoundsCompose(seed, h, b, g, cols, hnActive, cap);
  }

  /** The day limits of Generate from those of the phases. */
  lemma DayBoundsCompose(seed: Grid, h: Grid, b: Grid, g: Grid, cols: seq<DayColumn>, hnActive: bool, cap: nat)
    requires |h| == |seed| && |b| == |seed| && |g| == |seed|
    requires forall d :: 0 <= d < |cols| ==> DayCount(h, d, D) <= DayCount(seed, d, D) + (if hnActive then 1 else 0)
    requires forall d :: DayCount(h, d, E) == DayCount(seed, d, E)
    requires forall d :: DayCount(b, d, D) == DayCount(h, d, D) && DayCount(b, d, E) == DayCount(h, d, E)
    requires forall d :: 0 <= d < |cols| ==> WithinCaps(b, g, d, EveningLimit(cols[d]), cap)
    ensures DayLimitsKept(seed, g, cols, hnActive)
  {
    forall d | 0 <= d < |cols|
      ensures DayCount(g, d, D) <= Max(DayCount(seed, d, D) + (if hnActive then 1 else 0), DayLimit)
      ensures DayCount(g, d, E) <= Max(DayCount(seed, d, E), EveningLimit(cols[d]))
    {
      assert WithinCaps(b, g, d, EveningLimit(cols[d]), cap);
      assert DayCount(b, d, D) <= DayCount(seed, d, D) + (if hnActive then 1 else 0);
      assert DayCount(b, d, E) == DayCount(seed, d, E);
    }
  }

  /** Generate's worker limits. */
  lemma WorkerFacts(seed: Grid, h: Grid, b: Grid, g: Grid, days: nat, usage: seq<nat>, tally: seq<Tally>,
                   tails: Tails, cols: seq<DayColumn>, hnActive: bool, cap: nat)
    requires Shaped(seed, |seed|, days) && |seed| > 0 && |cols| == days
    requires HeadNurseDone(seed, h, days, hnActive) && NightsDone(h, b, days)
    requires RotationInv(b, days, usage, tails, cols, hnActive, cap, days, g, tally)
    ensures |g| == |seed| && WorkerLimitsKept(seed, g, hnActive, cap)
  {
    FillsKeepCounts(h, b, {N, O}, D);
    FillsKeepCounts(h, b, {N, O}, E);
    FillsKeepCounts(seed, h, {D, O}, E);
  }

  /** Generate's rest rules: an automatic D or E outside the head nurse's
      row was written by the rotation step. */
  lemma RestFacts(seed: Grid, h: Grid, b: Grid, g: Grid, days: nat, usage: seq<nat>, tally: seq<Tally>,
                  tails: Tails, cols: seq<DayColumn>, hnActive: bool, cap: nat)
    requires Shaped(seed, |seed|, days) && |seed| > 0 && |cols| == days
    requires HeadNurseDone(seed, h, days, hnActive) && NightsDone(h, b, days)
    requires RotationInv(b, days, usage, tails, cols, hnActive, cap, days, g, tally)
    ensures Shaped(g, |seed|, days) && RestRulesKept(seed, g, days, tails, hnActive)
  {
    forall w, d | 0 <= w < |seed| && 0 <= d < days && !Skipped(hnActive, w) &&
      seed[w][d] == Empty && (g[w][d] == D || g[w][d] == E)
      ensures RulesAt(g, tails, w, d)
    {
      assert h[w][d] == Empty;
    }
  }
}
