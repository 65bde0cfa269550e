/** Steps 4-B and 4-C of the patched engine: fresh N-N-N-O-O night blocks,
    and one night on the last day of the month. */
module NightBlocks {
  import opened Duties
  import opened Grids
  import opened Counters

  /** `DAILY_LIMITS['N']` */
  const NightCap: nat := 1
  /** The number of blocks one worker may get in a month. */
  const BlockCap: nat := 2
  /** Three nights of a block. */
  const NightLen: nat := 3

  /** `o_len = min(2, last_day - o_start_day)` */
  function OffLen(days: nat, s: nat): nat
    requires s + NightLen <= days
  {
    if days - (s + NightLen) < 2 then days - (s + NightLen) else 2
  }

  /** `block_len` */
  function BlockLen(days: nat, s: nat): nat
    requires s + NightLen <= days
  {
    NightLen + OffLen(days, s)
  }

  /** A row with a block placed at s: three N's, then the offs that fit. */
  function WithBlock(row: Row, s: nat, len: nat): (r: Row)
    ensures |r| == |row|
  {
    seq(|row|, j requires 0 <= j < |row| =>
      if s <= j < s + NightLen then N else if s + NightLen <= j < s + len then O else row[j])
  }

  /** The condition of the `available_workers` comprehension at start day s. */
  predicate Eligible(g: Grid, days: nat, usage: seq<nat>, nSets: seq<nat>, w: nat, s: nat)
    requires Shaped(g, |g|, days) && |usage| == days && w < |g| && w < |nSets| && s + NightLen <= days
  {
    && nSets[w] < BlockCap
    && (forall d :: s <= d < s + BlockLen(days, s) ==> g[w][d] == Empty)
    && usage[s] < NightCap
    && (s + 1 >= days || usage[s + 1] < NightCap)
    && (s + 2 >= days || usage[s + 2] < NightCap)
  }

  /** `min(candidates, key=lambda w: n_set_counts[w])`: the first candidate
      with the fewest blocks. */
  method FewestBlocks(candidates: seq<nat>, nSets: seq<nat>) returns (k: nat)
    requires |candidates| > 0
    requires forall i :: 0 <= i < |candidates| ==> candidates[i] < |nSets|
    ensures k < |candidates|
    ensures forall i :: 0 <= i < |candidates| ==> nSets[candidates[k]] <= nSets[candidates[i]]
    ensures forall i :: 0 <= i < k ==> nSets[candidates[k]] < nSets[candidates[i]]
  {
    k := 0;
    for i := 1 to |candidates|
      invariant k < i
      invariant forall j :: 0 <= j < i ==> nSets[candidates[k]] <= nSets[candidates[j]]
      invariant forall j :: 0 <= j < k ==> nSets[candidates[k]] < nSets[candidates[j]]
    {
      if nSets[candidates[i]] < nSets[candidates[k]] {
        k := i;
      }
    }
  }

  /** `available_workers` at start day s, in the shuffled order. */
  method AvailableWorkers(g: Grid, days: nat, usage: seq<nat>, nSets: seq<nat>, nWorkers: seq<nat>, s: nat)
    returns (available: seq<nat>, ghost pos: seq<nat>)
    requires Shaped(g, |g|, days) && |usage| == days && |nSets| == |g| && s + NightLen <= days
    requires forall i :: 0 <= i < |nWorkers| ==> nWorkers[i] < |g|
    ensures forall i :: 0 <= i < |available| ==> available[i] in nWorkers && Eligible(g, days, usage, nSets, available[i], s)
    ensures forall w :: w in nWorkers && Eligible(g, days, usage, nSets, w, s) ==> w in available
    ensures |pos| == |available|
    ensures forall j :: 0 <= j < |pos| ==> pos[j] < |nWorkers| && nWorkers[pos[j]] == available[j]
    ensures forall j, k :: 0 <= j < k < |pos| ==> pos[j] < pos[k]
    ensures forall i :: 0 <= i < |nWorkers| && Eligible(g, days, usage, nSets, nWorkers[i], s) ==> i in pos
  {
    available, pos := [], [];
    for i := 0 to |nWorkers|
      invariant |pos| == |available|
      invariant forall j :: 0 <= j < |pos| ==> pos[j] < i && nWorkers[pos[j]] == available[j]
      invariant forall j :: 0 <= j < |available| ==> Eligible(g, days, usage, nSets, available[j], s)
      invariant forall j, k :: 0 <= j < k < |pos| ==> pos[j] < pos[k]
      invariant forall l :: 0 <= l < i && Eligible(g, days, usage, nSets, nWorkers[l], s) ==> l in pos
    {
      if Eligible(g, days, usage, nSets, nWorkers[i], s) {
        available := available + [nWorkers[i]];
        pos := pos + [i];
        assert pos[|pos| - 1] == i;
      }
    }
    forall w | w in nWorkers && Eligible(g, days, usage, nSets, w, s) ensures w in available {
      var l :| 0 <= l < |nWorkers| && nWorkers[l] == w;
      var p :| 0 <= p < |pos| && pos[p] == l;
      assert available[p] == w;
    }
  }

  /** The first writing loop of a block: N on the three days from s. */
  method PlaceNights(g: Grid, days: nat, usage: seq<nat>, tally: seq<Tally>, who: nat, s: nat)
    returns (g': Grid, usage': seq<nat>, tally': seq<Tally>)
    requires InSync(g, days, usage, tally) && who < |g| && s + NightLen <= days
    requires forall d :: s <= d < s + NightLen ==> g[who][d] == Empty
    ensures InSync(g', days, usage', tally') && |g'| == |g|
    ensures forall v :: 0 <= v < |g| && v != who ==> g'[v] == g[v]
    ensures forall j :: 0 <= j < days ==> g'[who][j] == if s <= j < s + NightLen then N else g[who][j]
    ensures forall j :: 0 <= j < days ==> usage'[j] == usage[j] + (if s <= j < s + NightLen then 1 else 0)
    ensures tally'[who].n == tally[who].n + NightLen
  {
    g', usage', tally' := g, usage, tally;
    for d := s to s + NightLen
      invariant InSync(g', days, usage', tally') && |g'| == |g|
      invariant forall v :: 0 <= v < |g| && v != who ==> g'[v] == g[v]
      invariant forall j :: 0 <= j < days ==> g'[who][j] == if s <= j < d then N else g[who][j]
      invariant forall j :: 0 <= j < days ==> usage'[j] == usage[j] + (if s <= j < d then 1 else 0)
      invariant tally'[who].n == tally[who].n + (d - s)
    {
      FillKeepsSync(g', days, usage', tally', who, d, N);
      g' := Put(g', who, d, N);
      usage' := usage'[d := usage'[d] + 1];
      tally' := tally'[who := Bump(tally'[who], N)];
    }
  }

  /** The second writing loop of a block: O on the len days from start. */
  method PlaceOffs(g: Grid, days: nat, usage: seq<nat>, tally: seq<Tally>, who: nat, start: nat, len: nat)
    returns (g': Grid, tally': seq<Tally>)
    requires InSync(g, days, usage, tally) && who < |g| && start + len <= days
    requires forall d :: start <= d < start + len ==> g[who][d] == Empty
    ensures InSync(g', days, usage, tally') && |g'| == |g|
    ensures forall v :: 0 <= v < |g| && v != who ==> g'[v] == g[v]
    ensures forall j :: 0 <= j < days ==> g'[who][j] == if start <= j < start + len then O else g[who][j]
    ensures tally'[who].n == tally[who].n
  {
    g', tally' := g, tally;
    for d := start to start + len
      invariant InSync(g', days, usage, tally') && |g'| == |g|
      invariant forall v :: 0 <= v < |g| && v != who ==> g'[v] == g[v]
      invariant forall j :: 0 <= j < days ==> g'[who][j] == if start <= j < d then O else g[who][j]
      invariant tally'[who].n == tally[who].n
    {
      FillKeepsSync(g', days, usage, tally', who, d, O);
      assert usage[d := usage[d] + 0] == usage;
      g' := Put(g', who, d, O);
    }
  }

  /** Both writing loops of one block: N on three days, then the offs. */
  method PlaceBlock(g: Grid, days: nat, usage: seq<nat>, tally: seq<Tally>, who: nat, s: nat)
    returns (g': Grid, usage': seq<nat>, tally': seq<Tally>)
    requires InSync(g, days, usage, tally) && who < |g| && s + NightLen <= days
    requires forall d :: s <= d < s + BlockLen(days, s) ==> g[who][d] == Empty
    ensures InSync(g', days, usage', tally')
    ensures g' == g[who := WithBlock(g[who], s, BlockLen(days, s))]
    ensures forall d :: 0 <= d < days ==> usage'[d] == usage[d] + (if s <= d < s + NightLen then 1 else 0)
    ensures tally'[who].n == tally[who].n + NightLen
  {
    var g1, usage1, tally1 := PlaceNights(g, days, usage, tally, who, s);
    g', tally' := PlaceOffs(g1, days, usage1, tally1, who, s + NightLen, OffLen(days, s));
    usage' := usage1;
    assert g'[who] == WithBlock(g[who], s, BlockLen(days, s));
    assert g' == g[who := WithBlock(g[who], s, BlockLen(days, s))];
  }

  /** One turn of the loop over `start_day`. */
  method TryBlock(g: Grid, days: nat, usage: seq<nat>, tally: seq<Tally>, nSets: seq<nat>, nWorkers: seq<nat>, s: nat)
    returns (g': Grid, usage': seq<nat>, tally': seq<Tally>, nSets': seq<nat>, placed: bool, who: nat)
    requires InSync(g, days, usage, tally) && |nSets| == |g| && s < days
    requires forall i :: 0 <= i < |nWorkers| ==> nWorkers[i] < |g|
    ensures InSync(g', days, usage', tally') && |nSets'| == |g|
    ensures !placed ==> g' == g && usage' == usage && nSets' == nSets
    ensures !placed && s + NightLen <= days ==>
      forall w :: w in nWorkers ==> !Eligible(g, days, usage, nSets, w, s)
    ensures placed ==> s + NightLen <= days && who in nWorkers && Eligible(g, days, usage, nSets, who, s)
    ensures placed ==> forall w :: w in nWorkers && Eligible(g, days, usage, nSets, w, s) ==> nSets[who] <= nSets[w]
    ensures placed ==> exists j :: (0 <= j < |nWorkers| && nWorkers[j] == who &&
      forall i :: 0 <= i < j && Eligible(g, days, usage, nSets, nWorkers[i], s) ==> nSets[who] < nSets[nWorkers[i]])
    ensures placed ==> g' == g[who := WithBlock(g[who], s, BlockLen(days, s))]
    ensures placed ==> nSets' == nSets[who := nSets[who] + 1]
    ensures placed ==> forall d :: 0 <= d < days ==> usage'[d] == usage[d] + (if s <= d < s + NightLen then 1 else 0)
    ensures placed ==> tally'[who].n == tally[who].n + NightLen
  {
    g', usage', tally', nSets', placed, who := g, usage, tally, nSets, false, 0;
    if usage[s] >= NightCap * 2 || days - s < NightLen {
      if s + NightLen <= days {
        assert forall w :: w in nWorkers ==> !Eligible(g, days, usage, nSets, w, s);
      }
      return;
    }
    var available, pos := AvailableWorkers(g, days, usage, nSets, nWorkers, s);
    if available == [] {
      return;
    }
    var k := FewestBlocks(available, nSets);
    who := available[k];
    forall i | 0 <= i < pos[k] && Eligible(g, days, usage, nSets, nWorkers[i], s)
      ensures nSets[who] < nSets[nWorkers[i]]
    {
      var p :| 0 <= p < |pos| && pos[p] == i;
      assert p < k;
    }
    g', usage', tally' := PlaceBlock(g, days, usage, tally, who, s);
    nSets' := nSets[who := nSets[who] + 1];
    placed := true;
  }

  /** Every cell the phase decided holds N or O. */
  predicate OnlyNightsAndOffs(g0: Grid, g: Grid, days: nat)
    requires Shaped(g0, |g0|, days) && Shaped(g, |g0|, days)
  {
    forall w, d :: 0 <= w < |g0| && 0 <= d < days && g0[w][d] == Empty && g[w][d] != Empty ==>
      g[w][d] == N || g[w][d] == O
  }

  /** Every N the phase wrote is followed by N or O (or by the month's end). */
  predicate NightsFollowed(g0: Grid, g: Grid, days: nat)
    requires Shaped(g0, |g0|, days) && Shaped(g, |g0|, days)
  {
    forall w, d :: 0 <= w < |g0| && 0 <= d && d + 1 < days && g0[w][d] == Empty && g[w][d] == N ==>
      g[w][d + 1] == N || g[w][d + 1] == O
  }

  /** The phase never lifts a day's night count above the cap. */
  predicate UsageRaisedToCap(usage0: seq<nat>, usage: seq<nat>)
    requires |usage| == |usage0|
  {
    forall d :: 0 <= d < |usage0| ==> usage[d] == usage0[d] || (usage0[d] == 0 && usage[d] == NightCap)
  }

  /** Each block adds three nights to its worker. */
  predicate BlocksCounted(tally0: seq<Tally>, tally: seq<Tally>, nSets: seq<nat>)
    requires |tally| == |tally0| == |nSets|
  {
    forall w :: 0 <= w < |tally0| ==> tally[w].n == tally0[w].n + NightLen * nSets[w]
  }

  /** What the loop over start days keeps of the grid: decided cells kept,
      rows outside the list untouched and without blocks, and every new cell
      an N followed by N or O, or an O. */
  predicate CellsInv(g0: Grid, days: nat, nWorkers: seq<nat>, g: Grid, nSets: seq<nat>)
    requires Shaped(g0, |g0|, days)
  {
    && Shaped(g, |g0|, days) && Extends(g0, g) && |nSets| == |g0|
    && (forall w :: 0 <= w < |g0| && w !in nWorkers ==> g[w] == g0[w] && nSets[w] == 0)
    && OnlyNightsAndOffs(g0, g, days) && NightsFollowed(g0, g, days)
  }

  /** What the loop over start days keeps of the counters: in sync, at most
      two blocks per worker, the night cap respected, three nights per block. */
  predicate CountsInv(g0: Grid, days: nat, usage0: seq<nat>, tally0: seq<Tally>,
                      g: Grid, usage: seq<nat>, tally: seq<Tally>, nSets: seq<nat>)
    requires InSync(g0, days, usage0, tally0)
  {
    && InSync(g, days, usage, tally) && |g| == |g0|
    && |nSets| == |g0| && (forall w :: 0 <= w < |g0| ==> nSets[w] <= BlockCap)
    && UsageRaisedToCap(usage0, usage)
    && BlocksCounted(tally0, tally, nSets)
  }

  /** The invariant of the loop over start days. */
  predicate PhaseInv(g0: Grid, days: nat, usage0: seq<nat>, tally0: seq<Tally>, nWorkers: seq<nat>,
                     g: Grid, usage: seq<nat>, tally: seq<Tally>, nSets: seq<nat>)
    requires InSync(g0, days, usage0, tally0)
  {
    CellsInv(g0, days, nWorkers, g, nSets) && CountsInv(g0, days, usage0, tally0, g, usage, tally, nSets)
  }

  lemma PlacingKeepsCellFacts(g0: Grid, g: Grid, days: nat, usage: seq<nat>, nSets: seq<nat>, who: nat, s: nat)
    requires Shaped(g0, |g0|, days) && Shaped(g, |g0|, days) && Extends(g0, g) && |usage| == days && |nSets| == |g0|
    requires who < |g0| && s + NightLen <= days && Eligible(g, days, usage, nSets, who, s)
    requires OnlyNightsAndOffs(g0, g, days) && NightsFollowed(g0, g, days)
    ensures var h := g[who := WithBlock(g[who], s, BlockLen(days, s))];
      Shaped(h, |g0|, days) && Extends(g0, h) && Extends(g, h) && OnlyNightsAndOffs(g0, h, days) && NightsFollowed(g0, h, days)
  {
    var h := g[who := WithBlock(g[who], s, BlockLen(days, s))];
    assert forall d :: 0 <= d < days && g[who][d] != Empty ==> h[who][d] == g[who][d];
    forall w, d | 0 <= w < |g0| && 0 <= d && d + 1 < days && g0[w][d] == Empty && h[w][d] == N
      ensures h[w][d + 1] == N || h[w][d + 1] == O
    {
      if w == who && s <= d < s + NightLen {
        assert d + 1 < s + BlockLen(days, s);
      }
    }
  }

  /** Placing a block on an eligible worker of the list keeps the grid part
      of the invariant. */
  lemma PlacingKeepsCells(g0: Grid, days: nat, nWorkers: seq<nat>, g: Grid, usage: seq<nat>, nSets: seq<nat>,
                          who: nat, s: nat)
    requires Shaped(g0, |g0|, days) && CellsInv(g0, days, nWorkers, g, nSets) && |usage| == days
    requires s + NightLen <= days && who in nWorkers && who < |g0| && Eligible(g, days, usage, nSets, who, s)
    ensures CellsInv(g0, days, nWorkers, g[who := WithBlock(g[who], s, BlockLen(days, s))], nSets[who := nSets[who] + 1])
  {
    PlacingKeepsCellFacts(g0, g, days, usage, nSets, who, s);
  }

  /** A placed block keeps three nights per block on every worker. */
  lemma PlacingKeepsTallies(g: Grid, g': Grid, days: nat, usage: seq<nat>, usage': seq<nat>,
                            tally0: seq<Tally>, tally: seq<Tally>, tally': seq<Tally>,
                            nSets: seq<nat>, who: nat)
    requires InSync(g, days, usage, tally) && InSync(g', days, usage', tally') && |g'| == |g|
    requires |tally0| == |g| == |nSets| && who < |g|
    requires forall w :: 0 <= w < |g| && w != who ==> g'[w] == g[w]
    requires tally'[who].n == tally[who].n + NightLen
    requires BlocksCounted(tally0, tally, nSets)
    ensures BlocksCounted(tally0, tally', nSets[who := nSets[who] + 1])
  {
  }

  /** A placed block lifts its three days from no night to one. */
  lemma PlacingKeepsUsage(usage0: seq<nat>, usage: seq<nat>, usage': seq<nat>, days: nat, s: nat)
    requires |usage0| == |usage| == |usage'| == days && s + NightLen <= days
    requires UsageRaisedToCap(usage0, usage)
    requires usage[s] < NightCap && usage[s + 1] < NightCap && usage[s + 2] < NightCap
    requires forall d :: 0 <= d < days ==> usage'[d] == usage[d] + (if s <= d < s + NightLen then 1 else 0)
    ensures UsageRaisedToCap(usage0, usage')
  {
  }

  /** Placing a block keeps the counter part of the invariant. */
  lemma PlacingKeepsCounts(g0: Grid, days: nat, usage0: seq<nat>, tally0: seq<Tally>,
                           g: Grid, usage: seq<nat>, tally: seq<Tally>, nSets: seq<nat>,
                           g': Grid, usage': seq<nat>, tally': seq<Tally>, who: nat, s: nat)
    requires InSync(g0, days, usage0, tally0)
    requires CountsInv(g0, days, usage0, tally0, g, usage, tally, nSets)
    requires s + NightLen <= days && who < |g0| && Eligible(g, days, usage, nSets, who, s)
    requires InSync(g', days, usage', tally')
    requires g' == g[who := WithBlock(g[who], s, BlockLen(days, s))]
    requires forall d :: 0 <= d < days ==> usage'[d] == usage[d] + (if s <= d < s + NightLen then 1 else 0)
    requires tally'[who].n == tally[who].n + NightLen
    ensures CountsInv(g0, days, usage0, tally0, g', usage', tally', nSets[who := nSets[who] + 1])
  {
    PlacingKeepsTallies(g, g', days, usage, usage', tally0, tally, tally', nSets, who);
    PlacingKeepsUsage(usage0, usage, usage', days, s);
  }

  /** One turn of the loop over start days keeps the loop's invariant. */
  method BlockTurn(ghost g0: Grid, days: nat, ghost usage0: seq<nat>, ghost tally0: seq<Tally>, nWorkers: seq<nat>,
                   g: Grid, usage: seq<nat>, tally: seq<Tally>, nSets: seq<nat>, s: nat)
    returns (g': Grid, usage': seq<nat>, tally': seq<Tally>, nSets': seq<nat>)
    requires InSync(g0, days, usage0, tally0) && s < days
    requires forall i :: 0 <= i < |nWorkers| ==> nWorkers[i] < |g0|
    requires PhaseInv(g0, days, usage0, tally0, nWorkers, g, usage, tally, nSets)
    ensures PhaseInv(g0, days, usage0, tally0, nWorkers, g', usage', tally', nSets')
  {
    var placed, who;
    g', usage', tally', nSets', placed, who := TryBlock(g, days, usage, tally, nSets, nWorkers, s);
    if placed {
      PlacingKeepsCells(g0, days, nWorkers, g, usage, nSets, who, s);
      PlacingKeepsCounts(g0, days, usage0, tally0, g, usage, tally, nSets, g', usage', tally', who, s);
    }
  }

  /** What the invariant says about the grid once the loop is over. */
  lemma PhaseInvFacts(g0: Grid, days: nat, usage0: seq<nat>, tally0: seq<Tally>, nWorkers: seq<nat>,
                      g: Grid, usage: seq<nat>, tally: seq<Tally>, nSets: seq<nat>)
    requires InSync(g0, days, usage0, tally0)
    requires PhaseInv(g0, days, usage0, tally0, nWorkers, g, usage, tally, nSets)
    ensures forall w :: 0 <= w < |g0| ==> Count(g[w], N) == Count(g0[w], N) + NightLen * nSets[w]
    ensures FillsWith(g0, g, {N, O})
    ensures forall d :: 0 <= d < days ==> DayCount(g, d, N) <= Max(DayCount(g0, d, N), NightCap)
  {
    BlocksGiveNights(g0, days, usage0, tally0, g, usage, tally, nSets);
    NightsWithinCap(g0, days, usage0, tally0, g, usage, tally);
  }

  lemma BlocksGiveNights(g0: Grid, days: nat, usage0: seq<nat>, tally0: seq<Tally>,
                         g: Grid, usage: seq<nat>, tally: seq<Tally>, nSets: seq<nat>)
    requires InSync(g0, days, usage0, tally0) && InSync(g, days, usage, tally) && |g| == |g0| == |nSets|
    requires BlocksCounted(tally0, tally, nSets)
    ensures forall w :: 0 <= w < |g0| ==> Count(g[w], N) == Count(g0[w], N) + NightLen * nSets[w]
  {
    forall w | 0 <= w < |g0|
      ensures Count(g[w], N) == Count(g0[w], N) + NightLen * nSets[w]
    {
      assert tally[w] == RowTally(g[w]) && tally0[w] == RowTally(g0[w]);
    }
  }

  lemma NightsWithinCap(g0: Grid, days: nat, usage0: seq<nat>, tally0: seq<Tally>,
                        g: Grid, usage: seq<nat>, tally: seq<Tally>)
    requires InSync(g0, days, usage0, tally0) && InSync(g, days, usage, tally)
    requires UsageRaisedToCap(usage0, usage)
    ensures forall d :: 0 <= d < days ==> DayCount(g, d, N) <= Max(DayCount(g0, d, N), NightCap)
  {
    forall d | 0 <= d < days
      ensures DayCount(g, d, N) <= Max(DayCount(g0, d, N), NightCap)
    {
      assert usage[d] == DayCount(g, d, N) && usage0[d] == DayCount(g0, d, N);
    }
  }

  /** Step 4-B: the loop over every start day. */
  method NightBlockPhase(g: Grid, days: nat, usage: seq<nat>, tally: seq<Tally>, nWorkers: seq<nat>)
    returns (g': Grid, usage': seq<nat>, tally': seq<Tally>, nSets: seq<nat>)
    requires InSync(g, days, usage, tally)
    requires forall i :: 0 <= i < |nWorkers| ==> nWorkers[i] < |g|
    ensures PhaseInv(g, days, usage, tally, nWorkers, g', usage', tally', nSets)
    ensures forall w :: 0 <= w < |g| ==> Count(g'[w], N) == Count(g[w], N) + NightLen * nSets[w]
    ensures FillsWith(g, g', {N, O})
    ensures forall d :: 0 <= d < days ==> DayCount(g', d, N) <= Max(DayCount(g, d, N), NightCap)
  {
    g', usage', tally' := g, usage, tally;
    nSets := seq(|g|, _ => 0);
    for s := 0 to days
      invariant PhaseInv(g, days, usage, tally, nWorkers, g', usage', tally', nSets)
    {
      g', usage', tally', nSets := BlockTurn(g, days, usage, tally, nWorkers, g', usage', tally', nSets, s);
    }
    PhaseInvFacts(g, days, usage, tally, nWorkers, g', usage', tally', nSets);
  }

  /** `any(schedule_data[name][last_day_index] == 'N' for name in workers_for_n)` */
  predicate NightOnDay(g: Grid, nWorkers: seq<nat>, d: nat)
    requires forall i :: 0 <= i < |nWorkers| ==> nWorkers[i] < |g| && d < |g[nWorkers[i]]|
  {
    exists i :: 0 <= i < |nWorkers| && g[nWorkers[i]][d] == N
  }

  /** The scan for an N on day d among the listed workers. */
  method FindNightOn(g: Grid, nWorkers: seq<nat>, d: nat) returns (found: bool)
    requires forall i :: 0 <= i < |nWorkers| ==> nWorkers[i] < |g| && d < |g[nWorkers[i]]|
    ensures found == NightOnDay(g, nWorkers, d)
  {
    found := false;
    for i := 0 to |nWorkers|
      invariant found <==> exists j :: 0 <= j < i && g[nWorkers[j]][d] == N
    {
      if g[nWorkers[i]][d] == N {
        found := true;
      }
    }
  }

  /** `eligible_for_last_n`: the listed workers whose cell on day d is empty,
      in list order. */
  method EmptyOn(g: Grid, nWorkers: seq<nat>, d: nat) returns (eligible: seq<nat>)
    requires forall i :: 0 <= i < |nWorkers| ==> nWorkers[i] < |g| && d < |g[nWorkers[i]]|
    ensures forall j :: 0 <= j < |eligible| ==> eligible[j] in nWorkers && g[eligible[j]][d] == Empty
    ensures forall i :: 0 <= i < |nWorkers| && g[nWorkers[i]][d] == Empty ==> nWorkers[i] in eligible
  {
    eligible := [];
    for i := 0 to |nWorkers|
      invariant forall j :: 0 <= j < |eligible| ==> eligible[j] in nWorkers && g[eligible[j]][d] == Empty
      invariant forall j :: 0 <= j < i && g[nWorkers[j]][d] == Empty ==> nWorkers[j] in eligible
    {
      if g[nWorkers[i]][d] == Empty {
        eligible := eligible + [nWorkers[i]];
      }
    }
  }

  /** One N written on an empty cell of a day below the night cap keeps
      every day at or below the cap. */
  lemma NightBelowCap(g: Grid, days: nat, w: nat, e: nat)
    requires Shaped(g, |g|, days) && w < |g| && e < days && g[w][e] == Empty
    requires DayCount(g, e, N) < NightCap
    ensures FillsWith(g, Put(g, w, e, N), {N})
    ensures forall d :: 0 <= d < days ==> DayCount(Put(g, w, e, N), d, N) <= Max(DayCount(g, d, N), NightCap)
  {
    forall d | 0 <= d < days
      ensures DayCount(Put(g, w, e, N), d, N) <= Max(DayCount(g, d, N), NightCap)
    {
      DayCountPut(g, w, e, N, d, N);
    }
  }

  /** `schedule_data[chosen][last_day_index] = 'N'` with its counters. */
  method PlaceNight(g: Grid, days: nat, usage: seq<nat>, tally: seq<Tally>, w: nat, e: nat)
    returns (g': Grid, usage': seq<nat>, tally': seq<Tally>)
    requires InSync(g, days, usage, tally) && w < |g| && e < days && g[w][e] == Empty && usage[e] < NightCap
    ensures InSync(g', days, usage', tally')
    ensures g' == Put(g, w, e, N) && usage' == usage[e := usage[e] + 1]
    ensures FillsWith(g, g', {N})
    ensures forall d :: 0 <= d < days ==> DayCount(g', d, N) <= Max(DayCount(g, d, N), NightCap)
  {
    FillKeepsSync(g, days, usage, tally, w, e, N);
    NightBelowCap(g, days, w, e);
    g' := Put(g, w, e, N);
    usage' := usage[e := usage[e] + 1];
    tally' := tally[w := Bump(tally[w], N)];
  }

  /** The choice of step 4-C on day d: whether a night is placed, and on
      whom. */
  method ChooseLastNight(g: Grid, usage: seq<nat>, nSets: seq<nat>, nWorkers: seq<nat>, d: nat)
    returns (placed: bool, who: nat)
    requires d < |usage| && |nSets| == |g|
    requires forall i :: 0 <= i < |nWorkers| ==> nWorkers[i] < |g| && d < |g[nWorkers[i]]|
    ensures placed <==> (!NightOnDay(g, nWorkers, d) && usage[d] < NightCap &&
                         exists i :: 0 <= i < |nWorkers| && g[nWorkers[i]][d] == Empty)
    ensures placed ==> who in nWorkers && g[who][d] == Empty
    ensures placed ==> forall i :: 0 <= i < |nWorkers| && g[nWorkers[i]][d] == Empty ==> nSets[who] <= nSets[nWorkers[i]]
  {
    placed, who := false, 0;
    var nOnLast := FindNightOn(g, nWorkers, d);
    if !nOnLast && usage[d] < NightCap {
      var eligible := EmptyOn(g, nWorkers, d);
      if eligible != [] {
        var k := FewestBlocks(eligible, nSets);
        who := eligible[k];
        placed := true;
      } else {
        assert forall i :: 0 <= i < |nWorkers| ==> g[nWorkers[i]][d] != Empty;
      }
    }
  }

  /** Step 4-C: if no non-head-nurse worker is on N on the last day and the
      day is below its night cap, the empty worker with the fewest blocks
      (first in the shuffled order) takes N there. */
  method LastDayPhase(g: Grid, days: nat, usage: seq<nat>, tally: seq<Tally>, nSets: seq<nat>, nWorkers: seq<nat>)
    returns (g': Grid, usage': seq<nat>, tally': seq<Tally>, placed: bool, who: nat)
    requires InSync(g, days, usage, tally) && days > 0 && |nSets| == |g|
    requires forall i :: 0 <= i < |nWorkers| ==> nWorkers[i] < |g|
    ensures InSync(g', days, usage', tally')
    ensures placed <==> (!NightOnDay(g, nWorkers, days - 1) && usage[days - 1] < NightCap &&
                         exists i :: 0 <= i < |nWorkers| && g[nWorkers[i]][days - 1] == Empty)
    ensures !placed ==> g' == g && usage' == usage
    ensures placed ==> who in nWorkers && g[who][days - 1] == Empty && g' == Put(g, who, days - 1, N)
    ensures placed ==> usage' == usage[days - 1 := usage[days - 1] + 1]
    ensures placed ==> forall i :: 0 <= i < |nWorkers| && g[nWorkers[i]][days - 1] == Empty ==> nSets[who] <= nSets[nWorkers[i]]
    ensures FillsWith(g, g', {N})
    ensures forall d :: 0 <= d < days ==> DayCount(g', d, N) <= Max(DayCount(g, d, N), NightCap)
  {
    g', usage', tally' := g, usage, tally;
    placed, who := ChooseLastNight(g, usage, nSets, nWorkers, days - 1);
    if placed {
      g', usage', tally' := PlaceNight(g, days, usage, tally, who, days - 1);
    }
  }
}
