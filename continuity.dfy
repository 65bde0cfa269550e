/** Step 4-A of the patched engine: a night block (N-N-N-O-O) still running
    at the end of last month is continued into the first days of this month. */
module Continuity {
  import opened Duties
  import opened Grids
  import opened Counters
  import opened Lookback

  /** `N_PATTERN` */
  const Pattern: seq<Duty> := [N, N, N, O, O]

  /** `n_count`: the number of N's at the end of a tail. */
  function TrailingNights(tail: seq<Duty>): (k: nat)
    ensures k <= |tail|
    ensures forall i :: |tail| - k <= i < |tail| ==> tail[i] == N
    ensures k < |tail| ==> tail[|tail| - 1 - k] != N
  {
    if |tail| == 0 || tail[|tail| - 1] != N then 0
    else TrailingNights(tail[..|tail| - 1]) + 1
  }

  /** The loop over `reversed(last_5)` that counts trailing N's. */
  method CountTrailingNights(tail: seq<Duty>) returns (k: nat)
    ensures k == TrailingNights(tail)
  {
    k := 0;
    var i := |tail|;
    while i > 0
      invariant 0 <= i <= |tail|
      invariant k == |tail| - i
      invariant TrailingNights(tail) == k + TrailingNights(tail[..i])
    {
      if tail[i - 1] == N {
        assert tail[..i][..i - 1] == tail[..i - 1];
        k := k + 1;
        i := i - 1;
      } else {
        break;
      }
    }
  }

  /** `duties_to_continue` for a worker's tail. */
  function Forced(tail: seq<Duty>): seq<Duty> {
    var k := TrailingNights(tail);
    if 1 <= k <= 3 then Pattern[k..]
    else if |tail| >= 4 && tail[|tail| - 1] == O && tail[|tail| - 2] == N
         && tail[|tail| - 3] == N && tail[|tail| - 4] == N then [O]
    else []
  }

  /** The forced start of the month, by the shape of the tail's end. */
  lemma ForcedByTail(t: seq<Duty>)
    ensures |t| >= 1 && t[|t| - 1] == N && (|t| == 1 || t[|t| - 2] != N) ==>
      Forced(t) == [N, N, O, O]
    ensures |t| >= 2 && t[|t| - 1] == N && t[|t| - 2] == N && (|t| == 2 || t[|t| - 3] != N) ==>
      Forced(t) == [N, O, O]
    ensures |t| >= 3 && t[|t| - 1] == N && t[|t| - 2] == N && t[|t| - 3] == N && (|t| == 3 || t[|t| - 4] != N) ==>
      Forced(t) == [O, O]
    ensures |t| >= 4 && t[|t| - 1] == O && t[|t| - 2] == N && t[|t| - 3] == N && t[|t| - 4] == N ==>
      Forced(t) == [O]
    ensures |t| >= 4 && t[|t| - 1] == N && t[|t| - 2] == N && t[|t| - 3] == N && t[|t| - 4] == N ==>
      Forced(t) == []
    ensures |t| == 0 || (t[|t| - 1] != N && !(|t| >= 4 && t[|t| - 1] == O && t[|t| - 2] == N && t[|t| - 3] == N && t[|t| - 4] == N)) ==>
      Forced(t) == []
  {
    var k := TrailingNights(t);
    if |t| >= 4 && t[|t| - 1] == N && t[|t| - 2] == N && t[|t| - 3] == N && t[|t| - 4] == N {
      assert k >= 4;
    }
  }

  /** A forced N only ever falls on the first two days of the month, and it
      is always followed by another forced cell. */
  lemma ForcedNightsEarly(t: seq<Duty>)
    ensures |Forced(t)| <= 4
    ensures forall j :: 0 <= j < |Forced(t)| && Forced(t)[j] == N ==> j < 2 && j + 1 < |Forced(t)|
    ensures forall j :: 0 <= j < |Forced(t)| ==> Forced(t)[j] == N || Forced(t)[j] == O
  {
  }

  /** The first day at or after i where the row holds a decided value that
      differs from the forced one (or the end of the forced sequence or of
      the month): where the continuation breaks off. */
  function Stop(row: Row, f: seq<Duty>, i: nat): (s: nat)
    ensures i <= s
    ensures s > i ==> s <= |f| && s <= |row|
    ensures forall j :: i <= j < s ==> row[j] == Empty || row[j] == f[j]
    ensures s < |f| && s < |row| ==> row[s] != Empty && row[s] != f[s]
    decreases |f| - i
  {
    if i >= |f| || i >= |row| then i
    else if row[i] != Empty && row[i] != f[i] then i
    else Stop(row, f, i + 1)
  }

  /** Stop only looks at days from i on. */
  lemma {:induction false} StopFrame(row: Row, f: seq<Duty>, i: nat, k: nat, x: Duty)
    requires k < i && k < |row|
    ensures Stop(row[k := x], f, i) == Stop(row, f, i)
    decreases |f| - i
  {
    if i < |f| && i < |row| && !(row[i] != Empty && row[i] != f[i]) {
      StopFrame(row, f, i + 1, k, x);
    }
  }

  /** The forced-assignment loop of one worker, from day i on: a matching
      decided cell is skipped, a conflicting one ends the continuation, and
      an empty cell takes the forced duty. */
  function ContinueRow(row: Row, f: seq<Duty>, i: nat): (r: Row)
    ensures |r| == |row|
    ensures forall j :: 0 <= j < |row| ==>
      r[j] == if i <= j < Stop(row, f, i) && row[j] == Empty then f[j] else row[j]
    decreases |f| - i
  {
    if i >= |f| || i >= |row| then row
    else if row[i] != Empty then
      (if row[i] == f[i] then ContinueRow(row, f, i + 1) else row)
    else
      StopFrame(row, f, i + 1, i, f[i]);
      ContinueRow(row[i := f[i]], f, i + 1)
  }

  /** A continued row keeps every decided cell. */
  lemma ContinueRowExtends(row: Row, f: seq<Duty>)
    ensures |ContinueRow(row, f, 0)| == |row|
    ensures forall j :: 0 <= j < |row| && row[j] != Empty ==> ContinueRow(row, f, 0)[j] == row[j]
  {
  }

  /** Without decided cells in the way the whole forced sequence is written,
      cut off at the end of the month. */
  lemma {:induction false} ContinueRowUnobstructed(row: Row, f: seq<Duty>, i: nat)
    requires forall j :: i <= j < |row| && j < |f| ==> row[j] == Empty
    ensures Stop(row, f, i) == Max(i, if |f| < |row| then |f| else |row|)
    decreases |f| - i
  {
    if i < |f| && i < |row| {
      ContinueRowUnobstructed(row, f, i + 1);
    }
  }

  /** `duties_to_continue` as the source computes it. */
  method ForcedDuties(last5: seq<Duty>) returns (toContinue: seq<Duty>)
    ensures toContinue == Forced(last5)
  {
    var nCount := CountTrailingNights(last5);
    toContinue := [];
    if 1 <= nCount <= 3 {
      toContinue := Pattern[nCount..];
    } else if |last5| >= 4 && last5[|last5| - 1] == O && last5[|last5| - 2] == N
              && last5[|last5| - 3] == N && last5[|last5| - 4] == N {
      toContinue := [O];
    }
  }

  /** The forced assignment of one worker: only that worker's row changes,
      it becomes the continued row, and the counters follow every N written. */
  method ContinueWorker(g: Grid, days: nat, usage: seq<nat>, tally: seq<Tally>, w: nat, toContinue: seq<Duty>)
    returns (g': Grid, usage': seq<nat>, tally': seq<Tally>)
    requires InSync(g, days, usage, tally) && w < |g|
    requires forall j :: 0 <= j < |toContinue| ==> toContinue[j] == N || toContinue[j] == O
    ensures InSync(g', days, usage', tally') && |g'| == |g|
    ensures forall v :: 0 <= v < |g| && v != w ==> g'[v] == g[v]
    ensures g'[w] == ContinueRow(g[w], toContinue, 0)
  {
    g', usage', tally' := g, usage, tally;
    var d := 0;
    while d < |toContinue|
      invariant InSync(g', days, usage', tally') && |g'| == |g|
      invariant forall v :: 0 <= v < |g| && v != w ==> g'[v] == g[v]
      invariant ContinueRow(g'[w], toContinue, d) == ContinueRow(g[w], toContinue, 0)
    {
      if d >= days { break; }
      var existing := g'[w][d];
      if existing != Empty {
        if existing == toContinue[d] {
          d := d + 1;
          continue;
        } else {
          break;
        }
      }
      var duty := toContinue[d];
      FillKeepsSync(g', days, usage', tally', w, d, duty);
      assert Put(g', w, d, duty)[w] == g'[w][d := duty];
      g' := Put(g', w, d, duty);
      if duty == N {
        usage' := usage'[d := usage'[d] + 1];
        tally' := tally'[w := Bump(tally'[w], N)];
      } else {
        assert usage'[d := usage'[d] + 0] == usage';
        assert tally'[w := Bump(tally'[w], duty)] == tally';
      }
      d := d + 1;
    }
  }

  /** Step 4-A over the shuffled non-head-nurse workers. */
  method ContinuityPhase(g: Grid, days: nat, usage: seq<nat>, tally: seq<Tally>, nWorkers: seq<nat>, tails: Tails)
    returns (g': Grid, usage': seq<nat>, tally': seq<Tally>)
    requires InSync(g, days, usage, tally)
    requires forall i :: 0 <= i < |nWorkers| ==> nWorkers[i] < |g|
    requires forall i, j :: 0 <= i < j < |nWorkers| ==> nWorkers[i] != nWorkers[j]
    ensures InSync(g', days, usage', tally')
    ensures |g'| == |g|
    ensures forall w :: 0 <= w < |g| ==>
      g'[w] == if w in nWorkers then ContinueRow(g[w], Forced(TailOf(tails, w)), 0) else g[w]
  {
    g', usage', tally' := g, usage, tally;
    for idx := 0 to |nWorkers|
      invariant InSync(g', days, usage', tally') && |g'| == |g|
      invariant forall w :: 0 <= w < |g| ==>
        g'[w] == if w in nWorkers[..idx] then ContinueRow(g[w], Forced(TailOf(tails, w)), 0) else g[w]
    {
      var w := nWorkers[idx];
      assert w !in nWorkers[..idx];
      assert nWorkers[..idx + 1] == nWorkers[..idx] + [w];
      var last5 := TailOf(tails, w);
      if last5 == [] {
        assert Forced(last5) == [];
        assert ContinueRow(g'[w], [], 0) == g'[w];
        continue;
      }
      var toContinue := ForcedDuties(last5);
      ForcedNightsEarly(last5);
      assert g'[w] == g[w];
      ghost var before := g';
      g', usage', tally' := ContinueWorker(g', days, usage', tally', w, toContinue);
      forall v | 0 <= v < |g|
        ensures g'[v] == if v in nWorkers[..idx + 1] then ContinueRow(g[v], Forced(TailOf(tails, v)), 0) else g[v]
      {
        if v != w {
          assert g'[v] == before[v];
          assert v in nWorkers[..idx + 1] <==> v in nWorkers[..idx];
        }
      }
    }
    assert nWorkers[..|nWorkers|] == nWorkers;
  }

  /** Continuity round trip: a worker whose month ends in exactly two nights
      starts the next month, through the saved tail, with one night and two
      offs. */
  lemma TwoNightsCarryOver(g: Grid, days: nat, stored: Tails, w: nat)
    requires Shaped(g, |g|, days) && days >= TailLength && w < |g|
    requires g[w][days - 1] == N && g[w][days - 2] == N && g[w][days - 3] != N
    ensures Forced(TailOf(SavedTails(g, days, stored), w)) == [N, O, O]
  {
    var t := TailOf(SavedTails(g, days, stored), w);
    assert t == g[w][days - TailLength..];
    ForcedByTail(t);
  }

  /** A tail that holds a complete, rested block forces nothing. */
  lemma RestedBlockForcesNothing(t: seq<Duty>)
    requires t == [N, N, N, O, O]
    ensures Forced(t) == []
  {
    ForcedByTail(t);
  }
}
