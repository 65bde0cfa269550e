/** The previous month's tail (the last five duties of every worker, kept in
    `prev_month_last_day_duties`) and the look-back `_get_previous_duty`
    that reads across the month boundary through it. */
module Lookback {
  import opened Duties
  import opened Grids

  /** worker -> the last duties of last month, oldest first */
  type Tails = map<nat, seq<Duty>>

  /** How many days of a month `save_prev_month_schedule` keeps. */
  const TailLength: nat := 5

  /** `prev_month_last_day_duties.get(name, [])` */
  function TailOf(tails: Tails, w: nat): seq<Duty> {
    if w in tails then tails[w] else []
  }

  /** `_get_previous_duty(name, day_index, day_offset, schedule_data)`:
      the duty `offset` days before `day` in the sequence made of last
      month's tail followed by this month's row, or Empty before its start. */
  function PreviousDuty(g: Grid, tails: Tails, w: nat, day: nat, offset: nat): (r: Duty)
    requires w < |g| && day < |g[w]|
    ensures var s := TailOf(tails, w) + g[w];
            var j := |TailOf(tails, w)| + day - offset;
            r == if 0 <= j then s[j] else Empty
  {
    if day >= offset then g[w][day - offset]
    else
      var prev := TailOf(tails, w);
      var i := |prev| - offset + day;
      if 0 <= i < |prev| then prev[i] else Empty
  }

  /** `df.iloc[:, -5:]` for one row: its last five cells, or all of them. */
  function LastCells(row: Row): (t: seq<Duty>)
    ensures |t| == if |row| < TailLength then |row| else TailLength
    ensures t == row[|row| - |t|..]
  {
    if |row| < TailLength then row else row[|row| - TailLength..]
  }

  /** `save_prev_month_schedule`: the tail the next month reads. An empty
      grid saves nothing, so the stored tails stay as they were. */
  function SavedTails(g: Grid, days: nat, stored: Tails): (t: Tails)
    requires Shaped(g, |g|, days)
    ensures |g| == 0 || days == 0 ==> t == stored
    ensures |g| > 0 && days > 0 ==> forall w: nat :: w in t <==> w < |g|
    ensures |g| > 0 && days > 0 ==> forall w :: 0 <= w < |g| ==> t[w] == LastCells(g[w])
  {
    if |g| == 0 || days == 0 then stored
    else map w: nat | w < |g| :: LastCells(g[w])
  }

  /** Round trip over the month boundary: in the month after `g`, looking
      back k days from day `day` reads last month's cell k - day days before
      its end, as long as that cell is within the saved tail. */
  lemma PreviousDutyAcrossMonths(g: Grid, days: nat, stored: Tails, h: Grid, w: nat, day: nat, k: nat)
    requires Shaped(g, |g|, days) && days >= TailLength
    requires |h| == |g| && w < |h| && day < |h[w]|
    requires day < k <= day + TailLength
    ensures PreviousDuty(h, SavedTails(g, days, stored), w, day, k) == g[w][days - k + day]
  {
    var t := SavedTails(g, days, stored);
    assert TailOf(t, w) == g[w][days - TailLength..];
  }

  /** Looking back further than the saved tail reaches gives Empty. */
  lemma PreviousDutyBeyondTail(g: Grid, days: nat, stored: Tails, h: Grid, w: nat, day: nat, k: nat)
    requires Shaped(g, |g|, days) && days >= TailLength
    requires |h| == |g| && w < |h| && day < |h[w]|
    requires k > day + TailLength
    ensures PreviousDuty(h, SavedTails(g, days, stored), w, day, k) == Empty
  {
    var t := SavedTails(g, days, stored);
    assert TailOf(t, w) == g[w][days - TailLength..];
  }
}
