/** The engine of schedule_app.py: the head nurse's weekday duties, a
    five-step duty cycle over every other empty cell, the record of the
    last day for the next month, and the month stepper of the date bar. */
module Cyclic {
  import opened Duties
  import opened Grids
  import opened Calendar

  // ----- step 3: the head nurse -----

  /** The head nurse's code on an empty day: 'Off' at the weekend, 'D' otherwise. */
  function HeadNurseCode(c: DayColumn): (x: Duty)
    ensures x == Off <==> IsWeekendColumn(c)
    ensures x == D || x == Off
  {
    if IsWeekendColumn(c) then Off else D
  }

  /** The grid after step 3: when the mode is on and the first worker is the
      head nurse, her empty cells get her code; nothing else changes. */
  function HeadNurseFilled(g: Grid, cols: seq<DayColumn>, active: bool): (h: Grid)
    requires Shaped(g, |g|, |cols|) && (active ==> |g| > 0)
    ensures Shaped(h, |g|, |cols|)
  {
    if !active then g
    else g[0 := seq(|cols|, d requires 0 <= d < |cols| => if g[0][d] == Empty then HeadNurseCode(cols[d]) else g[0][d])]
  }

  /** Step 3 only writes empty cells of the head nurse's row, with D or
      Off, and leaves none of that row empty. */
  lemma HeadNurseFilledFacts(g: Grid, cols: seq<DayColumn>, active: bool)
    requires Shaped(g, |g|, |cols|) && (active ==> |g| > 0)
    ensures Shaped(HeadNurseFilled(g, cols, active), |g|, |cols|)
    ensures FillsWith(g, HeadNurseFilled(g, cols, active), {D, Off})
    ensures forall v :: 0 <= v < |g| && !(active && v == 0) ==> HeadNurseFilled(g, cols, active)[v] == g[v]
    ensures active ==> forall d :: 0 <= d < |cols| ==> HeadNurseFilled(g, cols, active)[0][d] != Empty
  {
    var h := HeadNurseFilled(g, cols, active);
    if active {
      assert |h[0]| == |cols|;
      assert forall d :: 0 <= d < |cols| && g[0][d] != Empty ==> h[0][d] == g[0][d];
    }
  }

  /** Step 3 as the source runs it: a loop over the head nurse's days. */
  method HeadNurseFill(g: Grid, cols: seq<DayColumn>, active: bool) returns (h: Grid)
    requires Shaped(g, |g|, |cols|) && (active ==> |g| > 0)
    ensures h == HeadNurseFilled(g, cols, active)
  {
    h := g;
    if !active {
      return;
    }
    var row := g[0];
    for d := 0 to |cols|
      invariant |row| == |cols|
      invariant forall e :: 0 <= e < |cols| ==>
        row[e] == if e < d && g[0][e] == Empty then HeadNurseCode(cols[e]) else g[0][e]
    {
      if IsWeekendColumn(cols[d]) {
        if row[d] == Empty {
          row := row[d := Off];
        }
      } else if row[d] == Empty {
        row := row[d := D];
      }
    }
    assert row == HeadNurseFilled(g, cols, active)[0];
    h := g[0 := row];
  }

  // ----- step 4: the duty cycle -----

  /** `duty_cycle[k % len(duty_cycle)]` with `duty_cycle = ['Off', 'Off', 'D', 'E', 'N']`. */
  function CycleCode(k: nat): (x: Duty)
    ensures x in {Off, D, E, N}
  {
    [Off, Off, D, E, N][k % 5]
  }

  /** The head nurse's row is left out of the cycle under the same test as
      step 3. */
  predicate Skipped(active: bool, w: nat) {
    active && w == 0
  }

  /** The number of cells the cycle fills in the rows before `w`. */
  function EmptiesBefore(g: Grid, active: bool, w: nat): nat
    requires w <= |g|
  {
    if w == 0 then 0
    else EmptiesBefore(g, active, w - 1) + (if Skipped(active, w - 1) then 0 else Count(g[w - 1], Empty))
  }

  /** The value of `cycle_index` when the cycle reaches cell (w, d). */
  function Position(g: Grid, active: bool, w: nat, d: nat): nat
    requires w < |g| && d <= |g[w]|
  {
    EmptiesBefore(g, active, w) + Count(g[w][..d], Empty)
  }

  /** Cell (w, d) after step 4: an empty cell of a row the cycle visits takes
      the code at its position, every other cell keeps its value. */
  function CycledCell(g: Grid, active: bool, w: nat, d: nat): Duty
    requires w < |g| && d < |g[w]|
  {
    if g[w][d] == Empty && !Skipped(active, w) then CycleCode(Position(g, active, w, d)) else g[w][d]
  }

  /** The grid after step 4: the empty cells of every row but the skipped
      one, visited worker by worker and day by day, take the cycle's codes
      in turn. */
  function CycleFilled(g: Grid, active: bool): Grid {
    seq(|g|, w requires 0 <= w < |g| => seq(|g[w]|, d requires 0 <= d < |g[w]| => CycledCell(g, active, w, d)))
  }

  /** The inner loop of step 4 on one visited row, from `cycle_index` =
      `start`. */
  method CycleRow(g: Grid, active: bool, w: nat, start: nat) returns (row: Row, filled: nat)
    requires w < |g| && !Skipped(active, w) && start == EmptiesBefore(g, active, w)
    ensures row == CycleFilled(g, active)[w]
    ensures filled == EmptiesBefore(g, active, w + 1)
  {
    row := g[w];
    filled := start;
    for d := 0 to |row|
      invariant |row| == |g[w]|
      invariant filled == start + Count(g[w][..d], Empty)
      invariant forall e :: 0 <= e < d ==> row[e] == CycledCell(g, active, w, e)
      invariant forall e :: d <= e < |row| ==> row[e] == g[w][e]
    {
      CountPrefix(g[w], d, Empty);
      if row[d] == Empty {
        row := row[d := CycleCode(filled)];
        filled := filled + 1;
      }
    }
    assert g[w][..|g[w]|] == g[w];
  }

  /** Step 4 as the source runs it: one `cycle_index` shared by all workers.
      `filled` is its final value, the number of cells written. */
  method CycleFill(g: Grid, active: bool) returns (h: Grid, filled: nat)
    ensures h == CycleFilled(g, active)
    ensures filled == EmptiesBefore(g, active, |g|)
  {
    h := g;
    filled := 0;
    for w := 0 to |g|
      invariant |h| == |g|
      invariant forall v :: w <= v < |g| ==> h[v] == g[v]
      invariant forall v :: 0 <= v < w ==> h[v] == CycleFilled(g, active)[v]
      invariant filled == EmptiesBefore(g, active, w)
    {
      if !Skipped(active, w) {
        var row;
        row, filled := CycleRow(g, active, w, filled);
        h := h[w := row];
      } else {
        assert g[w] == CycleFilled(g, active)[w];
      }
    }
  }

  /** `Count` over longer prefixes never decreases. */
  lemma {:induction false} CountPrefixMono(row: Row, i: nat, j: nat, c: Duty)
    requires i <= j <= |row|
    ensures Count(row[..i], c) <= Count(row[..j], c)
    decreases j - i
  {
    if i < j {
      CountPrefix(row, j - 1, c);
      CountPrefixMono(row, i, j - 1, c);
    }
  }

  lemma {:induction false} EmptiesBeforeMono(g: Grid, active: bool, v: nat, w: nat)
    requires v <= w <= |g|
    ensures EmptiesBefore(g, active, v) <= EmptiesBefore(g, active, w)
    decreases w - v
  {
    if v < w {
      EmptiesBeforeMono(g, active, v, w - 1);
    }
  }

  /** The cycle position of an empty cell lies below the count of the rows
      up to and including its own. */
  lemma PositionWithinRow(g: Grid, active: bool, w: nat, d: nat)
    requires w < |g| && d < |g[w]| && g[w][d] == Empty && !Skipped(active, w)
    ensures Position(g, active, w, d) < EmptiesBefore(g, active, w + 1)
  {
    CountPrefix(g[w], d, Empty);
    CountPrefixMono(g[w], d + 1, |g[w]|, Empty);
    assert g[w][..|g[w]|] == g[w];
  }

  /** The cycle numbers the cells it fills 0, 1, 2, ... in visiting order:
      of two such cells, the one visited first has the smaller position, and
      every position is below the number of cells filled. */
  lemma PositionsInVisitOrder(g: Grid, active: bool, w1: nat, d1: nat, w2: nat, d2: nat)
    requires w1 < |g| && d1 < |g[w1]| && g[w1][d1] == Empty && !Skipped(active, w1)
    requires w2 < |g| && d2 < |g[w2]| && g[w2][d2] == Empty && !Skipped(active, w2)
    requires w1 < w2 || (w1 == w2 && d1 < d2)
    ensures Position(g, active, w1, d1) < Position(g, active, w2, d2)
    ensures Position(g, active, w2, d2) < EmptiesBefore(g, active, |g|)
  {
    PositionWithinRow(g, active, w2, d2);
    EmptiesBeforeMono(g, active, w2 + 1, |g|);
    if w1 < w2 {
      PositionWithinRow(g, active, w1, d1);
      EmptiesBeforeMono(g, active, w1 + 1, w2);
    } else {
      CountPrefix(g[w1], d1, Empty);
      CountPrefixMono(g[w1], d1 + 1, d2, Empty);
    }
  }

  /** Within a row, two empty neighbours take consecutive codes of the
      cycle: a night is followed by Off, a day duty by an evening and an
      evening by a night. */
  lemma CycleFollowsOrder(g: Grid, active: bool, w: nat, d: nat)
    requires w < |g| && d + 1 < |g[w]| && g[w][d] == Empty && g[w][d + 1] == Empty && !Skipped(active, w)
    ensures var h := CycleFilled(g, active);
      && (h[w][d] == N ==> h[w][d + 1] == Off)
      && (h[w][d] == D ==> h[w][d + 1] == E)
      && (h[w][d] == E ==> h[w][d + 1] == N)
  {
    CountPrefix(g[w], d, Empty);
    var p := Position(g, active, w, d);
    assert Position(g, active, w, d + 1) == p + 1;
    assert (p + 1) % 5 == if p % 5 == 4 then 0 else p % 5 + 1;
  }

  // ----- steps 3 and 4 together -----

  /** The grid `generate_monthly_schedule` returns. */
  function Generated(g: Grid, cols: seq<DayColumn>, active: bool): Grid
    requires Shaped(g, |g|, |cols|) && (active ==> |g| > 0)
  {
    CycleFilled(HeadNurseFilled(g, cols, active), active)
  }

  /** Every cell of the result is decided; decided cells of the input are
      kept, and the cells that were empty hold D, E, N or Off. */
  lemma GeneratedComplete(g: Grid, cols: seq<DayColumn>, active: bool)
    requires Shaped(g, |g|, |cols|) && (active ==> |g| > 0)
    ensures Shaped(Generated(g, cols, active), |g|, |cols|)
    ensures Complete(Generated(g, cols, active))
    ensures FillsWith(g, Generated(g, cols, active), {D, E, N, Off})
  {
    HeadNurseFilledFacts(g, cols, active);
    var h := HeadNurseFilled(g, cols, active);
    var out := Generated(g, cols, active);
    forall w, d | 0 <= w < |g| && 0 <= d < |cols|
      ensures out[w][d] != Empty
      ensures g[w][d] != Empty ==> out[w][d] == g[w][d]
      ensures g[w][d] == Empty ==> out[w][d] in {D, E, N, Off}
    {
      assert out[w][d] == CycledCell(h, active, w, d);
    }
  }

  lemma GeneratedShaped(g: Grid, cols: seq<DayColumn>, active: bool)
    requires Shaped(g, |g|, |cols|) && (active ==> |g| > 0)
    ensures Shaped(Generated(g, cols, active), |g|, |cols|)
  {
  }

  /** On a grid with no empty cell neither step writes anything. */
  lemma CompleteUnchanged(g: Grid, cols: seq<DayColumn>, active: bool)
    requires Shaped(g, |g|, |cols|) && (active ==> |g| > 0) && Complete(g)
    ensures Generated(g, cols, active) == g
  {
    if active {
      assert HeadNurseFilled(g, cols, active)[0] == g[0];
    }
    assert HeadNurseFilled(g, cols, active) == g;
    forall w | 0 <= w < |g| ensures CycleFilled(g, active)[w] == g[w] {
    }
  }

  /** Generating again from the generated grid gives the same grid. */
  lemma GenerateIdempotent(g: Grid, cols: seq<DayColumn>, active: bool)
    requires Shaped(g, |g|, |cols|) && (active ==> |g| > 0)
    ensures Generated(Generated(g, cols, active), cols, active) == Generated(g, cols, active)
  {
    GeneratedComplete(g, cols, active);
    CompleteUnchanged(Generated(g, cols, active), cols, active);
  }

  // ----- step 5: the last day, for the next month -----

  /** A key `f"{year}-{month:02d}"` of the store of last-day duties. */
  type MonthKey = (int, int)

  /** `{worker: df.loc[worker, last_day]}` */
  function LastDayRecord(names: seq<string>, g: Grid, last: nat): (r: map<string, Duty>)
    requires |g| == |names| && forall w :: 0 <= w < |g| ==> last < |g[w]|
    requires forall i, j :: 0 <= i < j < |names| ==> names[i] != names[j]
    ensures forall w :: 0 <= w < |names| ==> names[w] in r && r[names[w]] == g[w][last]
    ensures forall k :: k in r ==> k in names
  {
    map w | 0 <= w < |names| :: names[w] := g[w][last]
  }

  /** The loop of step 5 that builds the record. */
  method RecordLastDay(names: seq<string>, g: Grid, last: nat) returns (record: map<string, Duty>)
    requires |g| == |names| && forall w :: 0 <= w < |g| ==> last < |g[w]|
    requires forall i, j :: 0 <= i < j < |names| ==> names[i] != names[j]
    ensures record == LastDayRecord(names, g, last)
  {
    record := map[];
    for w := 0 to |names|
      invariant forall v :: 0 <= v < w ==> names[v] in record && record[names[v]] == g[v][last]
      invariant forall k :: k in record ==> k in names[..w]
    {
      record := record[names[w] := g[w][last]];
    }
    assert names[..|names|] == names;
  }

  /** `_get_previous_duty`: the stored duty of the worker for the month, 'Off'
      when the month or the worker has none. */
  function PreviousDuty(store: map<MonthKey, map<string, Duty>>, name: string, year: int, month: int): Duty {
    if (year, month) in store && name in store[(year, month)] then store[(year, month)][name] else Off
  }

  /** The key the source writes the record under: the month number plus one,
      with no change of year. */
  function RecordKeyAsWritten(year: int, month: int): (k: MonthKey)
    ensures 1 <= month < 12 ==> k == RecordKey(year, month)
    ensures month == 12 ==> !(1 <= k.1 <= 12)
  {
    (year, month + 1)
  }

  /** A December record is filed under month 13 and never found in January:
      the lookup for January of the next year still answers 'Off' although
      the worker ended December on a night. */
  lemma DecemberRecordLost(year: int)
    ensures RecordKeyAsWritten(year, 12) == (year, 13)
    ensures NextMonth(year, 12) == (year + 1, 1)
    ensures PreviousDuty(map[RecordKeyAsWritten(year, 12) := map["a" := N]], "a", year + 1, 1) == Off
  {
  }

  /** The key of the month after (year, month), rolling over the year: the
      month the date bar's '▶' button moves to. */
  function RecordKey(year: int, month: int): (k: MonthKey)
    ensures 1 <= month <= 12 ==> 1 <= k.1 <= 12 && MonthNumber(k) == MonthNumber((year, month)) + 1
  {
    NextMonth(year, month)
  }

  /** The record for the next month is what the lookup of the next month
      finds, for every worker and every month of the year. */
  lemma RecordFoundNextMonth(store: map<MonthKey, map<string, Duty>>, year: int, month: int,
                             names: seq<string>, g: Grid, last: nat, w: nat)
    requires 1 <= month <= 12
    requires |g| == |names| && forall v :: 0 <= v < |g| ==> last < |g[v]|
    requires forall i, j :: 0 <= i < j < |names| ==> names[i] != names[j]
    requires w < |names|
    ensures var next := NextMonth(year, month);
      PreviousDuty(store[RecordKey(year, month) := LastDayRecord(names, g, last)], names[w], next.0, next.1) == g[w][last]
  {
  }

  // ----- the date bar -----

  /** The unit argument of `adjust_date`. */
  datatype Unit = MonthUnit | YearUnit | OtherUnit

  /** `adjust_date(delta, unit)`: a month step that overflows past 12 lands
      on January of the next year and one below 1 on December of the year
      before; a year step changes the year only. */
  function Stepped(year: int, month: int, delta: int, unit: Unit): (k: MonthKey)
    ensures 1 <= month <= 12 ==> 1 <= k.1 <= 12
    ensures unit == MonthUnit ==> year - 1 <= k.0 <= year + 1
    ensures unit != MonthUnit ==> k.1 == month
  {
    match unit
    case MonthUnit =>
      var m := month + delta;
      if m > 12 then (year + 1, 1) else if m < 1 then (year - 1, 12) else (year, m)
    case YearUnit => (year + delta, month)
    case OtherUnit => (year, month)
  }

  function NextMonth(year: int, month: int): MonthKey {
    Stepped(year, month, 1, MonthUnit)
  }

  /** The months in a row, counted from January of year 0. */
  function MonthNumber(k: MonthKey): int {
    12 * k.0 + k.1 - 1
  }

  /** A month step of one either way moves to the neighbouring month of the
      calendar, and every step keeps the month between 1 and 12; a year step
      moves twelve months. */
  lemma SteppedMoves(year: int, month: int, delta: int)
    requires 1 <= month <= 12
    ensures 1 <= Stepped(year, month, delta, MonthUnit).1 <= 12
    ensures delta == 1 || delta == -1 ==> MonthNumber(Stepped(year, month, delta, MonthUnit)) == MonthNumber((year, month)) + delta
    ensures MonthNumber(Stepped(year, month, delta, YearUnit)) == MonthNumber((year, month)) + 12 * delta
  {
  }

  /** One month forward and one back return to the start. */
  lemma SteppedRoundTrip(year: int, month: int)
    requires 1 <= month <= 12
    ensures var k := Stepped(year, month, 1, MonthUnit); Stepped(k.0, k.1, -1, MonthUnit) == (year, month)
    ensures var k := Stepped(year, month, -1, MonthUnit); Stepped(k.0, k.1, 1, MonthUnit) == (year, month)
  {
  }

  // ----- the application -----

  /** The state of schedule_app.py's window that the engine and the date
      bar change: the selected month and the store of last-day duties. */
  class CyclicApp {
    var year: int
    var month: int
    var lastDayDuties: map<MonthKey, map<string, Duty>>

    constructor (year0: int, month0: int)
      ensures year == year0 && month == month0 && lastDayDuties == map[]
    {
      year, month := year0, month0;
      lastDayDuties := map[];
    }

    method AdjustDate(delta: int, unit: Unit)
      modifies this
      ensures (year, month) == Stepped(old(year), old(month), delta, unit)
      ensures lastDayDuties == old(lastDayDuties)
    {
      var newYear, newMonth := year, month;
      if unit == MonthUnit {
        newMonth := newMonth + delta;
        if newMonth > 12 {
          newMonth := 1;
          newYear := newYear + 1;
        } else if newMonth < 1 {
          newMonth := 12;
          newYear := newYear - 1;
        }
      } else if unit == YearUnit {
        newYear := newYear + delta;
      }
      year, month := newYear, newMonth;
    }

    /** `generate_monthly_schedule(df_schedule)`: steps 3 to 5. `active` is
        the head-nurse mode together with the first worker's category. The
        record is filed under the key the source writes, so a December
        record lands under month 13. */
    method GenerateMonthlySchedule(names: seq<string>, g: Grid, cols: seq<DayColumn>, active: bool)
      returns (out: Grid)
      requires |names| == |g| && Shaped(g, |g|, |cols|) && |cols| > 0 && (active ==> |g| > 0)
      requires forall i, j :: 0 <= i < j < |names| ==> names[i] != names[j]
      modifies this
      ensures out == Generated(g, cols, active)
      ensures year == old(year) && month == old(month)
      ensures lastDayDuties == old(lastDayDuties)[RecordKeyAsWritten(year, month) := LastDayRecord(names, out, |cols| - 1)]
    {
      var h := HeadNurseFill(g, cols, active);
      var filled;
      out, filled := CycleFill(h, active);
      GeneratedShaped(g, cols, active);
      var record := RecordLastDay(names, out, |cols| - 1);
      lastDayDuties := lastDayDuties[RecordKeyAsWritten(year, month) := record];
    }
  }
}
