/** `generate_schedule_summary` of the three programs: per worker, the
    number of cells of each code, the total of work duties, the weekend
    work and two leave columns.

    pandas builds the table with `stack().groupby(level=0).value_counts()
    .unstack()`, which orders the rows by worker name; the model takes that
    order as a permutation of the roster, sorting the names. */
module Summaries {
  import opened Duties
  import opened Grids
  import opened Calendar

  /** The count columns of one row ('O' and 'Off' merged into 'Off'). */
  datatype Counts = Counts(d: nat, e: nat, n: nat, md: nat, dh: nat, off: nat, v: nat, vQuarter: nat, vHalf: nat)

  /** One row of the summary table. `openingLeave` is the first leave column
      ('전월 연차' or '초기 연차'), `closingLeave` the second ('총 연차' or
      '잔여 연차'); the table of optimized_shift_scheduler.py has no weekend
      column. */
  datatype SummaryRow = SummaryRow(
    name: string, openingLeave: real, closingLeave: real,
    totalWork: nat, counts: Counts, weekendWork: Option<nat>)


  /** `value_counts` of one worker's row. */
  function RowCounts(row: Row): Counts {
    Counts(Count(row, D), Count(row, E), Count(row, N), Count(row, MD), Count(row, DH),
           Count(row, O) + Count(row, Off), Count(row, V), Count(row, VQuarter), Count(row, VHalf))
  }

  /** '총 근무': D + E + MD + N + DH. */
  function TotalWork(c: Counts): nat {
    c.d + c.e + c.md + c.n + c.dh
  }

  /** Leave taken: a full day per 'V', a quarter per 'v.25', a half per 'v.0.5'. */
  function LeaveUsed(c: Counts): real {
    c.v as real + 0.25 * c.vQuarter as real + 0.5 * c.vHalf as real
  }

  /** Cells no column of the table shows: '' and unknown texts. */
  function Uncounted(row: Row): nat {
    if |row| == 0 then 0
    else Uncounted(row[..|row| - 1]) + (if row[|row| - 1] == Empty || row[|row| - 1].Other? then 1 else 0)
  }

  /** '주말_근무': weekend cells whose text contains D, E or N. */
  function WeekendWork(row: Row, cols: seq<DayColumn>): nat {
    if |row| == 0 then 0
    else
      var n := |row| - 1;
      WeekendWork(row[..n], cols) + (if n < |cols| && IsWeekendColumn(cols[n]) && MentionsWork(row[n]) then 1 else 0)
  }

  /** The count columns and the uncounted cells partition the row: every
      cell is counted exactly once. */
  lemma {:induction false} CountsPartition(row: Row)
    ensures var c := RowCounts(row);
      TotalWork(c) + c.off + c.v + c.vQuarter + c.vHalf + Uncounted(row) == |row|
  {
    if |row| > 0 {
      CountsPartition(row[..|row| - 1]);
    }
  }

  /** A cell counted as weekend work is a work duty, 'MD' or an unknown text,
      so weekend work never exceeds the total work plus the uncounted cells. */
  lemma {:induction false} WeekendWorkBound(row: Row, cols: seq<DayColumn>)
    ensures WeekendWork(row, cols) <= TotalWork(RowCounts(row)) + Uncounted(row)
  {
    if |row| > 0 {
      var n := |row| - 1;
      WeekendWorkBound(row[..n], cols);
      MentionsWorkOfCodes();
    }
  }

  /** No leave cells means no leave taken, and leave taken is never negative. */
  lemma LeaveUsedZero(row: Row)
    ensures LeaveUsed(RowCounts(row)) >= 0.0
    ensures LeaveUsed(RowCounts(row)) == 0.0 <==> V !in row && VQuarter !in row && VHalf !in row
  {
    CountBounds(row, V);
    CountBounds(row, VQuarter);
    CountBounds(row, VHalf);
  }

  /** What one leave code costs. */
  function LeaveWeight(x: Duty): real {
    if x == V then 1.0 else if x == VQuarter then 0.25 else if x == VHalf then 0.5 else 0.0
  }

  /** Writing a leave code over a cell that held none adds its weight to the
      leave taken, and leaves the total work unchanged when the cell held
      none either. */
  lemma LeaveSpent(row: Row, i: nat, x: Duty)
    requires i < |row| && row[i] != V && row[i] != VQuarter && row[i] != VHalf
    requires x == V || x == VQuarter || x == VHalf
    ensures LeaveUsed(RowCounts(row[i := x])) == LeaveUsed(RowCounts(row)) + LeaveWeight(x)
    ensures row[i] !in {D, E, N, MD, DH} ==> TotalWork(RowCounts(row[i := x])) == TotalWork(RowCounts(row))
  {
    CountUpdate(row, i, x, V);
    CountUpdate(row, i, x, VQuarter);
    CountUpdate(row, i, x, VHalf);
    CountUpdate(row, i, x, D);
    CountUpdate(row, i, x, E);
    CountUpdate(row, i, x, N);
    CountUpdate(row, i, x, MD);
    CountUpdate(row, i, x, DH);
  }

  /** A row names the worker and reports the counts and total work of
      their cells. */
  predicate ReportsCells(r: SummaryRow, name: string, row: Row) {
    r.name == name && r.counts == RowCounts(row) && r.totalWork == TotalWork(RowCounts(row))
  }

  /** The remaining leave never exceeds the initial balance, and equals it
      exactly when the row holds no leave. */
  predicate KeepsLeave(r: SummaryRow, row: Row) {
    r.closingLeave <= r.openingLeave &&
    (r.closingLeave == r.openingLeave <==> V !in row && VQuarter !in row && VHalf !in row)
  }

  /** Python's `<` on strings: lexicographic by code point. */
  predicate NameLess(a: string, b: string) {
    if |a| == 0 then |b| > 0
    else |b| > 0 && (a[0] < b[0] || (a[0] == b[0] && NameLess(a[1..], b[1..])))
  }

  /** `order` lists the roster indices by ascending name: the order of the
      rows of the grouped table. */
  predicate SortsNames(names: seq<string>, order: seq<nat>) {
    && |order| == |names| && IsOrder(order, |names|)
    && forall i, j :: 0 <= i < j < |order| ==> NameLess(names[order[i]], names[order[j]])
  }

  /** `df_schedule.empty`: a table without rows or without columns. */
  predicate EmptyTable(g: Grid, cols: seq<DayColumn>) {
    |g| == 0 || |cols| == 0
  }

  /** A row of the patched program's table: 2.0 days carried over, 21.5 less
      the leave taken. */
  function PatchedRow(name: string, row: Row, weekendRow: Row, cols: seq<DayColumn>): (r: SummaryRow)
    ensures ReportsCells(r, name, row) && r.openingLeave == 2.0
    ensures r.weekendWork == Some(WeekendWork(weekendRow, cols))
    ensures r.closingLeave <= 21.5 && (r.closingLeave == 21.5 <==> V !in row && VQuarter !in row && VHalf !in row)
  {
    var c := RowCounts(row);
    LeaveUsedZero(row);
    SummaryRow(name, 2.0, 21.5 - LeaveUsed(c), TotalWork(c), c, Some(WeekendWork(weekendRow, cols)))
  }

  /** The patched summary as written: the weekend column is computed in
      roster order and pasted by position (`.values`) into rows sorted by
      name. */
  function PatchedSummaryAsWritten(names: seq<string>, g: Grid, cols: seq<DayColumn>, order: seq<nat>): (r: seq<SummaryRow>)
    requires SortsNames(names, order) && |g| == |names|
    ensures |r| == if EmptyTable(g, cols) then 0 else |names|
  {
    if EmptyTable(g, cols) then []
    else seq(|order|, i requires 0 <= i < |order| => PatchedRow(names[order[i]], g[order[i]], g[i], cols))
  }

  /** The patched summary with each row's weekend work taken from the row of
      the worker it names. */
  function PatchedSummary(names: seq<string>, g: Grid, cols: seq<DayColumn>, order: seq<nat>): (r: seq<SummaryRow>)
    requires SortsNames(names, order) && |g| == |names|
    ensures |r| == if EmptyTable(g, cols) then 0 else |names|
    ensures forall i, j :: 0 <= i < j < |r| ==> NameLess(r[i].name, r[j].name)
  {
    if EmptyTable(g, cols) then []
    else seq(|order|, i requires 0 <= i < |order| => PatchedRow(names[order[i]], g[order[i]], g[order[i]], cols))
  }

  /** Every worker of a non-empty table has a row under their name, and it
      reports their own cells: the counts, the total work, the weekend work
      and 21.5 days less their leave. */
  lemma PatchedSummaryDescribes(names: seq<string>, g: Grid, cols: seq<DayColumn>, order: seq<nat>, w: nat)
    requires SortsNames(names, order) && |g| == |names| && !EmptyTable(g, cols) && w < |names|
    ensures exists i :: (0 <= i < |PatchedSummary(names, g, cols, order)| &&
      ReportsCells(PatchedSummary(names, g, cols, order)[i], names[w], g[w]) &&
      PatchedSummary(names, g, cols, order)[i].weekendWork == Some(WeekendWork(g[w], cols)) &&
      PatchedSummary(names, g, cols, order)[i].closingLeave == 21.5 - LeaveUsed(RowCounts(g[w])))
  {
    assert w in order;
    var i :| 0 <= i < |order| && order[i] == w;
    assert PatchedSummary(names, g, cols, order)[i].name == names[w];
  }

  /** The day column of a Saturday, 1 June. */
  const Saturday: DayColumn := DayColumn(6, 1, Known(5))

  /** Roster "b", "a": "b" works the Saturday, "a" is off. The table lists "a"
      first and hands it the weekend count of "b". */
  lemma PatchedWeekendMisplaced()
    ensures SortsNames(["b", "a"], [1, 0])
    ensures PatchedSummaryAsWritten(["b", "a"], [[D], [O]], [Saturday], [1, 0])[0].name == "a"
    ensures PatchedSummaryAsWritten(["b", "a"], [[D], [O]], [Saturday], [1, 0])[0].weekendWork == Some(1)
    ensures WeekendWork([O], [Saturday]) == 0
  {
    assert NameLess("a", "b");
    OneCellWeekend(D);
    OneCellWeekend(O);
    MentionsWorkOfCodes();
  }

  lemma OneCellWeekend(x: Duty)
    ensures WeekendWork([x], [Saturday]) == if MentionsWork(x) then 1 else 0
  {
    assert [x][..0] == [];
  }

  /** '초기 연차' of schedule_app.py: the year's balance of the worker, 21.5
      when the year or the worker has none. */
  function InitialLeave(leave: map<int, map<string, real>>, year: int, name: string): real {
    if year in leave && name in leave[year] then leave[year][name] else 21.5
  }

  /** A row of schedule_app.py's table: the initial balance and what is left
      of it after the leave taken (the source also rounds it to 2 places). */
  function AppRow(name: string, row: Row, weekendRow: Row, cols: seq<DayColumn>,
                  leave: map<int, map<string, real>>, year: int): (r: SummaryRow)
    ensures ReportsCells(r, name, row) && r.openingLeave == InitialLeave(leave, year, name)
    ensures r.weekendWork == Some(WeekendWork(weekendRow, cols))
    ensures KeepsLeave(r, row)
  {
    var c := RowCounts(row);
    LeaveUsedZero(row);
    var initial := InitialLeave(leave, year, name);
    SummaryRow(name, initial, initial - LeaveUsed(c), TotalWork(c), c, Some(WeekendWork(weekendRow, cols)))
  }

  /** schedule_app.py's summary as written: the same positional weekend column. */
  function AppSummaryAsWritten(names: seq<string>, g: Grid, cols: seq<DayColumn>, order: seq<nat>,
                               leave: map<int, map<string, real>>, year: int): (r: seq<SummaryRow>)
    requires SortsNames(names, order) && |g| == |names|
    ensures |r| == if EmptyTable(g, cols) then 0 else |names|
  {
    if EmptyTable(g, cols) then []
    else seq(|order|, i requires 0 <= i < |order| => AppRow(names[order[i]], g[order[i]], g[i], cols, leave, year))
  }

  /** schedule_app.py's summary with the weekend work of the named worker. */
  function AppSummary(names: seq<string>, g: Grid, cols: seq<DayColumn>, order: seq<nat>,
                      leave: map<int, map<string, real>>, year: int): (r: seq<SummaryRow>)
    requires SortsNames(names, order) && |g| == |names|
    ensures |r| == if EmptyTable(g, cols) then 0 else |names|
    ensures forall i, j :: 0 <= i < j < |r| ==> NameLess(r[i].name, r[j].name)
  {
    if EmptyTable(g, cols) then []
    else seq(|order|, i requires 0 <= i < |order| => AppRow(names[order[i]], g[order[i]], g[order[i]], cols, leave, year))
  }

  /** Every worker has a row under their name reporting their own cells,
      and the remaining leave is the initial balance less their leave: never
      more than the balance, and equal to it exactly when they took none. */
  lemma AppSummaryDescribes(names: seq<string>, g: Grid, cols: seq<DayColumn>, order: seq<nat>,
                            leave: map<int, map<string, real>>, year: int, w: nat)
    requires SortsNames(names, order) && |g| == |names| && !EmptyTable(g, cols) && w < |names|
    ensures exists i :: (0 <= i < |AppSummary(names, g, cols, order, leave, year)| &&
      ReportsCells(AppSummary(names, g, cols, order, leave, year)[i], names[w], g[w]) &&
      AppSummary(names, g, cols, order, leave, year)[i].weekendWork == Some(WeekendWork(g[w], cols)) &&
      AppSummary(names, g, cols, order, leave, year)[i].openingLeave == InitialLeave(leave, year, names[w]) &&
      KeepsLeave(AppSummary(names, g, cols, order, leave, year)[i], g[w]))
  {
    assert w in order;
    var i :| 0 <= i < |order| && order[i] == w;
    LeaveUsedZero(g[w]);
    assert AppSummary(names, g, cols, order, leave, year)[i] == AppRow(names[w], g[w], g[w], cols, leave, year);
  }

  /** The same roster as for the patched table, in schedule_app.py. */
  lemma AppWeekendMisplaced(leave: map<int, map<string, real>>, year: int)
    ensures SortsNames(["b", "a"], [1, 0])
    ensures AppSummaryAsWritten(["b", "a"], [[D], [O]], [Saturday], [1, 0], leave, year)[0].name == "a"
    ensures AppSummaryAsWritten(["b", "a"], [[D], [O]], [Saturday], [1, 0], leave, year)[0].weekendWork == Some(1)
    ensures WeekendWork([O], [Saturday]) == 0
  {
    assert NameLess("a", "b");
    OneCellWeekend(D);
    OneCellWeekend(O);
    MentionsWorkOfCodes();
  }

  /** The loop of schedule_app.py that fills the two leave columns, row by
      row of the table. */
  method LeaveColumns(rowNames: seq<string>, counts: seq<Counts>, leave: map<int, map<string, real>>, year: int)
    returns (initial: seq<real>, remaining: seq<real>)
    requires |rowNames| == |counts|
    ensures |initial| == |remaining| == |rowNames|
    ensures forall i :: 0 <= i < |rowNames| ==>
      initial[i] == InitialLeave(leave, year, rowNames[i]) && remaining[i] == initial[i] - LeaveUsed(counts[i])
  {
    initial, remaining := [], [];
    for i := 0 to |rowNames|
      invariant |initial| == |remaining| == i
      invariant forall k :: 0 <= k < i ==>
        initial[k] == InitialLeave(leave, year, rowNames[k]) && remaining[k] == initial[k] - LeaveUsed(counts[k])
    {
      var initialLeave := if year in leave && rowNames[i] in leave[year] then leave[year][rowNames[i]] else 21.5;
      var used := counts[i].v as real * 1.0 + counts[i].vHalf as real * 0.5 + counts[i].vQuarter as real * 0.25;
      initial := initial + [initialLeave];
      remaining := remaining + [initialLeave - used];
    }
  }

  /** A row of optimized_shift_scheduler.py's table. */
  function OptimizedRow(name: string, row: Row): (r: SummaryRow)
    ensures ReportsCells(r, name, row) && r.weekendWork == None
    ensures r.openingLeave == 2.0 && r.closingLeave == 21.5
  {
    var c := RowCounts(row);
    SummaryRow(name, 2.0, 21.5, TotalWork(c), c, None)
  }

  /** optimized_shift_scheduler.py: the two leave columns are the constants
      2 and 21.5, and there is no weekend column. */
  function OptimizedSummary(names: seq<string>, g: Grid, cols: seq<DayColumn>, order: seq<nat>): (r: seq<SummaryRow>)
    requires SortsNames(names, order) && |g| == |names|
    ensures |r| == if EmptyTable(g, cols) then 0 else |names|
    ensures forall i, j :: 0 <= i < j < |r| ==> NameLess(r[i].name, r[j].name)
  {
    if EmptyTable(g, cols) then []
    else seq(|order|, i requires 0 <= i < |order| => OptimizedRow(names[order[i]], g[order[i]]))
  }

  /** Every worker has a row under their name, with constant leave columns
      whatever leave they took. */
  lemma OptimizedSummaryDescribes(names: seq<string>, g: Grid, cols: seq<DayColumn>, order: seq<nat>, w: nat)
    requires SortsNames(names, order) && |g| == |names| && !EmptyTable(g, cols) && w < |names|
    ensures exists i :: (0 <= i < |OptimizedSummary(names, g, cols, order)| &&
      ReportsCells(OptimizedSummary(names, g, cols, order)[i], names[w], g[w]) &&
      OptimizedSummary(names, g, cols, order)[i].openingLeave == 2.0 &&
      OptimizedSummary(names, g, cols, order)[i].closingLeave == 21.5 &&
      OptimizedSummary(names, g, cols, order)[i].weekendWork == None)
  {
    assert w in order;
    var i :| 0 <= i < |order| && order[i] == w;
    assert OptimizedSummary(names, g, cols, order)[i].name == names[w];
  }
}
