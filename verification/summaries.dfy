/** The derived views recomputed after every successful clock request:
    per-employee totals, today's rows, and the weekly and monthly tallies.
    Each is a pure fold over the ledger in row order; the sheets they are
    written to are cleared and rewritten, so the fold is the whole view. */
module Summaries {

  import opened Options
  import opened Calendar
  import opened Ledger
  import opened Clock

  /** Sum of the hours cells of the rows satisfying `p`. */
  function SumWhere(l: Ledger, p: Record -> bool): int
    decreases |l|
  {
    if |l| == 0 then 0
    else SumWhere(l[..|l| - 1], p) + (if p(l[|l| - 1]) then l[|l| - 1].hours else 0)
  }

  /** The distinct days on which the rows satisfying `p` were clocked in. */
  function DaysWhere(l: Ledger, p: Record -> bool): set<int>
  {
    set i | 0 <= i < |l| && p(l[i]) :: DayOf(l[i].clockIn)
  }

  /** Peeling the last row off the days of a ledger. */
  lemma DaysWhereSnoc(l: Ledger, p: Record -> bool)
    requires |l| > 0
    ensures DaysWhere(l, p) ==
            DaysWhere(l[..|l| - 1], p) + (if p(l[|l| - 1]) then {DayOf(l[|l| - 1].clockIn)} else {})
  {
    var q := l[..|l| - 1];
    var extra: set<int> := if p(l[|l| - 1]) then {DayOf(l[|l| - 1].clockIn)} else {};
    forall d | d in DaysWhere(l, p)
      ensures d in DaysWhere(q, p) + extra
    {
      var i :| 0 <= i < |l| && p(l[i]) && d == DayOf(l[i].clockIn);
      if i < |q| {
        assert q[i] == l[i];
      }
    }
    forall d | d in DaysWhere(q, p)
      ensures d in DaysWhere(l, p)
    {
      var i :| 0 <= i < |q| && p(q[i]) && d == DayOf(q[i].clockIn);
      assert q[i] == l[i];
    }
  }

  // ---------------------------------------------------------------- totals

  /** The rows the totals view adds up: both the name and the hours cell are
      filled in. Open sessions have a blank hours cell and add nothing. */
  predicate CountsTowardTotal(r: Record) {
    r.employee != "" && r.HasHours()
  }

  /** The rows of `e` that the totals view adds up. */
  function TotalRowOf(e: string): Record -> bool
  {
    (r: Record) => CountsTowardTotal(r) && r.employee == e
  }

  /** The value of `e` in a view, 0 when it has no entry. */
  function HoursIn(m: map<string, int>, e: string): int
  {
    if e in m then m[e] else 0
  }

  /** The totals view: employee name to total hours, in hundredths. */
  function Totals(l: Ledger): (m: map<string, int>)
    ensures forall e :: e in m <==> exists i :: 0 <= i < |l| && CountsTowardTotal(l[i]) && l[i].employee == e
    decreases |l|
  {
    if |l| == 0 then map[]
    else
      var q := l[..|l| - 1];
      var r := l[|l| - 1];
      var m := Totals(q);
      assert forall i :: 0 <= i < |q| ==> q[i] == l[i];
      if CountsTowardTotal(r) then m[r.employee := HoursIn(m, r.employee) + r.hours] else m
  }

  /** Every employee's total is the sum of the hours of exactly that
      employee's named rows with hours; everyone else totals nothing. */
  lemma {:induction false} TotalsAreSums(l: Ledger)
    ensures forall e :: HoursIn(Totals(l), e) == SumWhere(l, TotalRowOf(e))
    decreases |l|
  {
    if |l| > 0 {
      TotalsAreSums(l[..|l| - 1]);
    }
  }

  /** Two closed sessions of 3.00 and 1.50 hours total 4.50 hours. */
  lemma TotalsSample(t0: Time, t1: Time)
    ensures Totals([Record("E1", t0, Some(t0 + 3 * MsPerHour), "", "", 300),
                    Record("E1", t1, Some(t1 + 90 * 60 * 1000), "", "", 150)]) == map["E1" := 450]
  {
    var l := [Record("E1", t0, Some(t0 + 3 * MsPerHour), "", "", 300),
              Record("E1", t1, Some(t1 + 90 * 60 * 1000), "", "", 150)];
    assert l[..1][..0] == [];
  }

  /** Changing one row moves a sum by the difference of that row's shares. */
  lemma {:induction false} SumWhereUpdate(l: Ledger, p: Record -> bool, j: int, r: Record)
    requires 0 <= j < |l|
    ensures SumWhere(l[j := r], p) ==
            SumWhere(l, p) - (if p(l[j]) then l[j].hours else 0) + (if p(r) then r.hours else 0)
    decreases |l|
  {
    var l' := l[j := r];
    assert l'[..|l| - 1] == if j == |l| - 1 then l[..|l| - 1] else l[..|l| - 1][j := r];
    if j < |l| - 1 {
      SumWhereUpdate(l[..|l| - 1], p, j, r);
    }
  }

  /** Clock-in leaves the totals as they were: the new row has no hours. */
  lemma TotalsIgnoreClockIn(l: Ledger, e: string, now: Time, location: string)
    ensures Totals(ClockIn(l, e, now, location).0) == Totals(l)
  {
    var l' := ClockIn(l, e, now, location).0;
    if l' != l {
      assert l'[..|l'| - 1] == l;
    }
  }

  /** On a consistent ledger, a successful clock-out adds the closed
      session's hours to that employee's total and to no one else's. */
  lemma TotalsAfterClockOut(l: Ledger, e: string, now: Time, location: string)
    requires Consistent(l)
    requires ClockOut(l, e, now, location).1.status == Success
    ensures forall x :: HoursIn(Totals(ClockOut(l, e, now, location).0), x) ==
                        HoursIn(Totals(l), x) + (if x == e && e != "" then Hundredths(now - l[LastOpen(l, e).value].clockIn) else 0)
  {
    var l' := ClockOut(l, e, now, location).0;
    var j :| IsLastOpen(l, e, j) && ClosesOnly(l, l', j, now, location);
    var o := LastOpen(l, e);
    assert o.Some? && IsLastOpen(l, e, o.value);
    LastOpenIsUnique(l, e, j, o.value);
    assert l' == l[j := l'[j]];
    TotalsAreSums(l);
    TotalsAreSums(l');
    forall x
      ensures HoursIn(Totals(l'), x) ==
              HoursIn(Totals(l), x) + (if x == e && e != "" then Hundredths(now - l[j].clockIn) else 0)
    {
      SumWhereUpdate(l, TotalRowOf(x), j, l'[j]);
    }
  }

  // ---------------------------------------------------------------- daily

  /** The status column of the daily view. */
  datatype DayStatus = Complete | ClockInOnly

  /** One row of the daily view: date, employee, clock-in, clock-out (None is
      "Not clocked out"), hours (0 when blank) and status. */
  datatype DailyRow = DailyRow(day: int, employee: string, clockIn: Time, clockOut: Option<Time>, hours: int, status: DayStatus)

  function DailyRowOf(r: Record): DailyRow
  {
    DailyRow(DayOf(r.clockIn), r.employee, r.clockIn, r.clockOut, r.hours,
             if r.clockOut.Some? then Complete else ClockInOnly)
  }

  /** A row clocked in on day `today`. */
  predicate OnDay(r: Record, today: int) {
    DayOf(r.clockIn) == today
  }

  /** The daily view: one row per ledger row clocked in today, in ledger order,
      open or closed. */
  function Daily(l: Ledger, today: int): (rows: seq<DailyRow>)
    ensures |rows| <= |l|
    ensures forall k :: 0 <= k < |rows| ==>
              rows[k].day == today && (rows[k].status == Complete <==> rows[k].clockOut.Some?)
    ensures forall i :: 0 <= i < |l| && OnDay(l[i], today) ==> DailyRowOf(l[i]) in rows
    ensures forall row :: row in rows ==> exists i :: 0 <= i < |l| && OnDay(l[i], today) && row == DailyRowOf(l[i])
    decreases |l|
  {
    if |l| == 0 then []
    else
      var q := l[..|l| - 1];
      assert forall i :: 0 <= i < |q| ==> q[i] == l[i];
      Daily(q, today) + (if OnDay(l[|l| - 1], today) then [DailyRowOf(l[|l| - 1])] else [])
  }

  /** The daily view of two ledgers one after the other is the two daily
      views one after the other: nothing is reordered, merged or dropped. */
  lemma {:induction false} DailyOfConcat(a: Ledger, b: Ledger, today: int)
    ensures Daily(a + b, today) == Daily(a, today) + Daily(b, today)
    decreases |b|
  {
    if |b| == 0 {
      assert a + b == a;
    } else {
      var b' := b[..|b| - 1];
      assert (a + b)[..|a + b| - 1] == a + b';
      DailyOfConcat(a, b', today);
    }
  }

  /** A clock-in today adds one "Clock In Only" row at the end of the daily view. */
  lemma DailyAfterClockIn(l: Ledger, e: string, now: Time, location: string)
    requires ClockIn(l, e, now, location).1.status == Success
    ensures Daily(ClockIn(l, e, now, location).0, DayOf(now)) ==
            Daily(l, DayOf(now)) + [DailyRow(DayOf(now), e, now, None, 0, ClockInOnly)]
  {
    var l' := ClockIn(l, e, now, location).0;
    assert l'[..|l'| - 1] == l;
  }

  // ---------------------------------------------------------------- weekly and monthly

  /** Per-employee running figures of a period view: the hours added up, the
      days-worked counter, and the set of dates already counted. */
  datatype Tally = Tally(totalHours: int, daysWorked: nat, dates: set<int>)

  const NoTally := Tally(0, 0, {})

  function TallyOf(m: map<string, Tally>, e: string): Tally
  {
    if e in m then m[e] else NoTally
  }

  /** The rows a period view counts: clocked in inside the period, with hours.
      The employee cell is not checked, unlike the totals view. */
  predicate CountsInPeriod(r: Record, inPeriod: Time -> bool) {
    inPeriod(r.clockIn) && r.HasHours()
  }

  /** The rows of `e` that a period view counts. */
  function PeriodRowOf(e: string, inPeriod: Time -> bool): Record -> bool
  {
    (r: Record) => CountsInPeriod(r, inPeriod) && r.employee == e
  }

  /** A period view: the ledger folded in row order; a row's date bumps the
      days-worked counter only the first time that date is seen. */
  function Tallies(l: Ledger, inPeriod: Time -> bool): (m: map<string, Tally>)
    ensures forall e :: e in m <==> exists i :: 0 <= i < |l| && CountsInPeriod(l[i], inPeriod) && l[i].employee == e
    ensures forall e :: e in m ==> m[e].daysWorked == |m[e].dates| && m[e].daysWorked > 0
    decreases |l|
  {
    if |l| == 0 then map[]
    else
      var q := l[..|l| - 1];
      var r := l[|l| - 1];
      var m := Tallies(q, inPeriod);
      assert forall i :: 0 <= i < |q| ==> q[i] == l[i];
      if CountsInPeriod(r, inPeriod) then
        var t := TallyOf(m, r.employee);
        var day := DayOf(r.clockIn);
        var t' := Tally(t.totalHours + r.hours,
                        if day in t.dates then t.daysWorked else t.daysWorked + 1,
                        t.dates + {day});
        assert t'.daysWorked == |t'.dates| by {
          if day in t.dates {
            assert t'.dates == t.dates;
          }
        }
        var m' := m[r.employee := t'];
        assert forall e :: e in m' && e != r.employee ==> m'[e] == m[e];
        m'
      else m
  }

  /** Each employee's tally holds the sum of the hours of that employee's
      counted rows, and the distinct dates among them. */
  lemma {:induction false} TalliesAreSums(l: Ledger, inPeriod: Time -> bool)
    ensures forall e ::
              && TallyOf(Tallies(l, inPeriod), e).totalHours == SumWhere(l, PeriodRowOf(e, inPeriod))
              && TallyOf(Tallies(l, inPeriod), e).dates == DaysWhere(l, PeriodRowOf(e, inPeriod))
    decreases |l|
  {
    if |l| > 0 {
      TalliesAreSums(l[..|l| - 1], inPeriod);
      forall e
        ensures DaysWhere(l, PeriodRowOf(e, inPeriod)) ==
                DaysWhere(l[..|l| - 1], PeriodRowOf(e, inPeriod))
                + (if PeriodRowOf(e, inPeriod)(l[|l| - 1]) then {DayOf(l[|l| - 1].clockIn)} else {})
      {
        DaysWhereSnoc(l, PeriodRowOf(e, inPeriod));
      }
    }
  }

  /** Days worked is the number of distinct dates among the counted rows. */
  lemma DaysWorkedAreDistinctDates(l: Ledger, inPeriod: Time -> bool, e: string)
    ensures TallyOf(Tallies(l, inPeriod), e).daysWorked == |DaysWhere(l, PeriodRowOf(e, inPeriod))|
  {
    TalliesAreSums(l, inPeriod);
  }

  /** Average hours per day worked, in hundredths; 0 when no day was worked. */
  function Average(t: Tally): (avg: int)
    ensures t.daysWorked == 0 ==> avg == 0
    ensures t.daysWorked > 0 ==> -(t.daysWorked as int) <= 2 * (avg * t.daysWorked - t.totalHours) <= t.daysWorked
  {
    if t.daysWorked > 0 then RoundDiv(t.totalHours, t.daysWorked) else 0
  }

  /** Clock-ins from Monday 00:00 of the current week onward. */
  function InWeekOf(today: int): (inWeek: Time -> bool)
    ensures forall t :: inWeek(t) <==> DayOf(t) >= WeekStart(today)
    ensures inWeek(Midnight(today))
  {
    (t: Time) => t >= Midnight(WeekStart(today))
  }

  /** Clock-ins in the same calendar month and year as today. */
  function InMonthOf(today: int): (inMonth: Time -> bool)
    ensures forall t :: inMonth(t) <==> (&& CivilFromDays(DayOf(t)).year == CivilFromDays(today).year
                                         && CivilFromDays(DayOf(t)).month == CivilFromDays(today).month)
    ensures inMonth(Midnight(today))
  {
    DayOfMidnight(today);
    (t: Time) => MonthKey(DayOf(t)) == MonthKey(today)
  }

  /** The weekly view as of day `today`. */
  function Weekly(l: Ledger, today: int): (m: map<string, Tally>)
    ensures forall e :: e in m <==> exists i :: 0 <= i < |l| && l[i].employee == e && l[i].HasHours()
                                             && DayOf(l[i].clockIn) >= WeekStart(today)
  {
    Tallies(l, InWeekOf(today))
  }

  /** The monthly view as of day `today`. */
  function Monthly(l: Ledger, today: int): (m: map<string, Tally>)
    ensures forall e :: e in m <==> exists i :: 0 <= i < |l| && l[i].employee == e && l[i].HasHours()
                                             && MonthKey(DayOf(l[i].clockIn)) == MonthKey(today)
  {
    Tallies(l, InMonthOf(today))
  }

  /** Every date the weekly view counts is on or after the Monday that
      starts today's week. */
  lemma WeeklyStartsOnMonday(l: Ledger, today: int)
    ensures forall e, d :: e in Weekly(l, today) && d in Weekly(l, today)[e].dates ==> WeekStart(today) <= d
  {
    var p := InWeekOf(today);
    TalliesAreSums(l, p);
    forall e, d | e in Weekly(l, today) && d in Weekly(l, today)[e].dates
      ensures WeekStart(today) <= d
    {
      assert d in DaysWhere(l, PeriodRowOf(e, p));
      var i :| 0 <= i < |l| && PeriodRowOf(e, p)(l[i]) && d == DayOf(l[i].clockIn);
    }
  }

  /** Every row with hours clocked in from the Monday that starts today's week
      onward is counted under its employee in the weekly view. */
  lemma WeeklyCountsTheWholeWeek(l: Ledger, today: int)
    ensures forall i :: 0 <= i < |l| && l[i].HasHours() && DayOf(l[i].clockIn) >= WeekStart(today) ==>
              l[i].employee in Weekly(l, today)
  {
    forall i | 0 <= i < |l| && l[i].HasHours() && DayOf(l[i].clockIn) >= WeekStart(today)
      ensures l[i].employee in Weekly(l, today)
    {
      assert CountsInPeriod(l[i], InWeekOf(today));
    }
  }

  /** Every date the monthly view counts lies in today's month and year. */
  lemma MonthlyStaysInMonth(l: Ledger, today: int)
    ensures forall e, d :: e in Monthly(l, today) && d in Monthly(l, today)[e].dates ==> MonthKey(d) == MonthKey(today)
  {
    var p := InMonthOf(today);
    TalliesAreSums(l, p);
    forall e, d | e in Monthly(l, today) && d in Monthly(l, today)[e].dates
      ensures MonthKey(d) == MonthKey(today)
    {
      assert d in DaysWhere(l, PeriodRowOf(e, p));
      var i :| 0 <= i < |l| && PeriodRowOf(e, p)(l[i]) && d == DayOf(l[i].clockIn);
    }
  }

  /** Every row with hours clocked in during today's month and year is
      counted under its employee in the monthly view. */
  lemma MonthlyCountsTheWholeMonth(l: Ledger, today: int)
    ensures forall i :: 0 <= i < |l| && l[i].HasHours() && MonthKey(DayOf(l[i].clockIn)) == MonthKey(today) ==>
              l[i].employee in Monthly(l, today)
  {
    forall i | 0 <= i < |l| && l[i].HasHours() && MonthKey(DayOf(l[i].clockIn)) == MonthKey(today)
      ensures l[i].employee in Monthly(l, today)
    {
      assert CountsInPeriod(l[i], InMonthOf(today));
    }
  }
}
