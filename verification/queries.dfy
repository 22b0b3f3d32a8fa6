/** Read-only questions the page asks of the ledger: one employee's current
    status, and the global counters. Neither writes anything. */
module Queries {

  import opened Options
  import opened Calendar
  import opened Ledger
  import opened Clock
  import opened Summaries

  /** An employee's status as the page shows it; `totalHours` is 0 while clocked in. */
  datatype EmployeeStatus =
    | NoRecords
    | ClockedIn(lastClockIn: Time, totalHours: int)
    | ClockedOut(lastClockIn: Time, lastClockOut: Time, totalHours: int)

  /** `j` is the latest row of `e`, open or closed. */
  ghost predicate IsLastRow(l: Ledger, e: string, j: int) {
    && 0 <= j < |l|
    && l[j].employee == e
    && forall k :: j < k < |l| ==> l[k].employee != e
  }

  /** The status read off the latest row of `e` alone: closed means clocked
      out (hours 0 when blank), open means clocked in, none means no records. */
  function StatusOf(l: Ledger, e: string): (s: EmployeeStatus)
    ensures s.NoRecords? <==> forall k :: 0 <= k < |l| ==> l[k].employee != e
    ensures forall j :: IsLastRow(l, e, j) ==>
              s == (if l[j].clockOut.Some?
                    then ClockedOut(l[j].clockIn, l[j].clockOut.value, l[j].hours)
                    else ClockedIn(l[j].clockIn, 0))
  {
    match LastRow(l, e)
    case None => NoRecords
    case Some(j) =>
      assert forall i :: IsLastRow(l, e, i) ==> i == j;
      var r := l[j];
      if r.clockOut.Some? then ClockedOut(r.clockIn, r.clockOut.value, r.hours)
      else ClockedIn(r.clockIn, 0)
  }

  /** Rows after an employee's latest row, belonging to others, do not change
      what the status says. */
  lemma StatusIgnoresOtherEmployees(l: Ledger, tail: Ledger, e: string)
    requires forall k :: 0 <= k < |tail| ==> tail[k].employee != e
    ensures StatusOf(l + tail, e) == StatusOf(l, e)
  {
    var l' := l + tail;
    if exists k :: 0 <= k < |l| && l[k].employee == e {
      var j := LastRow(l, e).value;
      assert IsLastRow(l, e, j);
      assert l'[j] == l[j];
      assert IsLastRow(l', e, j);
    } else {
      forall k | 0 <= k < |l'|
        ensures l'[k].employee != e
      {
        if k >= |l| {
          assert l'[k] == tail[k - |l|];
        }
      }
    }
  }

  /** Right after a successful clock-in the employee shows as clocked in since then. */
  lemma StatusAfterClockIn(l: Ledger, e: string, now: Time, location: string)
    requires ClockIn(l, e, now, location).1.status == Success
    ensures StatusOf(ClockIn(l, e, now, location).0, e) == ClockedIn(now, 0)
  {
    var l' := ClockIn(l, e, now, location).0;
    assert IsLastRow(l', e, |l|);
  }

  /** Right after a successful clock-out on a consistent ledger the employee
      shows as clocked out at that moment, with the session's hours. */
  lemma StatusAfterClockOut(l: Ledger, e: string, now: Time, location: string)
    requires Consistent(l)
    requires ClockOut(l, e, now, location).1.status == Success
    ensures var since := l[LastOpen(l, e).value].clockIn;
            StatusOf(ClockOut(l, e, now, location).0, e) == ClockedOut(since, now, Hundredths(now - since))
  {
    var l' := ClockOut(l, e, now, location).0;
    var j :| IsLastOpen(l, e, j) && ClosesOnly(l, l', j, now, location);
    assert IsLastOpen(l, e, LastOpen(l, e).value);
    LastOpenIsUnique(l, e, j, LastOpen(l, e).value);
    forall k | j < k < |l'|
      ensures l'[k].employee != e
    {
      assert l'[k] == l[k];
    }
    assert IsLastRow(l', e, j);
  }

  /** The counters of the statistics panel. */
  datatype Stats = Stats(totalRecords: nat, todayRecords: nat, activeEmployees: nat)

  /** The distinct non-empty employee ids that appear in the ledger. */
  function EmployeesIn(l: Ledger): set<string>
  {
    set i | 0 <= i < |l| && l[i].employee != "" :: l[i].employee
  }

  /** Adding one row adds at most its own employee to the set of employees. */
  lemma EmployeesInSnoc(l: Ledger, r: Record)
    ensures EmployeesIn(l + [r]) == EmployeesIn(l) + (if r.employee != "" then {r.employee} else {})
  {
    var l' := l + [r];
    forall x | x in EmployeesIn(l')
      ensures x in EmployeesIn(l) + (if r.employee != "" then {r.employee} else {})
    {
      var i :| 0 <= i < |l'| && l'[i].employee != "" && x == l'[i].employee;
      if i < |l| {
        assert l'[i] == l[i];
      }
    }
    forall x | x in EmployeesIn(l)
      ensures x in EmployeesIn(l')
    {
      var i :| 0 <= i < |l| && l[i].employee != "" && x == l[i].employee;
      assert l'[i] == l[i];
    }
    if r.employee != "" {
      assert l'[|l|] == r;
    }
  }

  /** The statistics panel as of day `today`: every row counts as a record,
      today's records are exactly the rows of the daily view, and active
      employees are the distinct non-empty ids. */
  method AttendanceStats(l: Ledger, today: int) returns (s: Stats)
    ensures s.totalRecords == |l|
    ensures s.todayRecords == |Daily(l, today)|
    ensures s.activeEmployees == |EmployeesIn(l)|
    ensures s.todayRecords <= s.totalRecords && s.activeEmployees <= s.totalRecords
  {
    var todayCount := 0;
    var seen: set<string> := {};
    var i := 0;
    while i < |l|
      invariant 0 <= i <= |l|
      invariant todayCount == |Daily(l[..i], today)|
      invariant seen == EmployeesIn(l[..i])
      invariant |seen| <= i
    {
      assert l[..i + 1] == l[..i] + [l[i]];
      assert l[..i + 1][..i] == l[..i];
      if DayOf(l[i].clockIn) == today {
        todayCount := todayCount + 1;
      }
      EmployeesInSnoc(l[..i], l[i]);
      if l[i].employee != "" {
        seen := seen + {l[i].employee};
      }
      i := i + 1;
    }
    assert l[..i] == l;
    s := Stats(|l|, todayCount, |seen|);
  }

  /** The statistics when the MAIN sheet may be missing: all zeros, the same
      as for an empty ledger. */
  method AttendanceStatsOnSheet(main: Option<Ledger>, today: int) returns (s: Stats)
    ensures main.None? ==> s == Stats(0, 0, 0)
    ensures main.Some? ==> s.totalRecords == |main.value| && s.todayRecords == |Daily(main.value, today)|
    ensures main.Some? ==> s.activeEmployees == |EmployeesIn(main.value)|
  {
    if main.None? {
      return Stats(0, 0, 0);
    }
    s := AttendanceStats(main.value, today);
  }
}
