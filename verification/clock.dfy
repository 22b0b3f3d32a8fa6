/** Clock-in and clock-out: the only operations that write the ledger. Each
    scans the ledger backward for the employee's latest open session and
    either appends one open row, closes exactly that row, or leaves the
    ledger as it was and says why. */
module Clock {

  import opened Options
  import opened Calendar
  import opened Ledger

  /** What the first cell of a reply says. */
  datatype Status =
    | Success
      /** still clocked in since `since`: clock out first */
    | AlreadyClockedIn(since: Time)
      /** no open session to close: clock in first */
    | MustClockInFirst
      /** clock-out before the MAIN sheet exists */
    | SheetMissing

  /** The reply row `[message, timestamp, employee]`; a None timestamp is the empty string. */
  datatype Reply = Reply(status: Status, timestamp: Option<Time>, employee: string)

  /** The row clock-in appends: `[employee, now, "", location, "", ""]`. */
  function OpenRow(e: string, now: Time, location: string): Record
  {
    Record(e, now, None, location, "", 0)
  }

  /** `l'` is `l` with only row `j` closed at `now`: the employee, clock-in time
      and clock-in location of that row are kept, and its hours cell is the
      session length rounded to hundredths of an hour. */
  ghost predicate ClosesOnly(l: Ledger, l': Ledger, j: int, now: Time, location: string) {
    && |l'| == |l|
    && 0 <= j < |l|
    && (forall k :: 0 <= k < |l| && k != j ==> l'[k] == l[k])
    && l'[j].employee == l[j].employee
    && l'[j].clockIn == l[j].clockIn
    && l'[j].inLocation == l[j].inLocation
    && l'[j].clockOut == Some(now)
    && l'[j].outLocation == location
    && l'[j].hours == Hundredths(now - l[j].clockIn)
  }

  /** Clock `e` in at `now`. An employee who already has an open session is
      turned away with the clock-in time of the latest one; anyone else gets
      one new open row at the end and nothing before it moves. */
  function ClockIn(l: Ledger, e: string, now: Time, location: string): (res: (Ledger, Reply))
    ensures res.1.employee == e && res.1.timestamp == Some(now)
    ensures res.1.status.AlreadyClockedIn? <==> exists j :: 0 <= j < |l| && OpenFor(l[j], e)
    ensures res.1.status.AlreadyClockedIn? ==>
              && res.0 == l
              && exists j :: IsLastOpen(l, e, j) && res.1.status.since == l[j].clockIn
    ensures !res.1.status.AlreadyClockedIn? ==>
              && res.1.status == Success
              && |res.0| == |l| + 1
              && res.0[..|l|] == l
              && res.0[|l|] == Record(e, now, None, location, "", 0)
  {
    match LastOpen(l, e)
    case Some(j) => (l, Reply(AlreadyClockedIn(l[j].clockIn), Some(now), e))
    case None => (l + [OpenRow(e, now, location)], Reply(Success, Some(now), e))
  }

  /** Clock `e` out at `now`. Without an open session nothing changes and the
      reply asks to clock in first (with an empty timestamp); otherwise only
      the latest open session is closed. */
  function ClockOut(l: Ledger, e: string, now: Time, location: string): (res: (Ledger, Reply))
    ensures (forall k :: 0 <= k < |l| ==> !OpenFor(l[k], e)) ==>
              res == (l, Reply(MustClockInFirst, None, e))
    ensures (exists k :: 0 <= k < |l| && OpenFor(l[k], e)) ==>
              && res.1 == Reply(Success, Some(now), e)
              && exists j :: IsLastOpen(l, e, j) && ClosesOnly(l, res.0, j, now, location)
  {
    match LastOpen(l, e)
    case Some(j) =>
      var r := l[j];
      var closed := Record(r.employee, r.clockIn, Some(now), r.inLocation, location, Hundredths(now - r.clockIn));
      var l' := l[j := closed];
      assert IsLastOpen(l, e, j) && ClosesOnly(l, l', j, now, location);
      (l', Reply(Success, Some(now), e))
    case None => (l, Reply(MustClockInFirst, None, e))
  }

  /** Clock-in when the MAIN sheet may not exist yet: a missing sheet is
      created empty, so the request behaves as on an empty ledger. */
  function ClockInOnSheet(main: Option<Ledger>, e: string, now: Time, location: string): (res: (Option<Ledger>, Reply))
    ensures main.None? ==> res == (Some([OpenRow(e, now, location)]), Reply(Success, Some(now), e))
    ensures main.Some? ==> res.0.Some? && (res.0.value, res.1) == ClockIn(main.value, e, now, location)
  {
    var l := if main.Some? then main.value else [];
    var (l', reply) := ClockIn(l, e, now, location);
    (Some(l'), reply)
  }

  /** Clock-out when the MAIN sheet may not exist: a missing sheet is an error
      reply and no sheet is created. */
  function ClockOutOnSheet(main: Option<Ledger>, e: string, now: Time, location: string): (res: (Option<Ledger>, Reply))
    ensures main.None? ==> res == (None, Reply(SheetMissing, Some(now), e))
    ensures main.Some? ==> res.0.Some? && (res.0.value, res.1) == ClockOut(main.value, e, now, location)
  {
    match main
    case None => (None, Reply(SheetMissing, Some(now), e))
    case Some(l) =>
      var (l', reply) := ClockOut(l, e, now, location);
      (Some(l'), reply)
  }

  /** Clock-in never creates a second open session for anyone. */
  lemma ClockInKeepsAtMostOneOpen(l: Ledger, e: string, now: Time, location: string)
    requires AtMostOneOpen(l)
    ensures AtMostOneOpen(ClockIn(l, e, now, location).0)
  {
    var l' := ClockIn(l, e, now, location).0;
    if l' != l {
      forall i, j | 0 <= i < |l'| && 0 <= j < |l'| && OpenFor(l'[i], l'[j].employee) && l'[j].IsOpen()
        ensures i == j
      {
        if i < |l| && j < |l| {
          assert l'[i] == l[i] && l'[j] == l[j];
        }
      }
    }
  }

  /** Clock-out never creates a second open session for anyone. */
  lemma ClockOutKeepsAtMostOneOpen(l: Ledger, e: string, now: Time, location: string)
    requires AtMostOneOpen(l)
    ensures AtMostOneOpen(ClockOut(l, e, now, location).0)
  {
    var l' := ClockOut(l, e, now, location).0;
    if exists k :: 0 <= k < |l| && OpenFor(l[k], e) {
      var j :| IsLastOpen(l, e, j) && ClosesOnly(l, l', j, now, location);
      forall a, b | 0 <= a < |l'| && 0 <= b < |l'| && OpenFor(l'[a], l'[b].employee) && l'[b].IsOpen()
        ensures a == b
      {
        assert a != j && b != j;
        assert l'[a] == l[a] && l'[b] == l[b];
      }
    }
  }

  /** Clock-in keeps the ledger consistent: the appended open row is the
      employee's last row, and every earlier row of that employee is closed. */
  lemma ClockInKeepsConsistent(l: Ledger, e: string, now: Time, location: string)
    requires Consistent(l)
    ensures Consistent(ClockIn(l, e, now, location).0)
  {
    var l' := ClockIn(l, e, now, location).0;
    if l' != l {
      forall i, j | 0 <= i < j < |l'| && l'[i].employee == l'[j].employee
        ensures !l'[i].IsOpen()
      {
        assert l'[i] == l[i];
        if j == |l| {
          assert !OpenFor(l[i], e);
        } else {
          assert l'[j] == l[j];
        }
      }
      forall i | 0 <= i < |l'| && l'[i].IsOpen()
        ensures !l'[i].HasHours()
      {
        if i < |l| {
          assert l'[i] == l[i];
        }
      }
    }
  }

  /** Clock-out keeps the ledger consistent: it only closes a session. */
  lemma ClockOutKeepsConsistent(l: Ledger, e: string, now: Time, location: string)
    requires Consistent(l)
    ensures Consistent(ClockOut(l, e, now, location).0)
  {
    var l' := ClockOut(l, e, now, location).0;
    if exists k :: 0 <= k < |l| && OpenFor(l[k], e) {
      var j :| IsLastOpen(l, e, j) && ClosesOnly(l, l', j, now, location);
      forall a, b | 0 <= a < b < |l'| && l'[a].employee == l'[b].employee
        ensures !l'[a].IsOpen()
      {
        if a != j {
          assert l'[a] == l[a];
          assert l[a].employee == l[b].employee;
        }
      }
      forall a | 0 <= a < |l'| && l'[a].IsOpen()
        ensures !l'[a].HasHours()
      {
        assert a != j && l'[a] == l[a];
      }
    }
  }

  /** A clock request as it arrives from the page. */
  datatype Request =
    | ClockInRequest(employee: string, at: Time, location: string)
    | ClockOutRequest(employee: string, at: Time, location: string)

  /** The ledger after one request. */
  function Step(l: Ledger, q: Request): Ledger
  {
    match q
    case ClockInRequest(e, t, loc) => ClockIn(l, e, t, loc).0
    case ClockOutRequest(e, t, loc) => ClockOut(l, e, t, loc).0
  }

  /** The ledger after a series of requests, served one at a time. */
  function Run(l: Ledger, qs: seq<Request>): Ledger
    decreases |qs|
  {
    if |qs| == 0 then l else Run(Step(l, qs[0]), qs[1..])
  }

  /** Whatever series of clock requests is served, starting from a consistent
      ledger (an empty sheet is one), no employee ever has two open sessions. */
  lemma {:induction false} RunKeepsOneOpenSession(l: Ledger, qs: seq<Request>)
    requires Consistent(l)
    ensures Consistent(Run(l, qs))
    ensures AtMostOneOpen(Run(l, qs))
    decreases |qs|
  {
    if |qs| == 0 {
      ConsistentHasAtMostOneOpen(l);
    } else {
      match qs[0] {
        case ClockInRequest(e, t, loc) => ClockInKeepsConsistent(l, e, t, loc);
        case ClockOutRequest(e, t, loc) => ClockOutKeepsConsistent(l, e, t, loc);
      }
      RunKeepsOneOpenSession(Step(l, qs[0]), qs[1..]);
    }
  }

  /** Clocking in twice: the second request leaves the ledger as the first
      left it and reports the first request's time. */
  lemma SecondClockInIsRejected(l: Ledger, e: string, t1: Time, t2: Time, a: string, b: string)
    requires ClockIn(l, e, t1, a).1.status == Success
    ensures ClockIn(ClockIn(l, e, t1, a).0, e, t2, b) ==
            (ClockIn(l, e, t1, a).0, Reply(AlreadyClockedIn(t1), Some(t2), e))
  {
    var l1 := ClockIn(l, e, t1, a).0;
    assert OpenFor(l1[|l|], e);
    var j :| IsLastOpen(l1, e, j) && ClockIn(l1, e, t2, b).1.status.since == l1[j].clockIn;
    assert IsLastOpen(l1, e, |l|);
    LastOpenIsUnique(l1, e, j, |l|);
  }

  /** A clock-in followed by a clock-out leaves exactly one closed row behind
      at the end, whose hours are the session length rounded to hundredths. */
  lemma ClockInThenOut(l: Ledger, e: string, t1: Time, t2: Time, a: string, b: string)
    requires forall k :: 0 <= k < |l| ==> !OpenFor(l[k], e)
    ensures ClockOut(ClockIn(l, e, t1, a).0, e, t2, b) ==
            (l + [Record(e, t1, Some(t2), a, b, Hundredths(t2 - t1))], Reply(Success, Some(t2), e))
  {
    var l1 := ClockIn(l, e, t1, a).0;
    assert OpenFor(l1[|l|], e);
    var l2 := ClockOut(l1, e, t2, b).0;
    var j :| IsLastOpen(l1, e, j) && ClosesOnly(l1, l2, j, t2, b);
    assert IsLastOpen(l1, e, |l|);
    LastOpenIsUnique(l1, e, j, |l|);
    assert l2 == l + [Record(e, t1, Some(t2), a, b, Hundredths(t2 - t1))];
  }

  /** A session of exactly two hours is stored as 2.00 hours. */
  lemma TwoHourSession(l: Ledger, e: string, t0: Time, a: string, b: string)
    requires forall k :: 0 <= k < |l| ==> !OpenFor(l[k], e)
    ensures ClockOut(ClockIn(l, e, t0, a).0, e, t0 + 2 * MsPerHour, b).0[|l|].hours == 200
  {
    ClockInThenOut(l, e, t0, t0 + 2 * MsPerHour, a, b);
    var h := Hundredths(t0 + 2 * MsPerHour - t0);
    assert h == 200 by {
      assert t0 + 2 * MsPerHour - t0 == 200 * MsPerHundredth;
      assert -MsPerHundredth <= 2 * (h * MsPerHundredth - 200 * MsPerHundredth) <= MsPerHundredth;
    }
  }

  /** Clocking out twice: when no one had two open sessions, the second
      request finds nothing to close, says so, and changes nothing. */
  lemma SecondClockOutIsRejected(l: Ledger, e: string, t1: Time, t2: Time, a: string, b: string)
    requires AtMostOneOpen(l)
    requires ClockOut(l, e, t1, a).1.status == Success
    ensures ClockOut(ClockOut(l, e, t1, a).0, e, t2, b) ==
            (ClockOut(l, e, t1, a).0, Reply(MustClockInFirst, None, e))
  {
    var l1 := ClockOut(l, e, t1, a).0;
    var j :| IsLastOpen(l, e, j) && ClosesOnly(l, l1, j, t1, a);
    forall k | 0 <= k < |l1|
      ensures !OpenFor(l1[k], e)
    {
      if k != j {
        assert l1[k] == l[k];
      }
    }
  }
}
