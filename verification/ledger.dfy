/** The MAIN sheet: one attendance session per row, in append order, with the
    header row dropped. Every other component reads or rewrites this sequence. */
module Ledger {

  import opened Options
  import opened Calendar

  /** One row `[employee, clockIn, clockOut, clockInLocation, clockOutLocation, hours]`.
      `clockOut` is None while the session is open (the empty cell); `hours`
      is in hundredths of an hour, and 0 stands for the blank cell, which
      every reader of the sheet treats the same as a stored 0.00. */
  datatype Record = Record(
    employee: string,
    clockIn: Time,
    clockOut: Option<Time>,
    inLocation: string,
    outLocation: string,
    hours: int)
  {
    predicate IsOpen() {
      clockOut.None?
    }

    /** Whether the hours cell is truthy, i.e. holds a non-zero value. */
    predicate HasHours() {
      hours != 0
    }
  }

  type Ledger = seq<Record>

  /** An open session of employee `e`. */
  predicate OpenFor(r: Record, e: string) {
    r.employee == e && r.IsOpen()
  }

  /** The highest index whose row satisfies `p`: the backward scan
      `for (j = length - 1; j >= 1; j--)` that every lookup in the source uses. */
  function LastWhere(l: Ledger, p: Record -> bool): (r: Option<nat>)
    ensures r.Some? ==> r.value < |l| && p(l[r.value])
    ensures r.Some? ==> forall k :: r.value < k < |l| ==> !p(l[k])
    ensures r.None? <==> forall k :: 0 <= k < |l| ==> !p(l[k])
    decreases |l|
  {
    if |l| == 0 then None
    else if p(l[|l| - 1]) then Some(|l| - 1)
    else LastWhere(l[..|l| - 1], p)
  }

  /** The latest open session of `e`, as clock-in and clock-out look for it. */
  function LastOpen(l: Ledger, e: string): Option<nat>
  {
    LastWhere(l, (r: Record) => OpenFor(r, e))
  }

  /** The latest row of `e`, open or closed, as the status query looks for it. */
  function LastRow(l: Ledger, e: string): Option<nat>
  {
    LastWhere(l, (r: Record) => r.employee == e)
  }

  /** `j` is the latest open session of `e`. */
  ghost predicate IsLastOpen(l: Ledger, e: string, j: int) {
    && 0 <= j < |l|
    && OpenFor(l[j], e)
    && forall k :: j < k < |l| ==> !OpenFor(l[k], e)
  }

  /** There is only one latest open session. */
  lemma LastOpenIsUnique(l: Ledger, e: string, i: int, j: int)
    requires IsLastOpen(l, e, i) && IsLastOpen(l, e, j)
    ensures i == j
  {
  }

  /** Invariant I1: no employee has two open sessions. */
  ghost predicate AtMostOneOpen(l: Ledger) {
    forall i, j :: 0 <= i < |l| && 0 <= j < |l| && OpenFor(l[i], l[j].employee) && l[j].IsOpen() ==> i == j
  }

  /** The shape clock operations keep the ledger in: an open session is the
      last row of its employee, and an open session's hours cell is blank. */
  ghost predicate Consistent(l: Ledger) {
    && (forall i, j :: 0 <= i < j < |l| && l[i].employee == l[j].employee ==> !l[i].IsOpen())
    && (forall i :: 0 <= i < |l| && l[i].IsOpen() ==> !l[i].HasHours())
  }

  /** The consistent shape rules out a second open session. */
  lemma ConsistentHasAtMostOneOpen(l: Ledger)
    requires Consistent(l)
    ensures AtMostOneOpen(l)
  {
  }
}
