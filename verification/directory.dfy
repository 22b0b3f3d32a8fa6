/** The employee-id list the page offers, read from column B of the
    "Employee Name" sheet and kept in a process-wide cache for five minutes. */
module Directory {

  import opened Options
  import opened Calendar

  /** How long a cached list is served without reading the sheet again, in ms. */
  const CacheDuration: int := 5 * 60 * 1000

  /** The cache: the last list read and the time it was read; both start out
      empty (null). */
  datatype Cache = Cache(ids: Option<seq<string>>, lastUpdate: Option<Time>)

  const EmptyCache := Cache(None, None)

  /** What reading the directory sheet gave. */
  datatype DirectoryRead =
      /** the sheet does not exist: it is created holding three sample employees */
    | SheetMissing
      /** the read failed */
    | ReadFailed
      /** the cells of the range `B2:B<last row>`, top to bottom: the ids
          below the header, or, when the sheet holds only its header, the
          reversed range `B2:B1`, which also takes in the header cell */
    | Column(values: seq<string>)

  /** The ids written into a newly created directory sheet. */
  const SampleIds: seq<string> := ["EMP001", "EMP002", "EMP003"]

  /** The characters `String.prototype.trim` strips: the ECMAScript white space
      and line terminator characters. */
  predicate IsTrimmed(c: char) {
    || c == '\t' || c == '\n' || c == '\U{000B}' || c == '\U{000C}' || c == '\r' || c == ' '
    || c == '\U{00A0}' || c == '\U{1680}' || ('\U{2000}' <= c <= '\U{200A}')
    || c == '\U{2028}' || c == '\U{2029}' || c == '\U{202F}' || c == '\U{205F}'
    || c == '\U{3000}' || c == '\U{FEFF}'
  }

  /** An id that is empty or trims to the empty string. */
  predicate IsBlank(s: string) {
    forall i :: 0 <= i < |s| ==> IsTrimmed(s[i])
  }

  /** `s` without its leading white space. */
  function TrimStart(s: string): (t: string)
    ensures |t| <= |s| && t == s[|s| - |t|..]
    ensures forall i :: 0 <= i < |s| - |t| ==> IsTrimmed(s[i])
    ensures |t| > 0 ==> !IsTrimmed(t[0])
    decreases |s|
  {
    if |s| > 0 && IsTrimmed(s[0]) then TrimStart(s[1..]) else s
  }

  /** `s` without its trailing white space. */
  function TrimEnd(s: string): (t: string)
    ensures |t| <= |s| && t == s[..|t|]
    ensures forall i :: |t| <= i < |s| ==> IsTrimmed(s[i])
    ensures |t| > 0 ==> !IsTrimmed(t[|t| - 1])
    decreases |s|
  {
    if |s| > 0 && IsTrimmed(s[|s| - 1]) then TrimEnd(s[..|s| - 1]) else s
  }

  /** `String.prototype.trim`: white space removed from both ends. */
  function Trim(s: string): string
  {
    TrimEnd(TrimStart(s))
  }

  /** An id is blank exactly when trimming it leaves the empty string, the
      test the directory filter applies to every cell. */
  lemma BlankIffTrimsToEmpty(s: string)
    ensures IsBlank(s) <==> Trim(s) == ""
  {
  }

  /** The ids that are not blank, in their original order. */
  function NonBlank(xs: seq<string>): (ys: seq<string>)
    ensures |ys| <= |xs|
    ensures forall y :: y in ys ==> y in xs && !IsBlank(y)
    ensures forall x :: x in xs && !IsBlank(x) ==> x in ys
    decreases |xs|
  {
    if |xs| == 0 then []
    else (if IsBlank(xs[0]) then [] else [xs[0]]) + NonBlank(xs[1..])
  }

  /** Filtering a list twice is filtering it once. */
  lemma {:induction false} NonBlankIsIdempotent(xs: seq<string>)
    ensures NonBlank(NonBlank(xs)) == NonBlank(xs)
    decreases |xs|
  {
    if |xs| > 0 {
      NonBlankIsIdempotent(xs[1..]);
      var rest := NonBlank(xs[1..]);
      if !IsBlank(xs[0]) {
        var ys := [xs[0]] + rest;
        assert NonBlank(xs) == ys;
        assert ys[0] == xs[0] && ys[1..] == rest;
      } else {
        assert NonBlank(xs) == rest;
      }
    }
  }

  /** A cache is served while it holds a list and a (non-zero) read time less
      than five minutes before `now`. */
  predicate IsFresh(c: Cache, now: Time) {
    && c.ids.Some?
    && c.lastUpdate.Some?
    && c.lastUpdate.value != 0
    && now - c.lastUpdate.value < CacheDuration
  }

  /** Every id held in the cache is non-blank. */
  predicate IsClean(c: Cache) {
    c.ids.Some? ==> forall y :: y in c.ids.value ==> !IsBlank(y)
  }

  /** The employee ids at time `now`, and the cache afterwards. A fresh cache
      is answered from without reading. Otherwise the sheet is read: on
      success the non-blank ids replace the cache, stamped `now`; on failure
      the answer is empty and the cache is left alone. */
  function GetEmployeeIds(c: Cache, now: Time, read: DirectoryRead): (res: (seq<string>, Cache))
    ensures IsFresh(c, now) ==> res == (c.ids.value, c)
    ensures !IsFresh(c, now) && read.ReadFailed? ==> res == ([], c)
    ensures !IsFresh(c, now) && read.Column? ==>
              res == (NonBlank(read.values), Cache(Some(NonBlank(read.values)), Some(now)))
    ensures !IsFresh(c, now) && read.SheetMissing? ==> res == (SampleIds, Cache(Some(SampleIds), Some(now)))
    ensures IsClean(c) ==> IsClean(res.1) && forall y :: y in res.0 ==> !IsBlank(y)
  {
    if IsFresh(c, now) then (c.ids.value, c)
    else
      match read
      case ReadFailed => ([], c)
      case SheetMissing =>
        assert NonBlank(SampleIds) == SampleIds by {
          assert !IsTrimmed(SampleIds[0][0]) && !IsTrimmed(SampleIds[1][0]) && !IsTrimmed(SampleIds[2][0]);
          assert SampleIds[1..][1..][1..] == [];
        }
        (SampleIds, Cache(Some(SampleIds), Some(now)))
      case Column(values) =>
        var ids := NonBlank(values);
        (ids, Cache(Some(ids), Some(now)))
  }

  /** After a successful refresh at a non-zero time `t`, every request in the
      next five minutes gets the same list back without the sheet being read,
      whatever the sheet would now say. */
  lemma ServedFromCacheWithinWindow(c: Cache, t: Time, first: DirectoryRead, now: Time, later: DirectoryRead)
    requires !IsFresh(c, t) && !first.ReadFailed? && t != 0
    requires t <= now < t + CacheDuration
    ensures GetEmployeeIds(GetEmployeeIds(c, t, first).1, now, later) == GetEmployeeIds(c, t, first)
  {
  }

  /** Once five minutes have passed since the last refresh, the next request
      reads the sheet again and answers with its non-blank ids. */
  lemma RereadAfterWindow(c: Cache, now: Time, values: seq<string>)
    requires c.lastUpdate.Some? && now - c.lastUpdate.value >= CacheDuration
    ensures GetEmployeeIds(c, now, Column(values)).0 == NonBlank(values)
    ensures GetEmployeeIds(c, now, Column(values)).1 == Cache(Some(NonBlank(values)), Some(now))
  {
  }

  /** Blank cells never reach the page: starting from the empty cache, a list
      read from `["EMP001", " ", ""]` is just `["EMP001"]`. */
  lemma BlankIdsAreDropped(now: Time)
    ensures GetEmployeeIds(EmptyCache, now, Column(["EMP001", " ", ""])).0 == ["EMP001"]
  {
    var xs := ["EMP001", " ", ""];
    assert !IsTrimmed(xs[0][0]) && IsBlank(xs[1]) && IsBlank(xs[2]);
    assert xs[1..][1..][1..] == [];
  }
}
