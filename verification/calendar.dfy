/** Time, calendar and rounding arithmetic shared by the attendance ledger.

    A timestamp is a whole number of milliseconds in the script's local time
    zone, so a local calendar day is a block of `MsPerDay` milliseconds and
    days are numbered from 1970-01-01 (day 0), which was a Thursday. */
module Calendar {

  type Time = int

  const MsPerHour: int := 60 * 60 * 1000
  const MsPerDay: int := 24 * MsPerHour
  /** Milliseconds in a hundredth of an hour, the unit of every hours cell. */
  const MsPerHundredth: int := MsPerHour / 100

  /** Weekday numbers as JavaScript's `getDay` gives them. */
  const Sunday: int := 0
  const Monday: int := 1
  const Thursday: int := 4

  /** The local calendar day a timestamp falls on (what `setHours(0, 0, 0, 0)` keeps). */
  function DayOf(t: Time): (d: int)
    ensures Midnight(d) <= t < Midnight(d + 1)
  {
    t / MsPerDay
  }

  /** The first millisecond of day `d`. */
  function Midnight(d: int): Time
  {
    d * MsPerDay
  }

  /** The midnight that starts a day lies on that day. */
  lemma DayOfMidnight(d: int)
    ensures DayOf(Midnight(d)) == d
  {
  }

  /** Day of the week of day `d`, 0 = Sunday through 6 = Saturday. */
  function Weekday(d: int): (w: int)
    ensures 0 <= w < 7
    ensures d == 0 ==> w == Thursday
  {
    (d + Thursday) % 7
  }

  /** How many days before `today` its week began: weeks start on Monday, so a
      Sunday (0) belongs to the week that began six days earlier. */
  function MondayOffset(dayOfWeek: int): (offset: int)
    requires 0 <= dayOfWeek < 7
    ensures -6 <= offset <= 0
    ensures offset == -6 <==> dayOfWeek == Sunday
    ensures offset == 0 <==> dayOfWeek == Monday
    ensures (dayOfWeek + offset) % 7 == Monday
  {
    if dayOfWeek == Sunday then -6 else 1 - dayOfWeek
  }

  /** The Monday that starts the week containing `today`. */
  function WeekStart(today: int): (monday: int)
    ensures today - 6 <= monday <= today
    ensures Weekday(monday) == Monday
    ensures forall d :: monday < d <= today ==> Weekday(d) != Monday
  {
    var monday := today + MondayOffset(Weekday(today));
    assert Weekday(monday) == Monday by {
      WeekdayShift(today, MondayOffset(Weekday(today)));
    }
    forall d | monday < d <= today
      ensures Weekday(d) != Monday
    {
      WeekdayShift(monday, d - monday);
    }
    monday
  }

  /** Moving `k` days from a day moves its weekday by `k`, modulo 7. */
  lemma WeekdayShift(d: int, k: int)
    ensures Weekday(d + k) == (Weekday(d) + k) % 7
  {
    var a := d + Thursday;
    assert a == 7 * (a / 7) + a % 7;
    assert a + k == 7 * (a / 7) + (a % 7 + k);
  }

  /** Every day from a Monday up to the following Sunday reports that Monday as
      its week start; in particular a Sunday belongs to the week of the
      Monday six days before it, not the one after it. */
  lemma {:induction false} WeekStartIsSharedByTheWeek(monday: int, d: int)
    requires Weekday(monday) == Monday
    requires monday <= d <= monday + 6
    ensures WeekStart(d) == monday
  {
    WeekdayShift(monday, d - monday);
    var w := WeekStart(d);
    if w < monday {
      WeekdayShift(w, monday - w);
      assert false;
    } else if w > monday {
      WeekdayShift(monday, w - monday);
      assert false;
    }
  }

  /** `n / d` rounded to the nearest integer, off by at most half a unit. An
      exact half is rounded away from zero here; `toFixed` works on the
      floating-point quotient, whose nearest double may lie on either side of
      the half, so it may round such a tie the other way. */
  function RoundDiv(n: int, d: int): (q: int)
    requires d > 0
    ensures -d <= 2 * (q * d - n) <= d
    ensures n >= 0 ==> q >= 0
    ensures n <= 0 ==> q <= 0
  {
    if n >= 0 then
      var q := (2 * n + d) / (2 * d);
      DivisionBounds(2 * n + d, 2 * d);
      q
    else
      var q := (-2 * n + d) / (2 * d);
      DivisionBounds(-2 * n + d, 2 * d);
      -q
  }

  /** The quotient brackets the dividend. */
  lemma DivisionBounds(a: int, b: int)
    requires a >= 0 && b > 0
    ensures b * (a / b) <= a < b * (a / b) + b
    ensures a / b >= 0
  {
  }

  /** The hours between two timestamps in hundredths of an hour, rounded to
      two decimals as the hours cell stores them. */
  function Hundredths(ms: int): (h: int)
    ensures -MsPerHundredth <= 2 * (h * MsPerHundredth - ms) <= MsPerHundredth
    ensures ms >= 0 ==> h >= 0
  {
    RoundDiv(ms, MsPerHundredth)
  }

  /** A Gregorian calendar date; `month` runs 1..12 (one more than `getMonth`). */
  datatype Date = Date(year: int, month: int, day: int)

  /** The Gregorian date of day number `d`, counted in 400-year eras of
      146097 days that start on 1 March, so that a leap day ends its year. */
  function CivilFromDays(d: int): (date: Date)
    ensures 1 <= date.month <= 12 && 1 <= date.day <= 31
  {
    var z := d + 719468;
    FromDayOfEra(z / 146097, z % 146097)
  }

  /** The date at day `doe` of 400-year era `era`. */
  function FromDayOfEra(era: int, doe: int): (date: Date)
    requires 0 <= doe <= 146096
    ensures 1 <= date.month <= 12 && 1 <= date.day <= 31
  {
    var yoe := YearOfEra(doe);
    YearOfEraBounds(doe);
    FromDayOfYear(era, yoe, doe - (365 * yoe + yoe / 4 - yoe / 100))
  }

  /** The year (0..399, each starting on 1 March) that day `doe` of an era
      falls in: the day count with one day taken off per leap year. */
  function YearOfEra(doe: int): int
  {
    (doe - doe / 1460 + doe / 36524 - doe / 146096) / 365
  }

  /** The year of an era is one of its 400 years, and the day within it is
      one of its at most 366 days. */
  lemma YearOfEraBounds(doe: int)
    requires 0 <= doe <= 146096
    ensures 0 <= YearOfEra(doe) <= 399
    ensures 0 <= doe - (365 * YearOfEra(doe) + YearOfEra(doe) / 4 - YearOfEra(doe) / 100) <= 365
  {
    if doe < 146096 {
      var c := doe / 36524;
      var r := doe % 36524;
      var k := r / 1461;
      var s := r % 1461;
      assert 0 <= c <= 3 && doe == 36524 * c + r;
      assert k <= 24 && (k == 24 ==> s <= 1459) && r == 1461 * k + s;
      YearInBlock(doe, c, k, s);
    }
  }

  /** `YearOfEraBounds` for the day `s` of four-year block `k` of century `c`. */
  lemma YearInBlock(doe: int, c: int, k: int, s: int)
    requires 0 <= c <= 3 && 0 <= k <= 24 && 0 <= s <= 1460 && (k == 24 ==> s <= 1459)
    requires doe == 36524 * c + 1461 * k + s
    ensures 0 <= YearOfEra(doe) <= 399
    ensures 0 <= doe - (365 * YearOfEra(doe) + YearOfEra(doe) / 4 - YearOfEra(doe) / 100) <= 365
  {
    var e := (24 * c + k + s) / 1460;
    assert doe / 1460 == 25 * c + k + e by {
      assert doe == 1460 * (25 * c + k) + (24 * c + k + s);
    }
    assert doe / 36524 == c && doe / 146096 == 0;
    assert e == 0 || (e == 1 && s >= 1364);
    var y := (s - e) / 365;
    assert YearOfEra(doe) == 100 * c + 4 * k + y by {
      assert doe - doe / 1460 + doe / 36524 - doe / 146096 == 365 * (100 * c + 4 * k) + (s - e);
    }
    assert 0 <= y <= 3 && s - 365 * y <= 365;
    assert (100 * c + 4 * k + y) / 4 == 25 * c + k;
    assert (100 * c + 4 * k + y) / 100 == c;
  }

  /** The date at day `doy` (counted from 1 March) of year `yoe` of era `era`. */
  function FromDayOfYear(era: int, yoe: int, doy: int): (date: Date)
    requires 0 <= doy <= 365
    ensures 1 <= date.month <= 12 && 1 <= date.day <= 31
  {
    var mp := (5 * doy + 2) / 153;
    var month := if mp < 10 then mp + 3 else mp - 9;
    Date(yoe + era * 400 + (if month <= 2 then 1 else 0), month, doy - (153 * mp + 2) / 5 + 1)
  }

  /** The day number of a date: the inverse of `CivilFromDays`. */
  function DaysFromCivil(date: Date): int
  {
    var y := date.year - (if date.month <= 2 then 1 else 0);
    var era := y / 400;
    var yoe := y - era * 400;
    var mp := (date.month + 9) % 12;
    var doy := (153 * mp + 2) / 5 + date.day - 1;
    era * 146097 + 365 * yoe + yoe / 4 - yoe / 100 + doy - 719468
  }

  /** Converting a day number to its date and back gives the day number again,
      so no two days share a date. */
  lemma CivilRoundTrip(d: int)
    ensures DaysFromCivil(CivilFromDays(d)) == d
  {
    var z := d + 719468;
    assert CivilFromDays(d) == FromDayOfEra(z / 146097, z % 146097);
    EraRoundTrip(z / 146097, z % 146097);
  }

  /** `DaysFromCivil` undoes `FromDayOfEra` for a day of an era. */
  lemma EraRoundTrip(era: int, doe: int)
    requires 0 <= doe <= 146096
    ensures DaysFromCivil(FromDayOfEra(era, doe)) == era * 146097 + doe - 719468
  {
    var yoe := YearOfEra(doe);
    YearOfEraBounds(doe);
    var doy := doe - (365 * yoe + yoe / 4 - yoe / 100);
    assert FromDayOfEra(era, doe) == FromDayOfYear(era, yoe, doy);
    YearRoundTrip(era, yoe, doy);
  }

  /** `DaysFromCivil` undoes `FromDayOfYear` for a day of one of the 400
      years of an era. */
  lemma YearRoundTrip(era: int, yoe: int, doy: int)
    requires 0 <= yoe <= 399 && 0 <= doy <= 365
    ensures DaysFromCivil(FromDayOfYear(era, yoe, doy)) == era * 146097 + 365 * yoe + yoe / 4 - yoe / 100 + doy - 719468
  {
    var date := FromDayOfYear(era, yoe, doy);
    var mp := (5 * doy + 2) / 153;
    assert 0 <= mp <= 11;
    assert date.year - (if date.month <= 2 then 1 else 0) == yoe + era * 400;
    assert (yoe + era * 400) / 400 == era;
    assert (date.month + 9) % 12 == mp;
  }

  /** Days with different dates are different days, and the same day has one date. */
  lemma CivilFromDaysIsInjective(d: int, d': int)
    requires CivilFromDays(d) == CivilFromDays(d')
    ensures d == d'
  {
    CivilRoundTrip(d);
    CivilRoundTrip(d');
  }

  /** The (year, month) a day belongs to: `getFullYear` and `getMonth` together,
      with the month counted 1..12. */
  function MonthKey(d: int): (key: (int, int))
    ensures 1 <= key.1 <= 12
    ensures key == (CivilFromDays(d).year, CivilFromDays(d).month)
  {
    var date := CivilFromDays(d);
    (date.year, date.month)
  }

  /** The three stages of `CivilFromDays`, given the era, the day of the era,
      the year of the era and the day of that year. */
  lemma CivilStages(d: int, era: int, doe: int, yoe: int, doy: int)
    requires (d + 719468) / 146097 == era && doe == (d + 719468) % 146097
    requires YearOfEra(doe) == yoe
    requires doy == doe - (365 * yoe + yoe / 4 - yoe / 100) && 0 <= doy <= 365
    ensures CivilFromDays(d) == FromDayOfYear(era, yoe, doy)
  {
  }

  /** The epoch is 1 January 1970, a Thursday. */
  lemma EpochSample()
    ensures CivilFromDays(0) == Date(1970, 1, 1) && Weekday(0) == Thursday
  {
    CivilStages(0, 4, 135080, 369, 306);
  }

  /** 10 October 2026 is day 20736, a Saturday. */
  lemma OctoberSample()
    ensures CivilFromDays(20736) == Date(2026, 10, 10) && Weekday(20736) == 6
  {
    CivilStages(20736, 5, 9719, 26, 223);
  }

  /** 29 February 2024 is day 19782. */
  lemma LeapDaySample()
    ensures CivilFromDays(19782) == Date(2024, 2, 29)
  {
    CivilStages(19782, 5, 8765, 23, 365);
  }

  /** Saturday 10 and Sunday 11 October 2026 belong to the week of Monday 5 October. */
  lemma WeekSample()
    ensures WeekStart(20736) == 20731 && WeekStart(20737) == 20731
  {
    assert Weekday(20736) == 6 && Weekday(20737) == 0;
  }

  /** Day 20731 is Monday 5 October 2026. */
  lemma MondaySample()
    ensures CivilFromDays(20731) == Date(2026, 10, 5) && Weekday(20731) == Monday
  {
    CivilStages(20731, 5, 9714, 26, 218);
  }

  /** 1 October 2026 opens the month of 10 October. */
  lemma MonthStartSample()
    ensures MonthKey(20727) == (2026, 10)
  {
    CivilStages(20727, 5, 9710, 26, 214);
  }

  /** 30 September 2026 lies in the month before. */
  lemma MonthEndSample()
    ensures MonthKey(20726) == (2026, 9)
  {
    CivilStages(20726, 5, 9709, 26, 213);
  }
}
