/** Calendar dates of the Gregorian cycle 2000 to 2399 and seconds since its start. */
module RtcMath {
  import opened Words

  datatype Date = Date(year: u32, month: u32, day: u32, hour: u32, minute: u32, second: u32)

  predicate IsLeap(year: nat) { year % 4 == 0 && (year % 100 != 0 || year % 400 == 0) }

  const MONTHS: seq<nat> := [31, 28, 31, 30, 31, 30, 31, 31, 30, 31, 30, 31]

  // No days in a month that does not exist.
  function MonthDays(year: nat, month: nat): nat {
    if month < 1 || month > 12 then 0
    else MONTHS[month - 1] + if month == 2 && IsLeap(year) then 1 else 0
  }

  function YearDays(year: nat): nat { if IsLeap(year) then 366 else 365 }

  predicate Valid(d: Date) {
    && 2000 <= d.year <= 2399
    && 1 <= d.month <= 12
    && 1 <= d.day <= MonthDays(d.year, d.month)
    && d.hour < 24 && d.minute < 60 && d.second < 60
  }

  const DAY := 86400
  const LIMIT := 146097 * DAY

  // ------------------------------------------------------------- dates to seconds

  function DaysBeforeYear(year: nat): nat {
    if year <= 2000 then 0 else DaysBeforeYear(year - 1) + YearDays(year - 1)
  }

  function DaysBeforeMonth(year: nat, month: nat): nat {
    if month <= 1 then 0 else DaysBeforeMonth(year, month - 1) + MonthDays(year, month - 1)
  }

  function DayNumber(d: Date): nat
    requires d.day >= 1
  {
    DaysBeforeYear(d.year) + DaysBeforeMonth(d.year, d.month) + (d.day - 1)
  }

  function SecondOfDay(d: Date): nat { d.hour * 3600 + d.minute * 60 + d.second }

  function Seconds(d: Date): nat
    requires d.day >= 1
  {
    DayNumber(d) * DAY + SecondOfDay(d)
  }

  method ToEpoch(d: Date) returns (seconds: Option<nat>)
    ensures seconds == if Valid(d) then Some(Seconds(d)) else None
  {
    if !Valid(d) {
      return None;
    }
    var days := 0;
    var y := 2000;
    while y < d.year
      invariant 2000 <= y <= d.year && days == DaysBeforeYear(y)
    {
      days := days + if IsLeap(y) then 366 else 365;
      y := y + 1;
    }
    var m := 1;
    while m < d.month
      invariant 1 <= m <= d.month && days == DaysBeforeYear(d.year) + DaysBeforeMonth(d.year, m)
    {
      days := days + MonthDays(d.year, m);
      m := m + 1;
    }
    days := days + d.day - 1;
    return Some(days * DAY + d.hour * 3600 + d.minute * 60 + d.second);
  }

  // ------------------------------------------------------------- the calendar

  // Multiples of n among 2000 and the k - 1 years after it, for the n of the leap rule.
  function Multiples(k: nat, n: nat): nat
    requires n > 0
  {
    (k + n - 1) / n
  }

  function LeapYears(k: nat): int { Multiples(k, 4) - Multiples(k, 100) + Multiples(k, 400) }

  lemma MultiplesStep(k: nat, n: nat)
    requires n == 4 || n == 100 || n == 400
    ensures Multiples(k + 1, n) == Multiples(k, n) + if (2000 + k) % n == 0 then 1 else 0
  {
  }

  lemma MultiplesNest(year: nat)
    ensures year % 400 == 0 ==> year % 100 == 0
    ensures year % 100 == 0 ==> year % 4 == 0
  {
    if year % 400 == 0 {
      Hundreds(year, year / 400 * 4);
    }
    if year % 100 == 0 {
      Fours(year, year / 100 * 25);
    }
  }

  lemma Hundreds(year: nat, q: nat)
    requires year == q * 100
    ensures year % 100 == 0
  {
  }

  lemma Fours(year: nat, q: nat)
    requires year == q * 4
    ensures year % 4 == 0
  {
  }

  lemma LeapYearsStep(k: nat)
    ensures LeapYears(k + 1) == LeapYears(k) + if IsLeap(2000 + k) then 1 else 0
  {
    MultiplesStep(k, 4);
    MultiplesStep(k, 100);
    MultiplesStep(k, 400);
    MultiplesNest(2000 + k);
  }

  /** The loop's sum over years is the closed form 365 k + k/4 - k/100 + k/400, each quotient rounded up,
      for every year from 2000 on. */
  lemma {:induction false} YearsClosedForm(k: nat)
    ensures DaysBeforeYear(2000 + k) == 365 * k + LeapYears(k)
  {
    if k > 0 {
      YearsClosedForm(k - 1);
      OneMoreYear(k - 1);
    }
  }

  lemma OneMoreYear(k: nat)
    ensures DaysBeforeYear(2000 + (k + 1)) == DaysBeforeYear(2000 + k) + 365 + (LeapYears(k + 1) - LeapYears(k))
  {
    LeapYearsStep(k);
  }

  lemma CycleDays()
    ensures DaysBeforeYear(2400) == 146097
  {
    YearsClosedForm(400);
  }

  lemma YearOfMonths(year: nat)
    ensures DaysBeforeMonth(year, 13) == YearDays(year)
  {
    assert DaysBeforeMonth(year, 5) == if IsLeap(year) then 121 else 120 by {
      assert DaysBeforeMonth(year, 3) == if IsLeap(year) then 60 else 59 by {
        assert DaysBeforeMonth(year, 1) == 0;
      }
    }
    assert DaysBeforeMonth(year, 9) == DaysBeforeMonth(year, 5) + 123 by {
      assert DaysBeforeMonth(year, 7) == DaysBeforeMonth(year, 5) + 61;
    }
    assert DaysBeforeMonth(year, 11) == DaysBeforeMonth(year, 9) + 61;
  }

  /** The month lengths are those of the rule that spreads 153 days over five months from March
      on, with January and February at the end of that year. */
  lemma {:induction false} MonthsClosedForm(year: nat, month: nat)
    requires 1 <= month <= 12
    ensures DaysBeforeMonth(year, month) ==
            if month <= 2 then (153 * (month + 9) + 2) / 5 - 306
            else (153 * (month - 3) + 2) / 5 + if IsLeap(year) then 60 else 59
  {
    if month <= 2 {
      assert DaysBeforeMonth(year, 1) == 0;
    } else if month == 3 {
      assert DaysBeforeMonth(year, 1) == 0;
    } else {
      MonthsClosedForm(year, month - 1);
      FiveMonths(year, month - 1);
    }
  }

  lemma FiveMonths(year: nat, month: nat)
    requires 3 <= month <= 11
    ensures MonthDays(year, month) == (153 * (month - 2) + 2) / 5 - (153 * (month - 3) + 2) / 5
  {
    match month
    case 3 => case 4 => case 5 => case 6 => case 7 => case 8 => case 9 => case 10 => case 11 =>
  }

  // Later years and months begin after all days of earlier ones.
  lemma {:induction false} YearsAscend(a: nat, b: nat)
    requires 2000 <= a < b
    ensures DaysBeforeYear(a) + YearDays(a) <= DaysBeforeYear(b)
  {
    if a + 1 < b {
      YearsAscend(a, b - 1);
    }
  }

  lemma {:induction false} MonthsAscend(year: nat, a: nat, b: nat)
    requires 1 <= a < b
    ensures DaysBeforeMonth(year, a) + MonthDays(year, a) <= DaysBeforeMonth(year, b)
  {
    if a + 1 < b {
      MonthsAscend(year, a, b - 1);
    }
  }

  // ------------------------------------------------------------- order

  // Earlier in (year, month, day, hour, minute, second).
  predicate Earlier(d: Date, e: Date) { DayEarlier(d, e) || (SameDay(d, e) && TimeEarlier(d, e)) }

  predicate DayEarlier(d: Date, e: Date) {
    d.year < e.year || (d.year == e.year && (d.month < e.month || (d.month == e.month && d.day < e.day)))
  }

  predicate SameDay(d: Date, e: Date) { d.year == e.year && d.month == e.month && d.day == e.day }

  predicate TimeEarlier(d: Date, e: Date) {
    d.hour < e.hour || (d.hour == e.hour && (d.minute < e.minute || (d.minute == e.minute && d.second < e.second)))
  }

  lemma InYear(d: Date)
    requires Valid(d)
    ensures DaysBeforeMonth(d.year, d.month) + (d.day - 1) < YearDays(d.year)
  {
    YearOfMonths(d.year);
    MonthsAscend(d.year, d.month, 13);
  }

  lemma EarlierDayNumber(d: Date, e: Date)
    requires Valid(d) && Valid(e) && DayEarlier(d, e)
    ensures DayNumber(d) < DayNumber(e)
  {
    if d.year < e.year {
      InYear(d);
      YearsAscend(d.year, e.year);
    } else if d.month < e.month {
      MonthsAscend(d.year, d.month, e.month);
    }
  }

  lemma TimeInDay(d: Date)
    requires Valid(d)
    ensures SecondOfDay(d) < DAY
  {
  }

  lemma EarlierSeconds(d: Date, e: Date)
    requires Valid(d) && Valid(e) && Earlier(d, e)
    ensures Seconds(d) < Seconds(e)
  {
    TimeInDay(d);
    if DayEarlier(d, e) {
      EarlierDayNumber(d, e);
    }
  }

  lemma Trichotomy(d: Date, e: Date)
    ensures Earlier(d, e) || d == e || Earlier(e, d)
  {
  }

  /** Seconds are strictly monotone in the order of dates, both ways. */
  lemma SecondsFollowOrder(d: Date, e: Date)
    requires Valid(d) && Valid(e)
    ensures Seconds(d) < Seconds(e) <==> Earlier(d, e)
    ensures Seconds(d) == Seconds(e) ==> d == e
  {
    Trichotomy(d, e);
    if Earlier(d, e) {
      EarlierSeconds(d, e);
    } else if d != e {
      EarlierSeconds(e, d);
    }
  }

  /** Every valid date is within the cycle's 146097 days. */
  lemma SecondsInCycle(d: Date)
    requires Valid(d)
    ensures Seconds(d) < LIMIT
  {
    CycleDays();
    InYear(d);
    YearsAscend(d.year, 2400);
    TimeInDay(d);
  }

  // ------------------------------------------------------------- seconds to dates

  /** The date of a second. Neither loop runs away: the year never passes 2399, and the month
      never reaches 13, which has no days and would keep the loop going for ever. */
  method FromEpoch(seconds: nat) returns (date: Option<Date>)
    ensures date.Some? <==> seconds < LIMIT
    ensures date.Some? ==> Valid(date.value) && Seconds(date.value) == seconds
  {
    if seconds >= LIMIT {
      return None;
    }
    CycleDays();
    var days := seconds / DAY;
    var within := seconds % DAY;
    ghost var all := days;
    var year := 2000;
    while true
      invariant 2000 <= year <= 2399 && days >= 0 && all == DaysBeforeYear(year) + days && all < DaysBeforeYear(2400)
      decreases 2400 - year
    {
      var n := if IsLeap(year) then 366 else 365;
      if days < n {
        break;
      }
      assert DaysBeforeYear(year + 1) == DaysBeforeYear(year) + n;
      days := days - n;
      year := year + 1;
    }
    ghost var inYear := days;
    YearOfMonths(year);
    var month := 1;
    while days >= MonthDays(year, month)
      invariant 1 <= month <= 12 && days >= 0
      invariant inYear == DaysBeforeMonth(year, month) + days && inYear < DaysBeforeMonth(year, 13)
      decreases 13 - month
    {
      assert DaysBeforeMonth(year, month + 1) == DaysBeforeMonth(year, month) + MonthDays(year, month);
      days := days - MonthDays(year, month);
      month := month + 1;
    }
    ClockParts(within);
    date := Some(Date(year, month, days + 1, within / 3600, (within % 3600) / 60, within % 60));
  }

  lemma ClockParts(within: nat)
    requires within < DAY
    ensures within / 3600 < 24 && (within % 3600) / 60 < 60
    ensures within / 3600 * 3600 + (within % 3600) / 60 * 60 + within % 60 == within
  {
  }

  // ------------------------------------------------------------- inverses

  /** A date comes back from its seconds. */
  method ThereAndBack(d: Date) returns (back: Option<Date>)
    requires Valid(d)
    ensures back == Some(d)
  {
    var seconds := ToEpoch(d);
    SecondsInCycle(d);
    back := FromEpoch(seconds.value);
    SecondsFollowOrder(back.value, d);
  }

  /** Seconds come back from their date. */
  method BackAndThere(seconds: nat) returns (again: Option<nat>)
    requires seconds < LIMIT
    ensures again == Some(seconds)
  {
    var date := FromEpoch(seconds);
    again := ToEpoch(date.value);
  }
}
