/**
 * Calendar days as integer day numbers. Day 0 is 1970-01-01, a Thursday, so the
 * JavaScript `getDay()` weekday (0 = Sunday, 1 = Monday, ...) of day `d` is
 * `(d + 4) % 7`. Adding `n` days with `setDate(getDate() + n)`, including the
 * month and year overflow it performs, is plain integer addition.
 */
module Calendar {

  const Monday := 1

  /** `getDay()` of a day number. */
  function Weekday(d: int): (w: int)
    ensures 0 <= w < 7
  {
    (d + 4) % 7
  }

  predicate IsMonday(d: int) {
    Weekday(d) == Monday
  }

  /** Number of leap years among the years 1 .. y-1 (negative for y < 1), proleptic Gregorian. */
  function LeapYearsBefore(y: int): int {
    (y - 1) / 4 - (y - 1) / 100 + (y - 1) / 400
  }

  /** Day number of January 1 of year `y`. */
  function YearStart(y: int): int {
    365 * (y - 1970) + LeapYearsBefore(y) - LeapYearsBefore(1970)
  }

  /**
   * Day number of December 30 of year `y`. This is what the `Date`
   * constructor gives for year `y` only outside 0 .. 99, which it reads as
   * 1900 .. 1999.
   */
  function December30(y: int): int {
    YearStart(y + 1) - 2
  }

  lemma DivStep(y: int)
    ensures 0 <= y / 4 - (y - 1) / 4 <= 1
    ensures 0 <= y / 100 - (y - 1) / 100 <= 1
    ensures 0 <= y / 400 - (y - 1) / 400 <= 1
  {
  }

  /** Every calendar year has 365 or 366 days. */
  lemma YearLength(y: int)
    ensures 365 <= YearStart(y + 1) - YearStart(y) <= 366
  {
    DivStep(y);
    var a := y / 4 - (y - 1) / 4;
    var b := y / 100 - (y - 1) / 100;
    var c := y / 400 - (y - 1) / 400;
    // a year divisible by 100 is divisible by 4, and one divisible by 400 by 100
    if b == 1 {
      assert y % 100 == 0 by {
        assert 100 * (y / 100) <= y;
        assert (y - 1) / 100 < y / 100;
      }
      assert y % 4 == 0;
      assert a == 1;
    }
    if c == 1 {
      assert y % 400 == 0 by {
        assert (y - 1) / 400 < y / 400;
      }
      assert y % 100 == 0;
      assert b == 1;
    }
  }

  /** Moving forward one day advances the weekday by one, cyclically. */
  lemma WeekdayNext(d: int)
    ensures Weekday(d + 1) == (Weekday(d) + 1) % 7
  {
  }

  /** Days until the next Monday on or after `d`. */
  function DaysToMonday(d: int): (n: int)
    ensures 0 <= n < 7
  {
    (Monday - Weekday(d)) % 7
  }

  /**
   * The loop of `firstMondayOfYear`: step one day at a time until a Monday.
   * The result is the first Monday on or after `d`.
   */
  function MondayOnOrAfter(d: int): (r: int)
    ensures d <= r <= d + 6
    ensures IsMonday(r)
    ensures forall e :: d <= e < r ==> !IsMonday(e)
    decreases DaysToMonday(d)
  {
    if IsMonday(d) then d
    else
      WeekdayNext(d);
      MondayOnOrAfter(d + 1)
  }

  /** `firstMondayOfYear`: the first Monday of the calendar year. */
  function FirstMondayOfYear(year: int): (r: int)
    ensures YearStart(year) <= r <= YearStart(year) + 6
    ensures IsMonday(r)
    ensures forall e :: YearStart(year) <= e < r ==> !IsMonday(e)
  {
    MondayOnOrAfter(YearStart(year))
  }

  /**
   * `getPreviousMonday`: on a Sunday go back six days, on any other non-Monday
   * go back to the Monday of the same Monday-to-Sunday week.
   */
  function PreviousMonday(d: int): (r: int)
    ensures d - 6 <= r <= d
    ensures IsMonday(r)
    ensures IsMonday(d) ==> r == d
    ensures forall e :: r < e <= d ==> !IsMonday(e)
  {
    var day := Weekday(d);
    if day != Monday then
      d - day + (if day == 0 then -6 else 1)
    else
      d
  }

  /** Shifting by whole weeks keeps the weekday. */
  lemma WeekdayPlusWeeks(d: int, k: int)
    ensures Weekday(d + 7 * k) == Weekday(d)
  {
  }

  /** `getPreviousMonday` is monotone: later days never map to earlier Mondays. */
  lemma PreviousMondayMonotone(d1: int, d2: int)
    requires d1 <= d2
    ensures PreviousMonday(d1) <= PreviousMonday(d2)
  {
  }

  /** `getPreviousMonday` is idempotent. */
  lemma PreviousMondayIdempotent(d: int)
    ensures PreviousMonday(PreviousMonday(d)) == PreviousMonday(d)
  {
  }
}
