/**
 * `calculateStartDatesForYear`: the start dates of one year's new hires, a
 * fixed number every second Monday from the year's first Monday, appended to
 * the list of start dates so far with consecutive employee IDs.
 */
module Hiring {
  import opened Numeric
  import opened Sequences
  import opened Wrappers
  import opened Calendar
  import opened Records
  import Projection

  const Periods := 26
  const PeriodDays := 14

  /** The new hires of the first entry for `year`, 0 when there is none. */
  function NewHiresIn(newHiresPerYear: seq<Projection.YearNewHires>, year: int): (n: int)
    ensures (forall i :: 0 <= i < |newHiresPerYear| ==> newHiresPerYear[i].year != year) ==> n == 0
    ensures forall i :: (0 <= i < |newHiresPerYear| && newHiresPerYear[i].year == year &&
              forall j :: 0 <= j < i ==> newHiresPerYear[j].year != year) ==> n == newHiresPerYear[i].newHires
  {
    match FindFirst(newHiresPerYear, (d: Projection.YearNewHires) => d.year == year)
    case None => 0
    case Some(i) => newHiresPerYear[i].newHires
  }

  /** The hires of each two-week period: the year's hires divided by 26, rounded half up. */
  function HiresPerPeriod(newHiresThisYear: int): (k: int)
    ensures 26 * k - 13 <= newHiresThisYear < 26 * k + 13
    ensures newHiresThisYear >= 0 ==> k >= 0
  {
    Round(newHiresThisYear as real / Periods as real)
  }

  /** The inner loop: push `k` hires dated `date`, each with ID one more than the current length. */
  function PushHires(s: seq<StartDate>, k: int, date: int): (r: seq<StartDate>)
    ensures |r| == |s| + Max(k, 0)
    ensures r[..|s|] == s
    ensures forall i :: |s| <= i < |r| ==> r[i] == StartDate(i + 1, date)
    decreases k
  {
    if k <= 0 then s
    else PushHires(s + [StartDate(|s| + 1, date)], k - 1, date)
  }

  /**
   * The two-week period an appended entry falls in, counted from 0: entries
   * `0 .. perPeriod - 1` are period 0, the next `perPeriod` period 1, and so on.
   */
  function PeriodIndex(a: int, perPeriod: int): (q: nat)
    decreases a
  {
    if perPeriod <= 0 || a < perPeriod then 0
    else 1 + PeriodIndex(a - perPeriod, perPeriod)
  }

  /** The period of the `a`-th appended entry is `a / perPeriod`. */
  lemma {:induction false} PeriodIndexIsQuotient(a: nat, perPeriod: int)
    requires perPeriod > 0
    ensures PeriodIndex(a, perPeriod) == a / perPeriod
    decreases a
  {
    if a >= perPeriod {
      PeriodIndexIsQuotient(a - perPeriod, perPeriod);
      var q := (a - perPeriod) / perPeriod;
      var m := (a - perPeriod) % perPeriod;
      MulStep(q, perPeriod);
      DivUnique(a, perPeriod, q + 1, m);
    }
  }

  /**
   * The outer loop from period `j` on: push `perPeriod` hires dated `date`, then
   * move `date` forward two weeks, until 26 periods are done.
   */
  function HirePeriods(s: seq<StartDate>, j: int, perPeriod: int, date: int): (r: seq<StartDate>)
    requires 0 <= j <= Periods
    ensures |s| <= |r| == |s| + (Periods - j) * Max(perPeriod, 0)
    ensures r[..|s|] == s
    ensures forall i :: |s| <= i < |r| ==>
              r[i] == StartDate(i + 1, date + PeriodDays * PeriodIndex(i - |s|, perPeriod))
    decreases Periods - j
  {
    if j == Periods then s
    else
      var s' := PushHires(s, perPeriod, date);
      var r := HirePeriods(s', j + 1, perPeriod, date + PeriodDays);
      PeriodsStep(s, s', r, j, perPeriod, date);
      r
  }

  lemma PeriodsStep(s: seq<StartDate>, s': seq<StartDate>, r: seq<StartDate>, j: int, perPeriod: int, date: int)
    requires 0 <= j < Periods
    requires |s'| == |s| + Max(perPeriod, 0) && s'[..|s|] == s
    requires forall i :: |s| <= i < |s'| ==> s'[i] == StartDate(i + 1, date)
    requires |s'| <= |r| == |s'| + (Periods - (j + 1)) * Max(perPeriod, 0) && r[..|s'|] == s'
    requires forall i :: |s'| <= i < |r| ==>
               r[i] == StartDate(i + 1, date + PeriodDays + PeriodDays * PeriodIndex(i - |s'|, perPeriod))
    ensures |s| <= |r| == |s| + (Periods - j) * Max(perPeriod, 0)
    ensures r[..|s|] == s
    ensures forall i :: |s| <= i < |r| ==>
              r[i] == StartDate(i + 1, date + PeriodDays * PeriodIndex(i - |s|, perPeriod))
  {
    var n := Periods - (j + 1);
    MulStep(n, Max(perPeriod, 0));
    assert n + 1 == Periods - j;
    assert r[..|s|] == s'[..|s|];
    forall i | |s| <= i < |r|
      ensures r[i] == StartDate(i + 1, date + PeriodDays * PeriodIndex(i - |s|, perPeriod))
    {
      if i < |s'| {
        assert r[i] == r[..|s'|][i];
      } else {
        assert PeriodIndex(i - |s|, perPeriod) == 1 + PeriodIndex(i - |s'|, perPeriod);
      }
    }
  }

  /**
   * `calculateStartDatesForYear`. With no hires recorded for the year (or a
   * recorded 0) the list comes back unchanged; otherwise each of the 26
   * periods appends `round(n / 26)` hires.
   */
  function StartDatesForYear(targetYear: int, newHiresPerYear: seq<Projection.YearNewHires>,
                             startDates: seq<StartDate>): (r: seq<StartDate>)
    ensures NewHiresIn(newHiresPerYear, targetYear) == 0 ==> r == startDates
    ensures |r| == |startDates| + Periods * Max(HiresPerPeriod(NewHiresIn(newHiresPerYear, targetYear)), 0)
    ensures r[..|startDates|] == startDates
    ensures forall i :: |startDates| <= i < |r| ==>
              r[i].employeeID == i + 1 &&
              r[i].startDate == FirstMondayOfYear(targetYear) + PeriodDays *
                PeriodIndex(i - |startDates|, HiresPerPeriod(NewHiresIn(newHiresPerYear, targetYear)))
  {
    var firstMonday := FirstMondayOfYear(targetYear);
    var newHiresThisYear := NewHiresIn(newHiresPerYear, targetYear);
    if newHiresThisYear == 0 then startDates
    else HirePeriods(startDates, 0, HiresPerPeriod(newHiresThisYear), firstMonday)
  }

  /**
   * For a non-negative request `n` the schedule has `26 * round(n / 26)` hires:
   * within 13 of `n`, and none at all for 1 <= n <= 12.
   */
  lemma ScheduledCountNearRequested(n: int)
    requires n >= 0
    ensures Max(HiresPerPeriod(n), 0) == HiresPerPeriod(n)
    ensures n - 13 < Periods * HiresPerPeriod(n) <= n + 13
    ensures 1 <= n <= 12 ==> HiresPerPeriod(n) == 0
  {
  }

  lemma {:induction false} PeriodIndexBound(a: int, perPeriod: int, n: nat)
    requires perPeriod > 0 && 0 <= a < n * perPeriod
    ensures PeriodIndex(a, perPeriod) < n
    decreases n
  {
    if a >= perPeriod {
      MulStep(n - 1, perPeriod);
      PeriodIndexBound(a - perPeriod, perPeriod, n - 1);
    }
  }

  lemma {:induction false} PeriodIndexMonotone(a: int, a': int, perPeriod: int)
    requires a <= a'
    ensures PeriodIndex(a, perPeriod) <= PeriodIndex(a', perPeriod)
    decreases a'
  {
    if perPeriod > 0 && a' >= perPeriod && a >= perPeriod {
      PeriodIndexMonotone(a - perPeriod, a' - perPeriod, perPeriod);
    }
  }

  /**
   * Every start date appended for `targetYear` is a Monday inside that year,
   * and later entries never start earlier.
   */
  lemma AppendedDatesAreMondaysInYear(targetYear: int, newHiresPerYear: seq<Projection.YearNewHires>,
                                      startDates: seq<StartDate>, i: int, i': int)
    requires |startDates| <= i <= i' < |StartDatesForYear(targetYear, newHiresPerYear, startDates)|
    ensures var d := StartDatesForYear(targetYear, newHiresPerYear, startDates)[i].startDate;
            IsMonday(d) && YearStart(targetYear) <= d < YearStart(targetYear + 1)
    ensures StartDatesForYear(targetYear, newHiresPerYear, startDates)[i].startDate
         <= StartDatesForYear(targetYear, newHiresPerYear, startDates)[i'].startDate
  {
    var r := StartDatesForYear(targetYear, newHiresPerYear, startDates);
    var per := HiresPerPeriod(NewHiresIn(newHiresPerYear, targetYear));
    var fm := FirstMondayOfYear(targetYear);
    var a, a' := i - |startDates|, i' - |startDates|;
    assert r[i].startDate == fm + PeriodDays * PeriodIndex(a, per);
    assert r[i'].startDate == fm + PeriodDays * PeriodIndex(a', per);
    PeriodIndexMonotone(a, a', per);
    PeriodDateInYear(targetYear, per, a, r[i].startDate);
  }

  /** The date of the `a`-th appended hire is a Monday of the year itself. */
  lemma PeriodDateInYear(targetYear: int, perPeriod: int, a: int, d: int)
    requires 0 <= a < Periods * Max(perPeriod, 0)
    requires d == FirstMondayOfYear(targetYear) + PeriodDays * PeriodIndex(a, perPeriod)
    ensures IsMonday(d) && YearStart(targetYear) <= d < YearStart(targetYear + 1)
  {
    assert Max(perPeriod, 0) > 0;
    PeriodIndexBound(a, perPeriod, Periods);
    var q := PeriodIndex(a, perPeriod);
    var fm := FirstMondayOfYear(targetYear);
    MondayPlusFortnights(fm, q);
    assert YearStart(targetYear) <= fm <= YearStart(targetYear) + 6;
    YearLength(targetYear);
  }

  lemma MondayPlusFortnights(d: int, q: int)
    requires IsMonday(d)
    ensures IsMonday(d + PeriodDays * q)
  {
    WeekdayPlusWeeks(d, 2 * q);
  }
}
