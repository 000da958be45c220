/**
 * Hire, departure and birth dates of individual employees. The exponential
 * "half-life" draws use `Math.log` and `Math.random`: the logarithm is a
 * function parameter, and each rejection loop is modelled by the condition
 * its accepted draw satisfies, given as a precondition.
 */
module Tenure {
  import opened Numeric
  import opened Calendar
  import opened Records

  /** The source's approximation of ln 2 in `halfLife / 0.693`. */
  const Ln2 := 0.693
  const DaysPerYear := 365.25

  /** Years of service of the initial cohort are clipped at 30. */
  const InitialYearsCap := 30.0
  /** An initial-cohort departure draw is accepted only up to 40 years. */
  const InitialTenureLimit := 40.0
  /** A later hire's departure draw is accepted only up to 35 years. */
  const IndividualTenureLimit := 35.0

  /** `Math.round(yearsEmployed * 365.25)`. */
  function DaysEmployed(years: real): int {
    Round(years * DaysPerYear)
  }

  ghost predicate MonotoneOnPositives(ln: real -> real) {
    forall x, y :: 0.0 < x <= y ==> ln(x) <= ln(y)
  }

  /**
   * The years of service of the `employeeID`-th of `initialEmployees`:
   * `(halfLife / 0.693) * ln(initialEmployees / employeeID) + 0.05`, clipped at 30.
   */
  function InitialYearsEmployed(employeeID: int, initialEmployees: int, halfLife: real, ln: real -> real): (y: real)
    requires employeeID > 0
    ensures y <= InitialYearsCap
    ensures var formula := (halfLife / Ln2) * ln(initialEmployees as real / employeeID as real) + 0.05;
            (formula <= InitialYearsCap ==> y == formula) && (formula > InitialYearsCap ==> y == InitialYearsCap)
  {
    var years := (halfLife / Ln2) * ln(initialEmployees as real / employeeID as real) + 0.05;
    if years > InitialYearsCap then InitialYearsCap else years
  }

  /**
   * `calculateInitialStartDate`: go back the employee's days of service from
   * December 30 of the year before `targetStartYear`, then snap to the
   * previous Monday.
   */
  function InitialStartDate(employeeID: int, initialEmployees: int, targetStartYear: int,
                            halfLife: real, ln: real -> real): (r: StartDate)
    requires employeeID > 0
    ensures r.employeeID == employeeID
    ensures IsMonday(r.startDate)
    ensures var back := December30(targetStartYear - 1)
                        - DaysEmployed(InitialYearsEmployed(employeeID, initialEmployees, halfLife, ln));
            back - 6 <= r.startDate <= back
    ensures r.startDate >= December30(targetStartYear - 1) - 10964
  {
    var years := InitialYearsEmployed(employeeID, initialEmployees, halfLife, ln);
    RoundMonotone(years * DaysPerYear, InitialYearsCap * DaysPerYear);
    var start := December30(targetStartYear - 1) - DaysEmployed(years);
    StartDate(employeeID, PreviousMonday(start))
  }

  /**
   * With a monotone logarithm and a non-negative half-life, a lower hiring rank
   * means a longer service, so lower IDs never start later.
   */
  lemma InitialStartDatesOrdered(i: int, j: int, initialEmployees: int, targetStartYear: int,
                                 halfLife: real, ln: real -> real)
    requires 0 < i <= j && initialEmployees > 0 && halfLife >= 0.0
    requires MonotoneOnPositives(ln)
    ensures InitialStartDate(i, initialEmployees, targetStartYear, halfLife, ln).startDate
         <= InitialStartDate(j, initialEmployees, targetStartYear, halfLife, ln).startDate
  {
    var n := initialEmployees as real;
    var ri, rj := n / i as real, n / j as real;
    assert 0.0 < rj <= ri by {
      assert rj * j as real == n;
      assert ri * i as real == n;
      if ri < rj {
        ScaleMonotone(ri, rj, i as real);
        ScaleMonotone(i as real, j as real, rj);
      }
    }
    assert ln(rj) <= ln(ri);
    ScaleMonotone(ln(rj), ln(ri), halfLife / Ln2);
    var yi := InitialYearsEmployed(i, initialEmployees, halfLife, ln);
    var yj := InitialYearsEmployed(j, initialEmployees, halfLife, ln);
    assert yj <= yi;
    ScaleMonotone(yj, yi, DaysPerYear);
    RoundMonotone(yj * DaysPerYear, yi * DaysPerYear);
    var anchor := December30(targetStartYear - 1);
    PreviousMondayMonotone(anchor - DaysEmployed(yi), anchor - DaysEmployed(yj));
  }

  /**
   * Whole years, rounded up, between the start date and January 1 of the start
   * year: `Math.ceil(|difference| / (365 days))`.
   */
  function YearsBeforeStart(startDate: int, targetStartYear: int): (n: int)
    ensures n >= 0
    ensures (n - 1) * 365 < DaysApart(startDate, YearStart(targetStartYear)) <= n * 365
  {
    var distance := DaysApart(startDate, YearStart(targetStartYear));
    var q := distance as real / 365.0;
    var c := Ceil(q);
    assert q * 365.0 == distance as real;
    ScaleMonotone((c - 1) as real, q, 365.0);
    ScaleMonotone(q, c as real, 365.0);
    c
  }

  /** The number of days between two days, in either order. */
  function DaysApart(a: int, b: int): (d: nat)
    ensures d == a - b || d == b - a
  {
    if a <= b then b - a else a - b
  }

  /** The loop of `calculateInitialEndDate` accepts a draw in `[diffYears, 40]`. */
  predicate InitialTenureAccepted(years: real, diffYears: int) {
    !(years < diffYears as real || years > InitialTenureLimit)
  }

  /**
   * `calculateInitialEndDate` for an accepted draw: the member of the initial
   * cohort is still employed on January 1 of the start year and leaves within
   * 40 years of starting.
   */
  function InitialEndDate(startItem: StartDate, targetStartYear: int, yearsEmployed: real): (r: EndDate)
    requires InitialTenureAccepted(yearsEmployed, YearsBeforeStart(startItem.startDate, targetStartYear))
    ensures r.employeeID == startItem.employeeID
    ensures startItem.startDate <= r.endDate <= startItem.startDate + 14610
    ensures YearStart(targetStartYear) <= r.endDate
    ensures var days := (r.endDate - startItem.startDate) as real;
            days - 0.5 <= yearsEmployed * DaysPerYear < days + 0.5
  {
    var diffYears := YearsBeforeStart(startItem.startDate, targetStartYear);
    ScaleMonotone(diffYears as real, yearsEmployed, DaysPerYear);
    RoundMonotone(diffYears as real * DaysPerYear, yearsEmployed * DaysPerYear);
    ScaleMonotone(yearsEmployed, InitialTenureLimit, DaysPerYear);
    RoundMonotone(yearsEmployed * DaysPerYear, InitialTenureLimit * DaysPerYear);
    CoverDistance(YearStart(targetStartYear) - startItem.startDate, diffYears);
    EndDate(startItem.employeeID, startItem.startDate + DaysEmployed(yearsEmployed))
  }

  /** `diffYears` whole years of 365.25 days cover a distance of at most `365 * diffYears` days. */
  lemma CoverDistance(diff: int, diffYears: int)
    requires diffYears as real >= (if diff >= 0 then diff else -diff) as real / 365.0
    requires diffYears >= 0
    ensures DaysEmployed(diffYears as real) >= diff
  {
    RoundOfInt(diff);
    assert diffYears as real * DaysPerYear >= diff as real;
    RoundMonotone(diff as real, diffYears as real * DaysPerYear);
  }

  /** The loop of `calculateIndividualEndDate` rejects draws above 35 years. */
  predicate IndividualTenureAccepted(years: real) {
    !(years > IndividualTenureLimit)
  }

  /**
   * `calculateIndividualEndDate` for an accepted draw: the employee leaves at
   * most 35 years after starting. An exponential draw
   * `(halfLife / 0.693) * ln(1 / u)` with `u` in (0, 1] and a non-negative
   * half-life is never negative, and then the end date is not before the
   * start date.
   */
  function IndividualEndDate(startDate: StartDate, yearsEmployed: real): (r: EndDate)
    requires IndividualTenureAccepted(yearsEmployed)
    ensures r.employeeID == startDate.employeeID
    ensures r.endDate <= startDate.startDate + 12784
    ensures 0.0 <= yearsEmployed ==> startDate.startDate <= r.endDate
    ensures var days := (r.endDate - startDate.startDate) as real;
            days - 0.5 <= yearsEmployed * DaysPerYear < days + 0.5
  {
    ScaleMonotone(yearsEmployed, IndividualTenureLimit, DaysPerYear);
    RoundMonotone(yearsEmployed * DaysPerYear, IndividualTenureLimit * DaysPerYear);
    var r := EndDate(startDate.employeeID, startDate.startDate + DaysEmployed(yearsEmployed));
    if 0.0 <= yearsEmployed then
      ScaleMonotone(0.0, yearsEmployed, DaysPerYear);
      RoundMonotone(0.0, yearsEmployed * DaysPerYear);
      r
    else r
  }

  /**
   * The loop of `calculateIndividualBirthDate` accepts an age of at least 18
   * that keeps the employee at most 65 in the calendar year they leave.
   */
  predicate BirthAgeAccepted(age: real, startYear: int, endYear: int) {
    !(age < 18.0 || (endYear - startYear) as real + age > 65.0)
  }

  /**
   * `calculateIndividualBirthDate` at year granularity: `setFullYear` of the
   * start year minus a fractional age truncates toward zero. Whatever the
   * fraction, the employee is at least 18 in the start year and at most 65 in
   * the end year, counting in calendar years.
   */
  function IndividualBirthYear(employeeID: int, startYear: int, endYear: int, age: real): (r: BirthYear)
    requires BirthAgeAccepted(age, startYear, endYear)
    ensures r.employeeID == employeeID
    ensures 18 <= startYear - r.birthYear
    ensures endYear - r.birthYear <= 65
    ensures var year := startYear as real - age;
            (0.0 <= year ==> r.birthYear as real <= year < r.birthYear as real + 1.0) &&
            (year < 0.0 ==> r.birthYear as real - 1.0 < year <= r.birthYear as real)
  {
    BirthYear(employeeID, Trunc(startYear as real - age))
  }
}
