/**
 * The yearly headcount projection of the employee generator: expected
 * employees per year scaled from a population series, a flat 15% attrition,
 * the new hires needed to reach the next year's headcount, and the lookups and
 * sums over those series.
 */
module Projection {
  import opened Wrappers
  import opened Numeric
  import opened Sequences

  datatype YearPopulation = YearPopulation(year: int, population: int)
  datatype YearEmployees = YearEmployees(year: int, employees: int)
  datatype YearLeaving = YearLeaving(year: int, leavingEmployees: int)
  datatype YearNewHires = YearNewHires(year: int, newHires: int)

  /** The current year has no usable population entry, so the scale factor would divide by 0. */
  datatype ProjectionError = NoPopulationForYear(year: int)

  /** The population of the first entry for `year`, 0 when there is none. */
  function PopulationIn(data: seq<YearPopulation>, year: int): (p: int)
    ensures (forall i :: 0 <= i < |data| ==> data[i].year != year) ==> p == 0
    ensures forall i :: (0 <= i < |data| && data[i].year == year &&
              forall j :: 0 <= j < i ==> data[j].year != year) ==> p == data[i].population
  {
    match FindFirst(data, (d: YearPopulation) => d.year == year)
    case None => 0
    case Some(i) => data[i].population
  }

  /**
   * `calculateEmployeesPerYear`, with the current calendar year passed in.
   * Each year's headcount is the population scaled by `numEmployees / populationThisYear`.
   * Without a non-zero population for the current year the divisor is 0; the model
   * reports that as a failure.
   */
  function EmployeesPerYear(numEmployees: int, data: seq<YearPopulation>, currentYear: int)
    : (r: Result<seq<YearEmployees>, ProjectionError>)
    ensures r.Failure? <==> PopulationIn(data, currentYear) == 0
    ensures r.Failure? ==> r.error == NoPopulationForYear(currentYear)
    ensures r.Success? ==> |r.value| == |data|
    ensures r.Success? ==> forall i :: 0 <= i < |data| ==>
              r.value[i].year == data[i].year &&
              r.value[i].employees == Scaled(data[i].population, numEmployees, PopulationIn(data, currentYear))
  {
    var populationThisYear := PopulationIn(data, currentYear);
    if populationThisYear == 0 then
      Failure(NoPopulationForYear(currentYear))
    else
      Success(seq(|data|, i requires 0 <= i < |data| =>
        YearEmployees(data[i].year, Scaled(data[i].population, numEmployees, populationThisYear))))
  }

  /**
   * The year's population scaled by the company's share of the current
   * population, rounded half up: the integer nearest to
   * `population * numEmployees / populationThisYear`.
   */
  function Scaled(population: int, numEmployees: int, populationThisYear: int): (n: int)
    requires populationThisYear != 0
    ensures var exact := population as real * (numEmployees as real / populationThisYear as real);
            exact - 0.5 < n as real <= exact + 0.5
  {
    Round(population as real * (numEmployees as real / populationThisYear as real))
  }

  /** Under exact arithmetic every entry for the current year projects exactly `numEmployees`. */
  lemma CurrentYearProjectsHeadcount(numEmployees: int, data: seq<YearPopulation>, currentYear: int, i: int)
    requires EmployeesPerYear(numEmployees, data, currentYear).Success?
    requires 0 <= i < |data| && data[i].year == currentYear
    requires data[i].population == PopulationIn(data, currentYear)
    ensures EmployeesPerYear(numEmployees, data, currentYear).value[i].employees == numEmployees
  {
    var p := PopulationIn(data, currentYear);
    Cancel(p as real, numEmployees as real);
    RoundOfInt(numEmployees);
    assert Scaled(p, numEmployees, p) == numEmployees;
  }

  /** With a positive scale factor, a larger population never projects fewer employees. */
  lemma ProjectionMonotone(numEmployees: int, data: seq<YearPopulation>, currentYear: int, i: int, j: int)
    requires numEmployees >= 0 && PopulationIn(data, currentYear) > 0
    requires 0 <= i < |data| && 0 <= j < |data| && data[i].population <= data[j].population
    ensures EmployeesPerYear(numEmployees, data, currentYear).value[i].employees
         <= EmployeesPerYear(numEmployees, data, currentYear).value[j].employees
  {
    var p := PopulationIn(data, currentYear);
    var share := numEmployees as real / p as real;
    var a, b := data[i].population as real, data[j].population as real;
    assert share >= 0.0;
    ScaleMonotone(a, b, share);
    RoundMonotone(a * share, b * share);
    assert Scaled(data[i].population, numEmployees, p) <= Scaled(data[j].population, numEmployees, p);
  }

  /** `calculateLeavingEmployeesPerYear`: a flat `round(0.15 * employees)` leaves each year. */
  function LeavingPerYear(employeesPerYear: seq<YearEmployees>): (r: seq<YearLeaving>)
    ensures |r| == |employeesPerYear|
    ensures forall i :: 0 <= i < |r| ==>
              r[i].year == employeesPerYear[i].year &&
              r[i].leavingEmployees == Round(employeesPerYear[i].employees as real * 0.15)
    ensures forall i :: 0 <= i < |r| && employeesPerYear[i].employees >= 0 ==>
              0 <= r[i].leavingEmployees <= employeesPerYear[i].employees
  {
    seq(|employeesPerYear|, i requires 0 <= i < |employeesPerYear| =>
      YearLeaving(employeesPerYear[i].year, Round(employeesPerYear[i].employees as real * 0.15)))
  }

  /**
   * `calculateNewHiresPerYear`: hires needed to reach next year's headcount after
   * this year's leavers, never negative, and 0 in the last year.
   */
  function NewHiresPerYear(employeesPerYear: seq<YearEmployees>, leaving: seq<YearLeaving>): (r: seq<YearNewHires>)
    requires |leaving| <= 1 || |employeesPerYear| >= |leaving|
    ensures |r| == |leaving|
    ensures forall i :: 0 <= i < |r| ==> r[i].year == leaving[i].year && r[i].newHires >= 0
    ensures |r| > 0 ==> r[|r| - 1].newHires == 0
    ensures forall i :: 0 <= i < |r| - 1 ==>
              r[i].newHires == Max(employeesPerYear[i + 1].employees - employeesPerYear[i].employees
                                   + leaving[i].leavingEmployees, 0)
  {
    seq(|leaving|, i requires 0 <= i < |leaving| => NewHiresAt(employeesPerYear, leaving, i))
  }

  function NewHiresAt(employeesPerYear: seq<YearEmployees>, leaving: seq<YearLeaving>, i: nat): YearNewHires
    requires i < |leaving|
    requires i == |leaving| - 1 || |employeesPerYear| >= |leaving|
  {
    if i == |leaving| - 1 then YearNewHires(leaving[i].year, 0)
    else
      var thisYear := employeesPerYear[i].employees;
      var nextYear := employeesPerYear[i + 1].employees;
      YearNewHires(leaving[i].year, Max(nextYear - thisYear + leaving[i].leavingEmployees, 0))
  }

  /** The hires of a non-final year, net of its leavers, reach at least the next year's headcount. */
  lemma HiresCoverGrowth(employeesPerYear: seq<YearEmployees>, leaving: seq<YearLeaving>, i: int)
    requires |employeesPerYear| >= |leaving|
    requires 0 <= i < |leaving| - 1
    ensures employeesPerYear[i].employees - leaving[i].leavingEmployees
            + NewHiresPerYear(employeesPerYear, leaving)[i].newHires >= employeesPerYear[i + 1].employees
  {
  }

  /** `targetStartYearEmployees`: the first entry's headcount for the year, 0 when there is none. */
  function TargetStartYearEmployees(employeesPerYear: seq<YearEmployees>, targetStartYear: int): (n: int)
    ensures (forall i :: 0 <= i < |employeesPerYear| ==> employeesPerYear[i].year != targetStartYear) ==> n == 0
    ensures forall i :: (0 <= i < |employeesPerYear| && employeesPerYear[i].year == targetStartYear &&
              forall j :: 0 <= j < i ==> employeesPerYear[j].year != targetStartYear) ==>
              n == employeesPerYear[i].employees
  {
    match FindFirst(employeesPerYear, (d: YearEmployees) => d.year == targetStartYear)
    case None => 0
    case Some(i) => employeesPerYear[i].employees
  }

  /**
   * `calculateTotalHires`: the left fold `total + newHires` from 0. When no
   * year's hires are negative, neither is the total.
   */
  function TotalHires(newHiresPerYear: seq<YearNewHires>): (t: int)
    ensures (forall i :: 0 <= i < |newHiresPerYear| ==> newHiresPerYear[i].newHires >= 0) ==> t >= 0
  {
    if |newHiresPerYear| == 0 then 0
    else TotalHires(newHiresPerYear[..|newHiresPerYear| - 1]) + newHiresPerYear[|newHiresPerYear| - 1].newHires
  }

  function TotalLeaving(leaving: seq<YearLeaving>): int {
    if |leaving| == 0 then 0
    else TotalLeaving(leaving[..|leaving| - 1]) + leaving[|leaving| - 1].leavingEmployees
  }

  /** A sum of non-negative hire counts is non-negative and bounds every entry. */
  lemma {:induction false} TotalHiresBounds(h: seq<YearNewHires>)
    requires forall i :: 0 <= i < |h| ==> h[i].newHires >= 0
    ensures TotalHires(h) >= 0
    ensures forall i :: 0 <= i < |h| ==> h[i].newHires <= TotalHires(h)
  {
    if |h| > 0 {
      var init := h[..|h| - 1];
      TotalHiresBounds(init);
      assert forall i :: 0 <= i < |init| ==> init[i] == h[i];
    }
  }

  /**
   * Telescoping over the projection: the hires of the first `k` years cover the
   * headcount growth from year 0 to year `k` plus the leavers of those years.
   */
  lemma {:induction false} HiresCoverTotalGrowth(employeesPerYear: seq<YearEmployees>, leaving: seq<YearLeaving>, k: nat)
    requires |employeesPerYear| >= |leaving|
    requires k < |leaving|
    ensures TotalHires(NewHiresPerYear(employeesPerYear, leaving)[..k])
            >= employeesPerYear[k].employees - employeesPerYear[0].employees + TotalLeaving(leaving[..k])
  {
    var r := NewHiresPerYear(employeesPerYear, leaving);
    if k > 0 {
      HiresCoverTotalGrowth(employeesPerYear, leaving, k - 1);
      assert r[..k][..k - 1] == r[..k - 1];
      assert leaving[..k][..k - 1] == leaving[..k - 1];
      HiresCoverGrowth(employeesPerYear, leaving, k - 1);
    }
  }
}
