# Synthetic employee generator — a Dafny model of its core

This project models the computational core of a synthetic-employee
generator. The generator projects a company's yearly headcount from a
population series. It then schedules hire dates, draws tenures and ages under
acceptance conditions, picks names and builds e-mail addresses. It also
samples weighted outcomes with a Walker/Vose alias table. On the server side
it chooses the next SQLite database file name, and it builds the bulk INSERT
and the limited SELECT it sends to SQLite.

Conventions of the model:

- Dates are integer day numbers. Day 0 is 1970-01-01, a Thursday, so the
  weekday of day `d` is `(d + 4) % 7` with Monday = 1. JavaScript's `setDate`
  overflow is plain integer addition.
- `Math.round` is `floor(x + 1/2)`. `Math.ceil` is modelled as ceiling, and
  truncation toward zero as `Trunc`.
- `Math.log` is a function parameter `ln`. Every `Math.random()` value is a
  parameter in `[0, 1)`.
- A rejection loop is modelled by the condition its accepted draw
  satisfies, given as a precondition. The exception is `getUniqueName`,
  which runs over a finite stream of draws.
- Arithmetic is exact: `int` and `real`.

What the code does, stated plainly:

- Leavers are a flat 15 % of each year's headcount.
- Hires are spread evenly over 26 two-week periods, so `26 * round(n / 26)`
  of them are scheduled rather than `n`.
- The e-mail address uses the full middle name.
- The sampler validates none of its input.

Modules:

| file | module | what it holds |
|---|---|---|
| wrappers.dfy | `Wrappers` | `Option`, `Result` |
| numeric.dfy | `Numeric` | rounding, the random index `floor(u * n)`, arithmetic lemmas |
| sequences.dfy | `Sequences` | `FindFirst`, the model of `Array.prototype.find` |
| calendar.dfy | `Calendar` | weekdays, January 1 of a year, `firstMondayOfYear`, `getPreviousMonday` |
| records.dfy | `Records` | the records passed between the steps; the `Employee` row |
| projection.dfy | `Projection` | headcount, leavers, new hires, lookup and total |
| hiring.dfy | `Hiring` | `calculateStartDatesForYear` |
| tenure.dfy | `Tenure` | initial start dates, and end and birth dates under their acceptance conditions |
| names.dfy | `Names` | gender, name pickers, `calculateNames`, `calculateName`, e-mail |
| alias.dfy | `Alias` | `WeightedRandomSelector`: table construction, constructor, draw |
| server.dfy | `Server` | `parseInt`, next database name, bulk INSERT, SELECT with LIMIT |

## Model

| member | source | states |
|---|---|---|
| Projection.PopulationIn | client/src/utils/employeeData.ts:63 | the population of the first entry for the year, and 0 when no entry has that year |
| Projection.EmployeesPerYear | client/src/utils/employeeData.ts:61-74 | fails exactly when the current year's population is missing or 0 (the source divides by it); otherwise one entry per input entry, same years in the same order, each `round(population * numEmployees / populationThisYear)` |
| Projection.Scaled | client/src/utils/employeeData.ts:64-69 | the integer nearest to `population * numEmployees / populationThisYear`, halves rounded up |
| Projection.CurrentYearProjectsHeadcount | client/src/utils/employeeData.ts:61-74 | under exact arithmetic the current year's entry equals `numEmployees` |
| Projection.ProjectionMonotone | client/src/utils/employeeData.ts:66-71 | a larger population never projects fewer employees |
| Projection.LeavingPerYear | client/src/utils/employeeData.ts:136-143 | one entry per year, same years, `round(0.15 * employees)`, between 0 and the headcount for a non-negative headcount |
| Projection.NewHiresPerYear | client/src/utils/employeeData.ts:198-216 | same length and years as the leaving list; last entry 0; every other entry `max(emp[i+1] - emp[i] + leaving[i], 0)`, so none is negative |
| Projection.HiresCoverGrowth | client/src/utils/employeeData.ts:207-209 | headcount minus leavers plus hires reaches at least next year's headcount |
| Projection.TargetStartYearEmployees | client/src/utils/employeeData.ts:242-246 | the headcount of the first entry for the year, 0 when there is none |
| Projection.TotalHires | client/src/utils/employeeData.ts:270-274 | the fold of the hires from 0 is non-negative when no year is negative |
| Projection.TotalHiresBounds | client/src/utils/employeeData.ts:270-274 | with non-negative entries the total is non-negative and at least every single year's hires |
| Projection.HiresCoverTotalGrowth | client/src/utils/employeeData.ts:198-216 | summed over the first `k` years, the hires cover the headcount growth plus the leavers (telescoping) |
| Calendar.YearLength | client/src/utils/employeeData.ts:463 | January 1 of consecutive years are 365 or 366 days apart |
| Calendar.MondayOnOrAfter | client/src/utils/employeeData.ts:466-468 | the first Monday on or after a day: 0 to 6 days later, and no earlier day in between is a Monday |
| Calendar.FirstMondayOfYear | client/src/utils/employeeData.ts:461-472 | a Monday 0 to 6 days after January 1, and no earlier day of that range is a Monday |
| Calendar.PreviousMonday | client/src/utils/employeeData.ts:781-791 | a Monday 0 to 6 days on or before the input, the identity on Mondays, with no Monday strictly between it and the input |
| Calendar.PreviousMondayMonotone | client/src/utils/employeeData.ts:781-791 | a later day never has an earlier previous Monday |
| Calendar.PreviousMondayIdempotent | client/src/utils/employeeData.ts:781-791 | snapping twice is snapping once |
| Hiring.NewHiresIn | client/src/utils/employeeData.ts:418 | the new hires of the first entry for the year, 0 when there is none |
| Hiring.HiresPerPeriod | client/src/utils/employeeData.ts:426 | the period count `k` has `26k - 13 <= n < 26k + 13`, and is non-negative for `n >= 0` |
| Hiring.PushHires | client/src/utils/employeeData.ts:435-440 | the inner loop appends `k` entries with consecutive IDs `len + 1, …` on the given date and keeps the prefix |
| Hiring.HirePeriods | client/src/utils/employeeData.ts:429-444 | the outer loop appends `(26 - j) * perPeriod` entries, keeps the prefix, and dates the entry in period `q` at `date + 14q` |
| Hiring.PeriodIndexIsQuotient | client/src/utils/employeeData.ts:429-444 | the period of the `a`-th appended entry is `a / perPeriod` |
| Hiring.StartDatesForYear | client/src/utils/employeeData.ts:412-448 | unchanged when the year is absent or has 0 hires; otherwise appends exactly `26 * round(n / 26)` entries, keeps the prefix, numbers new IDs from `len + 1`, and dates period `j` at `firstMonday + 14j` |
| Hiring.ScheduledCountNearRequested | client/src/utils/employeeData.ts:426 | for `n >= 0`, `26 * round(n / 26)` is within 13 of `n`, and 0 for `1 <= n <= 12` |
| Hiring.AppendedDatesAreMondaysInYear | client/src/utils/employeeData.ts:429-444 | every appended date is a Monday inside the target year, and later entries never start earlier |
| Tenure.InitialYearsEmployed | client/src/utils/employeeData.ts:310-315 | the formula `(halfLife / 0.693) * ln(initialEmployees / employeeID) + 0.05` when it is at most 30, and exactly 30 when it exceeds 30 |
| Tenure.InitialStartDate | client/src/utils/employeeData.ts:307-334 | keeps the ID, is a Monday, lies 0 to 6 days before December 30 of `targetStartYear - 1` minus the days of service, and never more than 10964 days before that anchor |
| Tenure.InitialStartDatesOrdered | client/src/utils/employeeData.ts:307-334 | with a monotone logarithm and a non-negative half-life, a lower ID never starts later |
| Tenure.YearsBeforeStart | client/src/utils/employeeData.ts:368-372 | the whole number `n` of 365-day years, rounded up, between the start date and January 1 of the start year: `(n - 1) * 365 < distance <= n * 365`, so `n >= 0` and `n = 0` only for the same day |
| Tenure.InitialEndDate | client/src/utils/employeeData.ts:365-395 | for a draw the loop accepts (`diffYears <= years <= 40`): keeps the ID, ends `round(years * 365.25)` days after the start (at most 14610), and still employed on January 1 of the start year |
| Tenure.IndividualEndDate | client/src/utils/employeeData.ts:487-506 | for a draw the loop accepts (at most 35 years): keeps the ID, ends `round(years * 365.25)` days after the start (at most 12784), and not before the start when the draw is non-negative |
| Tenure.IndividualBirthYear | client/src/utils/employeeData.ts:539-559 | for an age the loop accepts: keeps the ID, the birth year is the start year minus the age truncated toward zero, at least 18 in the start year and at most 65 in the end year |
| Names.IndividualGender | client/src/utils/employeeData.ts:588-594 | keeps the ID; `'Male'` exactly when the draw is at most 0.5, else `'Female'` |
| Names.RandomName | client/src/utils/employeeData.ts:682-685 | for a non-empty list and a draw in `[0, 1)` the index `floor(u * len)` is in bounds and the name is in the list |
| Names.UniqueName | client/src/utils/employeeData.ts:695-703 | a returned name is the one picked by the first draw that does not hit the first name, every earlier draw hitting it; nothing is returned exactly when every draw hits the first name |
| Names.UniqueNameNeverFound | client/src/utils/employeeData.ts:698-701 | if every name equals the first name no draw is ever accepted (the source loops forever) |
| Names.CalculateNames | client/src/utils/employeeData.ts:635-649 | one name per gender record, same IDs; record `i` gets the criterion applied to the second column of its gender's rows, the first name at position `i` (if any) and its own draw `i` |
| Names.NamesFollowGender | client/src/utils/employeeData.ts:637-644 | with a criterion that picks from its list, a male record gets a male name and any other record a female name |
| Names.RandomCriterion | client/src/utils/employeeData.ts:682-685 | `getRandomName` passed as a criterion: ignores the first name, returns a name of the list |
| Names.RandomNamesPerRecord | client/src/utils/employeeData.ts:635-649 | with `getRandomName` each record `i` gets the name at `floor(u_i * length)` of its gender's list, so the draw differs per record |
| Names.UniqueCriterion | client/src/utils/employeeData.ts:695-703 | `getUniqueName` passed as a criterion, for a stream of draws that finds a name: the name picked by the first draw that misses the first name |
| Names.MiddleNamesDiffer | client/src/utils/employeeData.ts:635-649 | with `getUniqueName` every middle name is from the list of the record's gender, differs from the first name at the same position, and is picked by the first draw of that record's stream that misses it |
| Names.CalculateName | client/src/utils/employeeData.ts:660-669 | keeps the ID and applies the criterion, with its own draw, to the first column of the rows |
| Names.RandomLastName | client/src/utils/employeeData.ts:660-685 | `calculateName` with `getRandomName`: keeps the ID, and the name is the first cell of the row at `floor(u * length)`, one of the listed names |
| Names.Lower | client/src/utils/employeeData.ts:735 | ASCII lower-casing, character by character, keeping the length |
| Names.LowerAppend | client/src/utils/employeeData.ts:735 | lower-casing distributes over concatenation |
| Names.IndividualEmail | client/src/utils/employeeData.ts:732-739 | keeps the ID; the address is the lower-cased `first.middle.last` followed by `@company.com`, and lower-casing it again changes nothing |
| Alias.NormalizedSum | client/src/utils/generateLUTs.ts:15-16 | the normalized weights `w * n / sum` sum to `n` |
| Alias.Classify | client/src/utils/generateLUTs.ts:22-28 | every index lands in exactly one worklist, the small one exactly when its normalized weight is below 1; each list is in increasing index order |
| Alias.PairWorklists | client/src/utils/generateLUTs.ts:30-41 | a pairing round keeps small weights in `[0, 1)`, large weights at least 1, and both lists free of repeats |
| Alias.PairPartition | client/src/utils/generateLUTs.ts:30-41 | after a pairing round an index still has no entry exactly when it is on a worklist |
| Alias.PairEntries | client/src/utils/generateLUTs.ts:34 | the small index gets a valid entry: its current weight as probability and the large index as alias |
| Alias.PairConserved | client/src/utils/generateLUTs.ts:34-35 | a pairing round keeps the pending weights summing to their count |
| Alias.PairMass | client/src/utils/generateLUTs.ts:34-35 | a pairing round keeps every outcome's own mass plus what its aliases pass to it equal to its normalized weight |
| Alias.PairingEnd | client/src/utils/generateLUTs.ts:43-51 | when the pairing loop stops, no small index is left, and every large index left weighs exactly 1 |
| Alias.SettleStep | client/src/utils/generateLUTs.ts:43-46 | giving a leftover large index probability 1 and itself as alias keeps the invariant |
| Alias.BuildAliasTable | client/src/utils/generateLUTs.ts:14-53 | one valid entry per weight (alias in range, probability in `[0, 1]`, self-alias exactly at probability 1), and for every `i`, `(prob[i] + sum of (1 - prob[j]) over j != i aliased to i) / n == w_i / sum` |
| Alias.Weights | client/src/utils/generateLUTs.ts:9 | the weight column of the rows, in row order |
| Alias.NewSelector | client/src/utils/generateLUTs.ts:8-12 | `outcomes` has the length and order of the rows, `outcomes[i] = data[i][outcomeIndex]`, and the table represents the weight column |
| Alias.DrawIndex | client/src/utils/generateLUTs.ts:63-71 | slot `floor(u1 * n)`; kept when `u2 < prob`, otherwise its alias; in range, and always an outcome with positive chance given that slot |
| Alias.DrawRandomOutcome | client/src/utils/generateLUTs.ts:63-74 | returns the outcome of the drawn index, always an element of `outcomes` |
| Alias.ChanceIsMass | client/src/utils/generateLUTs.ts:63-74 | summed over all slots, the chance that a draw yields `k` is `k`'s own probability plus what its aliases pass to it |
| Alias.DrawDistribution | client/src/utils/generateLUTs.ts:63-74 | with the table of `NewSelector`, a draw yields outcome `k` with chance `w_k / sum` |
| Alias.DrawnOutcomeHasWeight | client/src/utils/generateLUTs.ts:63-74 | whatever the two random numbers, the drawn outcome has a positive weight |
| Server.TrimStart | server/server.js:40 | `parseInt` skips exactly the leading white space |
| Server.DigitPrefix | server/server.js:40 | the longest prefix of digits in the radix |
| Server.ParseDecimal | server/server.js:40 | `parseInt(s, 10)` is NaN exactly when no digit follows the optional sign |
| Server.ParseIntAuto | server/server.js:146 | `parseInt` without radix: after the sign, base 16 digits following a `0x`/`0X` prefix, and otherwise exactly `parseInt(s, 10)` |
| Server.HexRoundTrip | server/server.js:146 | `0x` followed by hexadecimal digits and a non-digit reads as the digits' value in base 16; a bare `0x` is NaN |
| Server.ToDecimal | server/server.js:45 | the template literal `${n}` writes decimal digits with no leading zero |
| Server.DecimalRoundTrip | server/server.js:40-45 | `parseInt` reads back the number that `${n}` writes, whatever non-digit follows |
| Server.DatabaseFiles | server/server.js:36 | exactly the listed names that start with `database-` and end with `.db` |
| Server.DatabaseFileLength | server/server.js:36-40 | in a matching name the prefix and the suffix do not overlap |
| Server.MaxNumber | server/server.js:39-42 | the reduction starts at 0, so it is never negative |
| Server.MaxNumberBounds | server/server.js:39-42 | every number that parses is at most the maximum; NaN entries are skipped |
| Server.MaxNumberAttained | server/server.js:39-42 | the maximum is 0 or the number of some listed file |
| Server.NextDatabaseName | server/server.js:44-45 | computes only; Server.NextDatabaseIsNew states that its result matches the filter, reads back as the maximum plus one and is not listed |
| Server.NameNumber | server/server.js:45 | `database-${n}.db` matches the filter and its middle parses back as `n` |
| Server.NextDatabaseIsNew | server/server.js:36-45 | the new name matches the filter, reads back as the maximum plus one, and is none of the listed files |
| Server.FirstDatabaseName | server/server.js:39-45 | with no positive number listed the new file is `database-1.db` |
| Server.Placeholders | server/server.js:121 | one 14-mark group per employee joined by commas: group `j` sits at offset `30j`, a comma follows every group but the last, `14 * k` marks, `30k - 1` characters |
| Server.InsertSql | server/server.js:121-122 | starts with the INSERT head naming the 14 columns, and the rest is exactly the placeholder list for `k` employees, so it holds `14 * k` question marks |
| Server.Row | server/server.js:125-129 | 14 parameters per employee; Server.RowFollowsColumns ties each one to its column |
| Server.RowFollowsColumns | server/server.js:122-129 | the `i`-th parameter is the employee's property named by the `i`-th column of the INSERT, in order |
| Server.Params | server/server.js:125-129 | `14 * |batch|` parameters; those of employee `j` are at `14j .. 14j + 14`, in batch order |
| Server.InsertBindsEveryPlaceholder | server/server.js:121-129 | the INSERT statement has exactly as many `?` as there are parameters |
| Server.ReadQuery | server/server.js:146-153 | a `LIMIT ?` with the parsed value is appended exactly when the limit is present, non-empty and parses to a non-zero number; otherwise no parameters |
| Server.ReadBindsEveryPlaceholder | server/server.js:146-153 | the SELECT has exactly as many `?` as there are parameters |
| Server.DecimalLimitBound | server/server.js:146-153 | a positive decimal limit is bound as that number |

## Left out

- The Box–Muller `getRandom` and the transcendental `Math.log`: floating point. The logarithm is a parameter. The drawn years and ages are inputs that satisfy the acceptance condition of their rejection loop.
- Termination of the rejection loops in `calculateInitialEndDate`, `calculateIndividualEndDate` and `calculateIndividualBirthDate`. Only the accepted draw is modelled.
- `getUniqueName` is modelled over a finite list of draws. `None` means the list ran out, which is how its non-termination is exhibited.
- `new Date()`, the local time zone and the `Date` API. The current year and the day numbers are parameters. The project counts whole calendar days. The source's `setDate`, `getDate` and `getDay` (client/src/utils/employeeData.ts:324, 388, 443, 467, 499, 787) also work on local calendar days, so they agree with integer day numbers. Only the `getTime` difference at client/src/utils/employeeData.ts:371 sees local time; the next line covers it.
- Calendar.FirstMondayOfYear: uses January 1 of year `y` for every `y`. The `Date` constructor reads a year from 0 to 99 as 1900 to 1999, so for those years the source's `firstMondayOfYear`, its December 30 in `calculateInitialStartDate` and its January 1 in `calculateInitialEndDate` lie in another century. Calendar.December30, Tenure.InitialStartDate and Tenure.YearsBeforeStart share this limit.
- Tenure.IndividualBirthYear: works at year granularity. `setFullYear` with a fractional age is taken to truncate the year toward zero, and the month and day are dropped.
- Tenure.InitialTenureAccepted and Tenure.YearsBeforeStart: the distance to January 1 is counted in whole days. The source subtracts `getTime` values in milliseconds, which can be off by a daylight-saving hour from a whole number of days. The ceiling can then differ only when the whole-day distance is an exact multiple of 365 days.
- Projection.EmployeesPerYear: models the division by a missing or zero current-year population as a failure result. The source instead produces `Infinity` or `NaN` counts.
- Projection.NewHiresPerYear: requires the headcount list to be at least as long as the leaving list (when there are two or more years). Otherwise the source reads `.employees` of `undefined` and throws.
- Alias.BuildAliasTable: requires at least one weight, no negative weight and a positive sum. The source validates nothing. An empty list gives an empty table, and a zero sum gives NaN weights.
- Alias.BuildAliasTable: the third loop, which settles leftover small indices, is not modelled. Under exact arithmetic it never runs (Alias.PairingEnd). It exists only for floating-point rounding.
- Alias.DrawIndex: the random values are parameters. The chance "`u2 < prob`" is stated as the slot's probability, not derived from a measure on `[0, 1)`.
- Names.Lower: ASCII only. Unicode case mapping of `toLowerCase` is not modelled.
- The JSON name and population data files are not part of this model. The name lists and rows are parameters.
- Server.ParseDecimal: integers are unbounded. `parseInt` of very long digit strings rounds to a double, and that rounding is not modelled.
- Server.ToDecimal: writes the decimal digits of any natural number. JavaScript's `${n}` does so only below 10^21, and from there on writes the exponent form (`1e+21`).
- Server.NextDatabaseIsNew: holds over unbounded integers. In the source `maxNumber + 1` is a double, and from 2^53 on it equals `maxNumber`, so a listing holding `database-9007199254740992.db` gets that same name back. Server.NextDatabaseName and Server.NameNumber share this limit.
- Server.ReadQuery: the query parameter is absent or one string. A repeated parameter, which Express delivers as an array, is not modelled.
- Server.IsSpace: lists the full ECMAScript WhiteSpace and LineTerminator set, including every Unicode category-Zs character.
- The filesystem, Express, SQLite, `fetch`, the `init.sql` script and the batching in `sendEmployeeDataToDatabase`. These are I/O.
- The React components and the client entry points. These are UI.
- `employeeGenerate.ts`, which does not compile. `employeeUtils.ts`, which is commented out.
