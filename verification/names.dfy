/**
 * Sex, names and e-mail of generated employees. Random numbers from
 * `Math.random()` are parameters in [0, 1); the name lists come from reference
 * data rows, modelled as sequences of text cells.
 */
module Names {
  import opened Wrappers
  import opened Records
  import opened Numeric

  const Male := "Male"
  const Female := "Female"
  const EmailDomain := "@company.com"

  /** `calculateIndividualGender`: "Male" when the draw is at most 0.5, otherwise "Female". */
  function IndividualGender(employeeID: int, u: real): (r: GenderRecord)
    ensures r.employeeID == employeeID
    ensures r.gender == Male || r.gender == Female
    ensures r.gender == Male <==> u <= 0.5
  {
    GenderRecord(employeeID, if u <= 0.5 then Male else Female)
  }

  /** `getRandomName`: the name at the drawn index, always one of the names. */
  function RandomName(names: seq<string>, u: real): (r: string)
    requires |names| > 0 && 0.0 <= u < 1.0
    ensures r in names
    ensures r == names[RandomIndex(|names|, u)]
  {
    names[RandomIndex(|names|, u)]
  }

  predicate Draws(us: seq<real>) {
    forall k :: 0 <= k < |us| ==> 0.0 <= us[k] < 1.0
  }

  /**
   * `getUniqueName` over a finite stream of draws: the first drawn name that
   * differs from `firstName` (which may be undefined, matching no name), or
   * None when the stream ends first.
   */
  function UniqueName(names: seq<string>, firstName: Option<string>, us: seq<real>): (r: Option<string>)
    requires |names| > 0 && Draws(us)
    ensures r.Some? ==> r.value in names && firstName != Some(r.value)
    ensures r.None? <==> forall k :: 0 <= k < |us| ==> Some(names[RandomIndex(|names|, us[k])]) == firstName
    ensures r.Some? ==> exists k :: FirstAccepted(names, firstName, us, k) && r.value == names[RandomIndex(|names|, us[k])]
  {
    if |us| == 0 then None
    else
      var candidate := names[RandomIndex(|names|, us[0])];
      if Some(candidate) == firstName then
        var r := UniqueName(names, firstName, us[1..]);
        assert forall k :: 1 <= k < |us| ==> us[k] == us[1..][k - 1];
        if r.Some? then
          var k :| FirstAccepted(names, firstName, us[1..], k) && r.value == names[RandomIndex(|names|, us[1..][k])];
          assert FirstAccepted(names, firstName, us, k + 1);
          r
        else r
      else
        assert FirstAccepted(names, firstName, us, 0);
        Some(candidate)
  }

  /**
   * Draw `k` is the first one whose name differs from `firstName`: every
   * earlier draw hit the first name.
   */
  predicate FirstAccepted(names: seq<string>, firstName: Option<string>, us: seq<real>, k: int)
    requires |names| > 0 && Draws(us)
  {
    && 0 <= k < |us|
    && Some(names[RandomIndex(|names|, us[k])]) != firstName
    && forall j :: 0 <= j < k ==> Some(names[RandomIndex(|names|, us[j])]) == firstName
  }

  /** When every name equals `firstName`, no stream of draws ever ends the loop. */
  lemma UniqueNameNeverFound(names: seq<string>, firstName: string, us: seq<real>)
    requires |names| > 0 && Draws(us)
    requires forall i :: 0 <= i < |names| ==> names[i] == firstName
    ensures UniqueName(names, Some(firstName), us).None?
  {
  }

  /** `item[column]` of every reference data row. */
  function Column(rows: seq<seq<string>>, column: nat): (r: seq<string>)
    requires forall i :: 0 <= i < |rows| ==> column < |rows[i]|
    ensures |r| == |rows| && forall i :: 0 <= i < |rows| ==> r[i] == rows[i][column]
  {
    seq(|rows|, i requires 0 <= i < |rows| => rows[i][column])
  }

  /** The first name at position `i`, none when there is no record there. */
  function FirstNameAt(firstNames: seq<FirstName>, i: int): Option<string> {
    if 0 <= i < |firstNames| then Some(firstNames[i].firstName) else None
  }

  predicate NameRows(rows: seq<seq<string>>, column: nat) {
    forall i :: 0 <= i < |rows| ==> column < |rows[i]|
  }

  /** The second column of the male rows for "Male", and of the female rows otherwise. */
  function NamesFor(gender: GenderRecord, maleRows: seq<seq<string>>, femaleRows: seq<seq<string>>): seq<string>
    requires NameRows(maleRows, 1) && NameRows(femaleRows, 1)
  {
    Column(if gender.gender == Male then maleRows else femaleRows, 1)
  }

  /**
   * The criterion can be applied to every record: to the names of its gender,
   * the first name at its position and the random draw of that record.
   */
  ghost predicate CriterionApplies<D>(genders: seq<GenderRecord>, firstNames: seq<FirstName>,
                                maleRows: seq<seq<string>>, femaleRows: seq<seq<string>>,
                                criterion: (seq<string>, Option<string>, D) --> string, draws: seq<D>)
    requires NameRows(maleRows, 1) && NameRows(femaleRows, 1) && |draws| == |genders|
  {
    forall i :: 0 <= i < |genders| ==>
      criterion.requires(NamesFor(genders[i], maleRows, femaleRows), FirstNameAt(firstNames, i), draws[i])
  }

  /**
   * `calculateNames`: one name per gender record, with its employee ID, chosen
   * by `criterion` from the names of the record's gender. The criterion draws
   * afresh for every record: the `i`-th call is given the `i`-th draw.
   */
  function CalculateNames<D>(genders: seq<GenderRecord>, firstNames: seq<FirstName>,
                             maleRows: seq<seq<string>>, femaleRows: seq<seq<string>>,
                             criterion: (seq<string>, Option<string>, D) --> string, draws: seq<D>): (r: seq<Name>)
    requires NameRows(maleRows, 1) && NameRows(femaleRows, 1) && |draws| == |genders|
    requires CriterionApplies(genders, firstNames, maleRows, femaleRows, criterion, draws)
    ensures |r| == |genders|
    ensures forall i :: 0 <= i < |r| ==> r[i].employeeID == genders[i].employeeID
    ensures forall i :: 0 <= i < |r| ==>
              r[i].name == criterion(NamesFor(genders[i], maleRows, femaleRows), FirstNameAt(firstNames, i), draws[i])
  {
    seq(|genders|, i requires 0 <= i < |genders| =>
      Name(genders[i].employeeID, criterion(NamesFor(genders[i], maleRows, femaleRows), FirstNameAt(firstNames, i), draws[i])))
  }

  /**
   * With a criterion that picks from the list it is given, every name comes
   * from the list of the employee's gender: the male list exactly when the
   * gender is "Male".
   */
  lemma NamesFollowGender<D>(genders: seq<GenderRecord>, firstNames: seq<FirstName>,
                             maleRows: seq<seq<string>>, femaleRows: seq<seq<string>>,
                             criterion: (seq<string>, Option<string>, D) --> string, draws: seq<D>, i: int)
    requires NameRows(maleRows, 1) && NameRows(femaleRows, 1) && |draws| == |genders|
    requires CriterionApplies(genders, firstNames, maleRows, femaleRows, criterion, draws)
    requires forall names, first, d :: |names| > 0 && criterion.requires(names, first, d) ==> criterion(names, first, d) in names
    requires |maleRows| > 0 && |femaleRows| > 0
    requires 0 <= i < |genders|
    ensures genders[i].gender == Male ==>
              CalculateNames(genders, firstNames, maleRows, femaleRows, criterion, draws)[i].name in Column(maleRows, 1)
    ensures genders[i].gender != Male ==>
              CalculateNames(genders, firstNames, maleRows, femaleRows, criterion, draws)[i].name in Column(femaleRows, 1)
  {
    var names := NamesFor(genders[i], maleRows, femaleRows);
    assert |names| > 0;
    assert criterion(names, FirstNameAt(firstNames, i), draws[i]) in names;
  }

  /** `getRandomName` as a criterion: it ignores the first name and uses its own draw. */
  function RandomCriterion(names: seq<string>, first: Option<string>, u: real): (r: string)
    requires |names| > 0 && 0.0 <= u < 1.0
    ensures r in names
  {
    RandomName(names, u)
  }

  /**
   * `calculateNames(genders, [], getRandomName)`: the `i`-th employee gets the
   * name at `floor(u_i * length)` of the list of its gender, so records of one
   * gender with different draws can get different names.
   */
  lemma RandomNamesPerRecord(genders: seq<GenderRecord>, firstNames: seq<FirstName>,
                             maleRows: seq<seq<string>>, femaleRows: seq<seq<string>>, us: seq<real>, i: int)
    requires NameRows(maleRows, 1) && NameRows(femaleRows, 1) && |us| == |genders| && Draws(us)
    requires |maleRows| > 0 && |femaleRows| > 0
    requires 0 <= i < |genders|
    ensures CriterionApplies(genders, firstNames, maleRows, femaleRows, RandomCriterion, us)
    ensures var rows := if genders[i].gender == Male then maleRows else femaleRows;
            CalculateNames(genders, firstNames, maleRows, femaleRows, RandomCriterion, us)[i].name
              == rows[RandomIndex(|rows|, us[i])][1]
  {
    forall k | 0 <= k < |genders|
      ensures RandomCriterion.requires(NamesFor(genders[k], maleRows, femaleRows), FirstNameAt(firstNames, k), us[k])
    {
      assert |NamesFor(genders[k], maleRows, femaleRows)| > 0;
    }
  }

  /**
   * `getUniqueName` as a criterion for middle names, over a finite stream of
   * draws per record that is long enough to find a name.
   */
  function UniqueCriterion(names: seq<string>, first: Option<string>, us: seq<real>): (r: string)
    requires |names| > 0 && Draws(us) && UniqueName(names, first, us).Some?
    ensures r in names && first != Some(r)
    ensures exists k :: FirstAccepted(names, first, us, k) && r == names[RandomIndex(|names|, us[k])]
  {
    UniqueName(names, first, us).value
  }

  /**
   * `calculateNames(genders, firstNames, getUniqueName)`: when every record's
   * stream of draws finds a name, no employee's middle name equals the first
   * name at the same position, it comes from the list of its gender, and it
   * is the name of the first draw of the record's stream that differs.
   */
  lemma MiddleNamesDiffer(genders: seq<GenderRecord>, firstNames: seq<FirstName>,
                          maleRows: seq<seq<string>>, femaleRows: seq<seq<string>>, streams: seq<seq<real>>, i: int)
    requires NameRows(maleRows, 1) && NameRows(femaleRows, 1) && |streams| == |genders|
    requires |maleRows| > 0 && |femaleRows| > 0
    requires CriterionApplies(genders, firstNames, maleRows, femaleRows, UniqueCriterion, streams)
    requires 0 <= i < |genders|
    ensures var r := CalculateNames(genders, firstNames, maleRows, femaleRows, UniqueCriterion, streams);
            var names := NamesFor(genders[i], maleRows, femaleRows);
            && r[i].name in names && FirstNameAt(firstNames, i) != Some(r[i].name)
            && exists k :: FirstAccepted(names, FirstNameAt(firstNames, i), streams[i], k)
                           && r[i].name == names[RandomIndex(|names|, streams[i][k])]
  {
  }

  /**
   * `calculateName`: the name chosen by `criterion`, with its own draw, from
   * the first column of the rows.
   */
  function CalculateName<D>(employeeID: int, rows: seq<seq<string>>, criterion: (seq<string>, D) --> string, draw: D): (r: Name)
    requires NameRows(rows, 0) && criterion.requires(Column(rows, 0), draw)
    ensures r.employeeID == employeeID
    ensures r.name == criterion(Column(rows, 0), draw)
  {
    Name(employeeID, criterion(Column(rows, 0), draw))
  }

  /**
   * `calculateName(id, lastNamesData, getRandomName)`: the employee keeps its
   * ID and gets the first cell of the row at `floor(u * length)`, one of the
   * listed last names.
   */
  lemma RandomLastName(employeeID: int, rows: seq<seq<string>>, u: real)
    requires NameRows(rows, 0) && |rows| > 0 && 0.0 <= u < 1.0
    ensures var r := CalculateName(employeeID, rows, RandomName, u);
            r.employeeID == employeeID && r.name == rows[RandomIndex(|rows|, u)][0] && r.name in Column(rows, 0)
  {
  }

  /** ASCII `toLowerCase` of one character. */
  function LowerChar(c: char): (d: char)
    ensures !('A' <= d <= 'Z')
    ensures 'A' <= c <= 'Z' ==> d as int == c as int + 32
    ensures !('A' <= c <= 'Z') ==> d == c
  {
    if 'A' <= c <= 'Z' then (c as int + 32) as char else c
  }

  /** ASCII `toLowerCase`. */
  function Lower(s: string): (r: string)
    ensures |r| == |s|
    ensures forall i :: 0 <= i < |s| ==> r[i] == LowerChar(s[i])
  {
    if |s| == 0 then [] else [LowerChar(s[0])] + Lower(s[1..])
  }

  /** Lowercasing distributes over concatenation. */
  lemma LowerAppend(a: string, b: string)
    ensures Lower(a + b) == Lower(a) + Lower(b)
  {
    forall i | 0 <= i < |a + b|
      ensures Lower(a + b)[i] == (Lower(a) + Lower(b))[i]
    {
      if i < |a| {
        assert (a + b)[i] == a[i];
      } else {
        assert (a + b)[i] == b[i - |a|];
      }
    }
  }

  /** Lowercasing twice is lowercasing once. */
  lemma LowerIdempotent(s: string)
    ensures Lower(Lower(s)) == Lower(s)
  {
  }

  lemma LowerOfAddress(a: string, b: string, c: string)
    ensures Lower(a + "." + b + "." + c + EmailDomain)
         == Lower(a) + "." + Lower(b) + "." + Lower(c) + EmailDomain
  {
    var dot := ".";
    assert Lower(dot) == dot;
    assert Lower(EmailDomain) == EmailDomain by {
      assert forall i :: 0 <= i < |EmailDomain| ==> LowerChar(EmailDomain[i]) == EmailDomain[i];
    }
    var s1 := a + dot;
    LowerAppend(a, dot);
    var s2 := s1 + b;
    LowerAppend(s1, b);
    var s3 := s2 + dot;
    LowerAppend(s2, dot);
    var s4 := s3 + c;
    LowerAppend(s3, c);
    LowerAppend(s4, EmailDomain);
  }

  /**
   * `calculateIndividualEmail`: `first.middle.last@company.com` in lower case,
   * using the whole middle name.
   */
  function IndividualEmail(employeeID: int, firstName: string, middleName: string, lastName: string): (r: Email)
    ensures r.employeeID == employeeID
    ensures r.email == Lower(firstName) + "." + Lower(middleName) + "." + Lower(lastName) + EmailDomain
    ensures Lower(r.email) == r.email
  {
    var address := firstName + "." + middleName + "." + lastName + EmailDomain;
    LowerOfAddress(firstName, middleName, lastName);
    LowerIdempotent(address);
    Email(employeeID, Lower(address))
  }
}
