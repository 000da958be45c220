/**
 * The records passed between the generator's steps, and the `Employee` row
 * that the client sends to the server. Dates are day numbers (see `Calendar`).
 */
module Records {
  import opened Wrappers

  /** One employee's start date, keyed by employee ID. */
  datatype StartDate = StartDate(employeeID: int, startDate: int)

  /** One employee's end date, keyed by employee ID. */
  datatype EndDate = EndDate(employeeID: int, endDate: int)

  /** One employee's birth date, kept at year granularity. */
  datatype BirthYear = BirthYear(employeeID: int, birthYear: int)

  datatype GenderRecord = GenderRecord(employeeID: int, gender: string)
  datatype FirstName = FirstName(employeeID: int, firstName: string)
  datatype Name = Name(employeeID: int, name: string)
  datatype Email = Email(employeeID: int, email: string)

  /**
   * The `Employee` shape of the client's types. Timestamps are integers;
   * `EndDate` and `SupervisorID` may be null.
   */
  datatype Employee = Employee(
    ID: int,
    DOB: int,
    Sex: string,
    FirstName: string,
    MiddleName: string,
    LastName: string,
    Email: string,
    StartDate: int,
    EndDate: Option<int>,
    EducationLevel: string,
    YearsExperience: int,
    PositionID: int,
    BranchID: int,
    SupervisorID: Option<int>,
    Status: string)
}
