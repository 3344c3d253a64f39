/**
 * The entities of the service (CodeChallenge/Models): employees, the computed
 * reporting structure and compensation records.
 */
module Models {
  import opened Wrappers

  /** A 128-bit GUID; `EmptyGuid` is `Guid.Empty`. */
  newtype Guid = x: int | 0 <= x < 0x1_0000_0000_0000_0000_0000_0000_0000_0000

  const EmptyGuid: Guid := 0

  /**
   * An employee as a node of the reporting hierarchy. The hierarchy handed to the
   * report counter is a finite tree, so it is a value.
   */
  datatype Employee = Employee(
    employeeId: Guid,
    firstName: Option<string>,
    lastName: Option<string>,
    position: Option<string>,
    department: Option<string>,
    parentId: Option<Guid>,
    directReports: DirectReports)

  /**
   * The nullable `List<Employee>? DirectReports`: `NoList` is a null list; an entry
   * of a list may itself be null.
   */
  datatype DirectReports = NoList | ReportList(entries: seq<Option<Employee>>)

  /** The computed view: the root employee and the total number of reports below it. */
  datatype ReportingStructure = ReportingStructure(employee: Employee, numberOfReports: Option<int>)

  /**
   * An employee as a tracked entity: the seed loader rewrites `directReports` in
   * place, so that lists come to share the objects of the loaded list. The id is
   * never reassigned by the code modelled here.
   */
  class EmployeeEntity {
    const employeeId: Guid
    const firstName: Option<string>
    const lastName: Option<string>
    const position: Option<string>
    const department: Option<string>
    const parentId: Option<Guid>
    var directReports: Option<seq<EmployeeEntity?>>

    constructor (id: Guid, first: Option<string>, last: Option<string>,
                 position: Option<string>, department: Option<string>,
                 parentId: Option<Guid>, reports: Option<seq<EmployeeEntity?>>)
      ensures employeeId == id && firstName == first && lastName == last
      ensures this.position == position && this.department == department
      ensures this.parentId == parentId && directReports == reports
    {
      employeeId := id;
      firstName := first;
      lastName := last;
      this.position := position;
      this.department := department;
      this.parentId := parentId;
      directReports := reports;
    }
  }

  /** Salary (`decimal?`), carried as an opaque value: nothing here computes with it. */
  type Salary = real

  /** `DateTimeOffset`, carried as an opaque value. */
  datatype Timestamp = Timestamp(ticks: int, offsetMinutes: int)

  /** A compensation record; it belongs to the employee named by `employeeId`. */
  datatype Compensation = Compensation(
    compensationId: Guid,
    employeeId: Guid,
    salary: Option<Salary>,
    effectiveDate: Option<Timestamp>)
}
