/** Read-only projections of the store: the attendance and salary reports
    (order-preserving filter and map over all employees) and the
    department headcount records built from the GROUP BY query. */
module Reporting {
  import opened Wrappers
  import opened Entity
  import opened Repository

  datatype AttendanceReportDto = AttendanceReportDto(employeeId: int, employeeName: string, attendanceDays: int)

  /** salary is in cents, like the entity's. */
  datatype SalaryReportDto = SalaryReportDto(employeeId: int, employeeName: string, salary: int)

  /** A value of a department record: the department name or the count. */
  datatype Cell = StringValue(text: string) | LongValue(number: int)

  /** The two keys of every department record. */
  const DepartmentNameKey := "departmentName"
  const EmployeeCountKey := "employeeCount"

  /** Keeps, in order, the images of the elements that select maps to Some. */
  function FilterMap<T, U>(s: seq<T>, select: T -> Option<U>): (r: seq<U>)
    ensures |r| <= |s|
  {
    if |s| == 0 then []
    else
      match select(s[0])
      case Some(u) => [u] + FilterMap(s[1..], select)
      case None => FilterMap(s[1..], select)
  }

  lemma {:induction false} FilterMapAppend<T, U>(a: seq<T>, b: seq<T>, select: T -> Option<U>)
    ensures FilterMap(a + b, select) == FilterMap(a, select) + FilterMap(b, select)
  {
    if |a| > 0 {
      assert (a + b)[1..] == a[1..] + b;
      FilterMapAppend(a[1..], b, select);
    } else {
      assert a + b == b;
    }
  }

  lemma {:induction false} FilterMapMembers<T, U>(s: seq<T>, select: T -> Option<U>, u: U)
    ensures u in FilterMap(s, select) <==> exists i | 0 <= i < |s| :: select(s[i]) == Some(u)
  {
    if |s| > 0 {
      FilterMapMembers(s[1..], select, u);
      if u in FilterMap(s[1..], select) {
        var i :| 0 <= i < |s[1..]| && select(s[1..][i]) == Some(u);
        assert select(s[i + 1]) == Some(u);
      }
      if exists i | 0 <= i < |s| :: select(s[i]) == Some(u) {
        var i :| 0 <= i < |s| && select(s[i]) == Some(u);
        if i > 0 {
          assert select(s[1..][i - 1]) == Some(u);
        }
      }
    }
  }

  lemma FilterMapSingle<T, U>(x: T, select: T -> Option<U>)
    ensures FilterMap([x], select) == if select(x).Some? then [select(x).value] else []
  {
    assert [x][1..] == [];
  }

  /** The name shown in both reports. */
  function FullName(e: Employee): string {
    e.firstname + " " + e.lastname
  }

  predicate HasAttendance(e: Employee) {
    e.attendanceDays.Some? && e.attendanceDays.value > 0
  }

  predicate HasSalary(e: Employee) {
    e.salary.Some? && e.salary.value > 0
  }

  function AttendanceEntry(e: Employee): Option<AttendanceReportDto> {
    if HasAttendance(e) then Some(AttendanceReportDto(e.id, FullName(e), e.attendanceDays.value)) else None
  }

  function SalaryEntry(e: Employee): Option<SalaryReportDto> {
    if HasSalary(e) then Some(SalaryReportDto(e.id, FullName(e), e.salary.value)) else None
  }

  /** One entry per employee with a non-null, positive attendance. */
  function AttendanceReport(es: seq<Employee>): (report: seq<AttendanceReportDto>)
    ensures |report| <= |es|
  {
    FilterMap(es, AttendanceEntry)
  }

  /** One entry per employee with a non-null, positive salary. */
  function SalaryReport(es: seq<Employee>): (report: seq<SalaryReportDto>)
    ensures |report| <= |es|
  {
    FilterMap(es, SalaryEntry)
  }

  /** The attendance report holds exactly the entries of the employees with
      positive attendance, each as (id, "first last", days). */
  lemma AttendanceReportMembers(es: seq<Employee>, x: AttendanceReportDto)
    ensures x in AttendanceReport(es) <==>
      exists e | e in es :: HasAttendance(e) && x == AttendanceReportDto(e.id, FullName(e), e.attendanceDays.value)
  {
    FilterMapMembers(es, AttendanceEntry, x);
    if exists e | e in es :: HasAttendance(e) && x == AttendanceReportDto(e.id, FullName(e), e.attendanceDays.value) {
      var e :| e in es && HasAttendance(e) && x == AttendanceReportDto(e.id, FullName(e), e.attendanceDays.value);
      var i :| 0 <= i < |es| && es[i] == e;
      assert AttendanceEntry(es[i]) == Some(x);
    }
  }

  /** The report follows the store order: an employee's entry sits after the
      entries of those before it and before the entries of those after it. */
  lemma AttendanceReportOrder(before: seq<Employee>, e: Employee, after: seq<Employee>)
    ensures AttendanceReport(before + [e] + after) ==
      AttendanceReport(before)
      + (if HasAttendance(e) then [AttendanceReportDto(e.id, FullName(e), e.attendanceDays.value)] else [])
      + AttendanceReport(after)
  {
    FilterMapAppend(before + [e], after, AttendanceEntry);
    FilterMapAppend(before, [e], AttendanceEntry);
    FilterMapSingle(e, AttendanceEntry);
  }

  /** The salary report holds exactly the entries of the employees with a
      positive salary, each as (id, "first last", salary). */
  lemma SalaryReportMembers(es: seq<Employee>, x: SalaryReportDto)
    ensures x in SalaryReport(es) <==>
      exists e | e in es :: HasSalary(e) && x == SalaryReportDto(e.id, FullName(e), e.salary.value)
  {
    FilterMapMembers(es, SalaryEntry, x);
    if exists e | e in es :: HasSalary(e) && x == SalaryReportDto(e.id, FullName(e), e.salary.value) {
      var e :| e in es && HasSalary(e) && x == SalaryReportDto(e.id, FullName(e), e.salary.value);
      var i :| 0 <= i < |es| && es[i] == e;
      assert SalaryEntry(es[i]) == Some(x);
    }
  }

  /** The salary report follows the store order. */
  lemma SalaryReportOrder(before: seq<Employee>, e: Employee, after: seq<Employee>)
    ensures SalaryReport(before + [e] + after) ==
      SalaryReport(before)
      + (if HasSalary(e) then [SalaryReportDto(e.id, FullName(e), e.salary.value)] else [])
      + SalaryReport(after)
  {
    FilterMapAppend(before + [e], after, SalaryEntry);
    FilterMapAppend(before, [e], SalaryEntry);
    FilterMapSingle(e, SalaryEntry);
  }

  /** The record the loop builds from one raw row: exactly the two keys. */
  predicate IsRecordOf(record: map<string, Cell>, row: DepartmentRow) {
    && record.Keys == {DepartmentNameKey, EmployeeCountKey}
    && record[DepartmentNameKey] == StringValue(row.department)
    && record[EmployeeCountKey] == LongValue(row.count)
  }

  class ReportingServiceImplementation {
    const employeeRepository: EmployeeRepository

    constructor (employeeRepository: EmployeeRepository)
      ensures this.employeeRepository == employeeRepository
    {
      this.employeeRepository := employeeRepository;
    }

    /** The attendance report of all stored employees, in store order. */
    method GenerateAttendanceReport() returns (report: seq<AttendanceReportDto>)
      requires employeeRepository.Valid()
      ensures report == AttendanceReport(employeeRepository.Contents())
    {
      var all := employeeRepository.FindAll();
      report := AttendanceReport(all);
    }

    /** The salary report of all stored employees, in store order. */
    method GenerateSalaryReport() returns (report: seq<SalaryReportDto>)
      requires employeeRepository.Valid()
      ensures report == SalaryReport(employeeRepository.Contents())
    {
      var all := employeeRepository.FindAll();
      report := SalaryReport(all);
    }

    /** One two-key record per row of the department query, in the same order. */
    method GetDepartmentEmployeeCount() returns (response: seq<map<string, Cell>>)
      requires employeeRepository.Valid()
      ensures |response| == |DepartmentWiseReport(employeeRepository.Contents())|
      ensures forall i | 0 <= i < |response| ::
        IsRecordOf(response[i], DepartmentWiseReport(employeeRepository.Contents())[i])
    {
      var rawResult := DepartmentWiseReport(employeeRepository.Contents());
      response := [];
      for i := 0 to |rawResult|
        invariant |response| == i
        invariant forall k | 0 <= k < i :: IsRecordOf(response[k], rawResult[k])
      {
        var row := rawResult[i];
        var departmentData: map<string, Cell> := map[];
        departmentData := departmentData[DepartmentNameKey := StringValue(row.department)];
        departmentData := departmentData[EmployeeCountKey := LongValue(row.count)];
        response := response + [departmentData];
      }
    }
  }
}
