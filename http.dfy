/** Responses as the controllers and the exception handler return them:
    a status code and a body. */
module Http {
  import opened Entity
  import opened Reporting

  const OK := 200
  const CREATED := 201
  const NO_CONTENT := 204
  const BAD_REQUEST := 400
  const FORBIDDEN := 403
  const NOT_FOUND := 404
  const CONFLICT := 409
  const INTERNAL_SERVER_ERROR := 500

  datatype Body =
    | NoBody
    | Text(text: string)
    | FieldMessages(messages: map<string, string>)
    | OneEmployee(employee: Employee)
    | Employees(employees: seq<Employee>)
    | Attendance(attendance: seq<AttendanceReportDto>)
    | Salaries(salaries: seq<SalaryReportDto>)
    | Departments(departments: seq<map<string, Cell>>)

  datatype Response = Response(status: int, body: Body)
}
