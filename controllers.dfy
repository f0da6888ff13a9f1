/** The two REST controllers: the authority each endpoint demands, and the
    response each endpoint returns from its service's result. Request-body
    validation runs while the arguments are resolved, before the method and
    its authority check are entered; exceptions reach the global handler. */
module Controllers {
  import opened Wrappers
  import opened Entity
  import opened Errors
  import opened Repository
  import opened EmployeeService
  import opened Reporting
  import opened Http
  import opened ExceptionHandler

  datatype Operation =
    | Create
    | RetrieveAll
    | RetrieveById
    | Delete
    | Update
    | ReadAttendance
    | ReadSalaries
    | ReadDepartments

  /** The authorities listed by an endpoint's @PreAuthorize, any one of which
      suffices (hasAuthority is the one-element case); None where the
      endpoint has no annotation and any authenticated caller may call it. */
  function RequiredAuthorities(op: Operation): Option<set<string>> {
    match op
    case Create => None
    case RetrieveAll | RetrieveById => Some({"ADMIN", "USER"})
    case Delete | Update | ReadAttendance | ReadSalaries | ReadDepartments => Some({"ADMIN"})
  }

  predicate Permits(authorities: set<string>, op: Operation) {
    RequiredAuthorities(op).None? || exists a | a in RequiredAuthorities(op).value :: a in authorities
  }

  /** Whether an authenticated caller holding these roles may call op. */
  predicate Allowed(roles: set<Role>, op: Operation) {
    Permits(Authorities(roles), op)
  }

  lemma CreateNeedsNoRole(roles: set<Role>)
    ensures Allowed(roles, Create)
  {
  }

  lemma ReadPolicy(roles: set<Role>, op: Operation)
    requires op == RetrieveAll || op == RetrieveById
    ensures Allowed(roles, op) <==> ADMIN in roles || USER in roles
  {
    if USER in roles {
      assert RoleName(USER) in Authorities(roles);
    }
  }

  lemma WritePolicy(roles: set<Role>, op: Operation)
    requires op == Update || op == Delete
    ensures Allowed(roles, op) <==> ADMIN in roles
  {
    if ADMIN in roles {
      assert RoleName(ADMIN) in Authorities(roles);
    }
  }

  lemma ReportPolicy(roles: set<Role>, op: Operation)
    requires op == ReadAttendance || op == ReadSalaries || op == ReadDepartments
    ensures Allowed(roles, op) <==> ADMIN in roles
  {
    if ADMIN in roles {
      assert RoleName(ADMIN) in Authorities(roles);
    }
  }

  /** MANAGER and HR appear in no annotation: such a caller may only create. */
  lemma ManagerAndHrMayOnlyCreate(roles: set<Role>, op: Operation)
    requires roles <= {MANAGER, HR}
    ensures Allowed(roles, op) <==> op == Create
  {
    if op == RetrieveAll || op == RetrieveById {
      ReadPolicy(roles, op);
    } else if op == Update || op == Delete {
      WritePolicy(roles, op);
    } else if op != Create {
      ReportPolicy(roles, op);
    }
  }

  /** Granting a caller more roles never takes an endpoint away. */
  lemma AllowedMonotone(roles: set<Role>, more: set<Role>, op: Operation)
    requires roles <= more && Allowed(roles, op)
    ensures Allowed(more, op)
  {
    if op != Create {
      var a :| a in RequiredAuthorities(op).value && a in Authorities(roles);
      var r :| r in roles && RoleName(r) == a;
      assert RoleName(r) in Authorities(more);
    }
  }

  const DeletedText := "Employee deleted successfully !!"

  class EmployeeController {
    const employeeService: EmployeeServiceImplementation

    constructor (employeeService: EmployeeServiceImplementation)
      ensures this.employeeService == employeeService
    {
      this.employeeService := employeeService;
    }

    /** POST /employees: 400 for an invalid body, 201 with the saved employee,
        or 409 when the email is taken. */
    method SaveEmployeeDetails(employee: Employee, today: int, isEmail: string -> bool) returns (r: Response)
      requires employeeService.repository.Valid()
      modifies employeeService.repository
      ensures employeeService.repository.Valid()
      ensures !Valid(employee, today, isEmail) ==>
        && r.status == BAD_REQUEST && r.body.FieldMessages?
        && (forall f :: FieldName(f) in r.body.messages.Keys <==> !FieldOk(employee, f, today, isEmail))
        && unchanged(employeeService.repository)
      ensures !Valid(employee, today, isEmail) ==>
        var errors := ValidationErrors(employee, today, isEmail);
        && r.body.FieldMessages?
        && r.body.messages.Keys == FieldsOf(errors)
        && (forall i | 0 <= i < |errors| && LastForField(errors, i) :: r.body.messages[errors[i].field] == errors[i].message)
      ensures Valid(employee, today, isEmail) && EmailInUse(old(employeeService.repository.rows), employee.email) ==>
        r == Response(CONFLICT, Text(DuplicateEmailMessage(employee.email))) && unchanged(employeeService.repository)
      ensures r.status == CREATED <==>
        Valid(employee, today, isEmail) && !EmailInUse(old(employeeService.repository.rows), employee.email)
      ensures r.status == CREATED ==>
        var saved := employee.(id := old(employeeService.repository.nextId), password := employeeService.encode(employee.password));
        && r.body == OneEmployee(saved)
        && employeeService.repository.rows == old(employeeService.repository.rows)[saved.id := saved]
        && employeeService.repository.order == old(employeeService.repository.order) + [saved.id]
        && employeeService.repository.nextId == old(employeeService.repository.nextId) + 1
    {
      var errors := ValidationErrors(employee, today, isEmail);
      if errors != [] {
        r := HandleValidationException(errors);
        forall f ensures FieldName(f) in r.body.messages.Keys <==> !FieldOk(employee, f, today, isEmail) {
          ValidationKeysAreFailingFields(employee, today, isEmail, f);
        }
        return;
      }
      var result := employeeService.CreateEmployee(employee);
      match result
      case Success(savedEmployee) =>
        r := Response(CREATED, OneEmployee(savedEmployee));
      case Failure(err) =>
        r := HandleException(err);
    }

    /** GET /employees: 204 with no body for an empty store, else 200 with
        every employee in store order. */
    method RetrieveAllEmployeesPageable(caller: set<Role>) returns (r: Response)
      requires employeeService.repository.Valid()
      ensures !Allowed(caller, RetrieveAll) ==> r == Response(FORBIDDEN, Text(AccessDeniedText))
      ensures Allowed(caller, RetrieveAll) && |employeeService.repository.Contents()| == 0 ==>
        r == Response(NO_CONTENT, NoBody)
      ensures Allowed(caller, RetrieveAll) && |employeeService.repository.Contents()| > 0 ==>
        r == Response(OK, Employees(employeeService.repository.Contents()))
    {
      if !Allowed(caller, RetrieveAll) {
        return HandleException(AccessDenied);
      }
      var employees := employeeService.RetrieveAllEmployees();
      if |employees| == 0 {
        r := Response(NO_CONTENT, NoBody);
      } else {
        r := Response(OK, Employees(employees));
      }
    }

    /** GET /employees/{id}: 200 with the stored employee, or 404. */
    method RetrieveEmployeeById(caller: set<Role>, id: int) returns (r: Response)
      ensures !Allowed(caller, RetrieveById) ==> r == Response(FORBIDDEN, Text(AccessDeniedText))
      ensures Allowed(caller, RetrieveById) && id in employeeService.repository.rows ==>
        r == Response(OK, OneEmployee(employeeService.repository.rows[id]))
      ensures Allowed(caller, RetrieveById) && id !in employeeService.repository.rows ==>
        r == Response(NOT_FOUND, Text(NotFoundMessage(id)))
    {
      if !Allowed(caller, RetrieveById) {
        return HandleException(AccessDenied);
      }
      var result := employeeService.RetrieveEmployeeById(id);
      match result
      case Success(employee) =>
        r := Response(OK, OneEmployee(employee));
      case Failure(err) =>
        r := HandleException(err);
    }

    /** DELETE /employees/{id}: 200 with a fixed text once the row is gone,
        or 404 with the store untouched. */
    method DeleteEmployeeById(caller: set<Role>, id: int) returns (r: Response)
      requires employeeService.repository.Valid()
      modifies employeeService.repository
      ensures employeeService.repository.Valid()
      ensures !Allowed(caller, Delete) ==>
        r == Response(FORBIDDEN, Text(AccessDeniedText)) && unchanged(employeeService.repository)
      ensures Allowed(caller, Delete) && id !in old(employeeService.repository.rows) ==>
        r == Response(NOT_FOUND, Text(NotFoundMessage(id))) && unchanged(employeeService.repository)
      ensures Allowed(caller, Delete) && id in old(employeeService.repository.rows) ==>
        && r == Response(OK, Text(DeletedText))
        && employeeService.repository.rows == old(employeeService.repository.rows) - {id}
        && employeeService.repository.order == Without(old(employeeService.repository.order), id)
        && employeeService.repository.nextId == old(employeeService.repository.nextId)
    {
      if !Allowed(caller, Delete) {
        return HandleException(AccessDenied);
      }
      var outcome := employeeService.DeleteEmployeeById(id);
      match outcome
      case Pass =>
        r := Response(OK, Text(DeletedText));
      case Fail(err) =>
        r := HandleException(err);
    }

    /** PUT /employees/{id}: 400 for an invalid body, then 403, 404 or 409, or
        200 with the replaced employee. */
    method UpdateEmployeeDetailsById(caller: set<Role>, id: int, updatedEmployeeDetails: Employee, today: int, isEmail: string -> bool)
      returns (r: Response)
      requires employeeService.repository.Valid()
      modifies employeeService.repository
      ensures employeeService.repository.Valid()
      ensures !Valid(updatedEmployeeDetails, today, isEmail) ==>
        && r.status == BAD_REQUEST && r.body.FieldMessages?
        && (forall f :: FieldName(f) in r.body.messages.Keys <==> !FieldOk(updatedEmployeeDetails, f, today, isEmail))
        && unchanged(employeeService.repository)
      ensures !Valid(updatedEmployeeDetails, today, isEmail) ==>
        var errors := ValidationErrors(updatedEmployeeDetails, today, isEmail);
        && r.body.FieldMessages?
        && r.body.messages.Keys == FieldsOf(errors)
        && (forall i | 0 <= i < |errors| && LastForField(errors, i) :: r.body.messages[errors[i].field] == errors[i].message)
      ensures Valid(updatedEmployeeDetails, today, isEmail) && !Allowed(caller, Update) ==>
        r == Response(FORBIDDEN, Text(AccessDeniedText)) && unchanged(employeeService.repository)
      ensures Valid(updatedEmployeeDetails, today, isEmail) && Allowed(caller, Update)
              && id !in old(employeeService.repository.rows) ==>
        r == Response(NOT_FOUND, Text(NotFoundMessage(id))) && unchanged(employeeService.repository)
      ensures Valid(updatedEmployeeDetails, today, isEmail) && Allowed(caller, Update)
              && id in old(employeeService.repository.rows)
              && EmailInUse(old(employeeService.repository.rows) - {id}, updatedEmployeeDetails.email) ==>
        r == Response(CONFLICT, Text(DuplicateEmailMessage(updatedEmployeeDetails.email)))
        && unchanged(employeeService.repository)
      ensures r.status == OK <==>
        && Valid(updatedEmployeeDetails, today, isEmail) && Allowed(caller, Update)
        && id in old(employeeService.repository.rows)
        && !EmailInUse(old(employeeService.repository.rows) - {id}, updatedEmployeeDetails.email)
      ensures r.status == OK ==>
        var saved := updatedEmployeeDetails.(id := id, password := employeeService.encode(updatedEmployeeDetails.password));
        && r.body == OneEmployee(saved)
        && employeeService.repository.rows == old(employeeService.repository.rows)[id := saved]
        && employeeService.repository.order == old(employeeService.repository.order)
        && employeeService.repository.nextId == old(employeeService.repository.nextId)
    {
      var errors := ValidationErrors(updatedEmployeeDetails, today, isEmail);
      if errors != [] {
        r := HandleValidationException(errors);
        forall f ensures FieldName(f) in r.body.messages.Keys <==> !FieldOk(updatedEmployeeDetails, f, today, isEmail) {
          ValidationKeysAreFailingFields(updatedEmployeeDetails, today, isEmail, f);
        }
        return;
      }
      if !Allowed(caller, Update) {
        return HandleException(AccessDenied);
      }
      var result := employeeService.UpdateEmployeeById(id, updatedEmployeeDetails);
      match result
      case Success(updatedEmployee) =>
        r := Response(OK, OneEmployee(updatedEmployee));
      case Failure(err) =>
        r := HandleException(err);
    }
  }

  class ReportingController {
    const reportingService: ReportingServiceImplementation

    constructor (reportingService: ReportingServiceImplementation)
      ensures this.reportingService == reportingService
    {
      this.reportingService := reportingService;
    }

    /** GET /reports/attendance: the service's report, unchanged, with 200. */
    method GetAttendanceReport(caller: set<Role>) returns (r: Response)
      requires reportingService.employeeRepository.Valid()
      ensures !Allowed(caller, ReadAttendance) ==> r == Response(FORBIDDEN, Text(AccessDeniedText))
      ensures Allowed(caller, ReadAttendance) ==>
        r == Response(OK, Attendance(AttendanceReport(reportingService.employeeRepository.Contents())))
    {
      if !Allowed(caller, ReadAttendance) {
        return HandleException(AccessDenied);
      }
      var report := reportingService.GenerateAttendanceReport();
      r := Response(OK, Attendance(report));
    }

    /** GET /reports/salary: the service's report, unchanged, with 200. */
    method GetSalaryReport(caller: set<Role>) returns (r: Response)
      requires reportingService.employeeRepository.Valid()
      ensures !Allowed(caller, ReadSalaries) ==> r == Response(FORBIDDEN, Text(AccessDeniedText))
      ensures Allowed(caller, ReadSalaries) ==>
        r == Response(OK, Salaries(SalaryReport(reportingService.employeeRepository.Contents())))
    {
      if !Allowed(caller, ReadSalaries) {
        return HandleException(AccessDenied);
      }
      var report := reportingService.GenerateSalaryReport();
      r := Response(OK, Salaries(report));
    }

    /** GET /reports/department: one record per department, with 200. */
    method GetDepartmentEmployeeCount(caller: set<Role>) returns (r: Response)
      requires reportingService.employeeRepository.Valid()
      ensures !Allowed(caller, ReadDepartments) ==> r == Response(FORBIDDEN, Text(AccessDeniedText))
      ensures Allowed(caller, ReadDepartments) ==>
        var rows := DepartmentWiseReport(reportingService.employeeRepository.Contents());
        && r.status == OK && r.body.Departments?
        && |r.body.departments| == |rows|
        && forall i | 0 <= i < |rows| :: IsRecordOf(r.body.departments[i], rows[i])
    {
      if !Allowed(caller, ReadDepartments) {
        return HandleException(AccessDenied);
      }
      var response := reportingService.GetDepartmentEmployeeCount();
      r := Response(OK, Departments(response));
    }
  }
}
