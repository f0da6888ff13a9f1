# Employee management service — Dafny model

This project models the core of a Spring Boot employee CRUD service and
proves properties of that model.

- **Store.** The employee table is keyed by an auto-generated integer id and
  has a unique `email` column.
- **Lifecycle service.** Creates, retrieves, updates (full replace) and
  deletes employees. The password is encoded before every write. A store
  rejection becomes `DuplicateEmail`; an absent id becomes `EmployeeNotFound`.
- **Validation.** The entity's bean-validation constraints, with their exact
  messages.
- **Principal view.** What the security layer reads from an employee:
  username = email, one authority per role, all account flags true.
- **Reporting.** Attendance and salary reports (order-preserving filter and
  map). A department headcount built from a GROUP BY query and turned into
  two-key records by a loop.
- **Authorization.** The `@PreAuthorize` policy of both controllers, and what
  each endpoint answers.
- **Login lookup.** Finding a user by email.
- **Exception handler.** Maps each exception kind to a status and body. A
  validation failure becomes a 400 whose body maps each field to one message.

## Modules

| file | module |
|---|---|
| `wrappers.dfy` | `Option`, `Result`, `Outcome`. |
| `strings.dfy` | Decimal rendering of ids, used in the not-found message. |
| `entity.dfy` | The `Employee` record, `Role`, the constraints as `Valid`, per-field validation errors, `getAuthorities` / `getUsername` / the account flags. |
| `errors.dfy` | The error kinds and their messages. |
| `repository.dfy` | The `EmployeeRepository` class. `rows: map<int, Employee>`, `order` (listing order) and `nextId` (identity counter). A `Valid()` invariant: keys match ids, ids are below `nextId`, emails are unique. It has `findById`, `existsById`, `findAll`, two `save` paths and `deleteById`. `findByEmail` and the GROUP BY query are functions of the listing. |
| `employee_service.dfy` | `EmployeeServiceImplementation`, with the repository and the encoder. |
| `reporting.dfy` | Report DTOs, the generic filter-map, the two reports, `ReportingServiceImplementation` with the department-count loop. |
| `http.dfy` | `Response(status, body)` and the status codes. |
| `exception_handler.dfy` | `GlobalExceptionHandler`. |
| `user_details.dfy` | `CustomUserDetailServiceImplementation`. |
| `controllers.dfy` | The authority table, `EmployeeController`, `ReportingController`. |
| `scenarios.dfy` | Concrete scenarios stated as assertions. Create, then a duplicate, then delete twice. The attendance filter on 0 / null / 5 / 20. The not-found message for id 1. |

A controller method models Spring MVC's order of events:

1. The `@Valid` body is validated while the arguments are resolved. That
   happens before the `@PreAuthorize` proxy is entered, so for create and
   update an invalid body gives 400 to any caller.
2. The authority check follows. A refused call gives 403.
3. The service call follows. Its exceptions become responses through the
   handler.

Salary is a whole number of cents, given the column's scale 2. Dates are day
numbers, and `today` is a parameter. The `@Email` syntax check is a
parameter `isEmail`. The password encoder is an uninterpreted
`encode: string -> string`.

## Model

| member | source | states |
|---|---|---|
| Strings.NatToString | src/main/java/com/xenosis/implementation/EmployeeServiceImplementation.java:71 | The decimal rendering of an id is non-empty, all digits, and has no leading zero. |
| Strings.ParseNatToString | src/main/java/com/xenosis/implementation/EmployeeServiceImplementation.java:71 | Parsing the rendering of n gives back n. |
| Strings.IntToString | src/main/java/com/xenosis/implementation/EmployeeServiceImplementation.java:71 | Integer.toString as string concatenation uses it: non-empty, starting with '-' iff the number is negative, and otherwise all digits. IntToStringInjective shows it determines the number. |
| Strings.IntToStringInjective | src/main/java/com/xenosis/implementation/EmployeeServiceImplementation.java:71 | Distinct integers render to distinct strings. |
| Entity.RoleName | src/main/java/com/xenosis/entity/Employee.java:88 | The definition of `role.name()`: each role's constant name. It has no contract; Authorities and AuthoritiesOnePerRole state what it yields. |
| Entity.FieldName | src/main/java/com/xenosis/entity/Employee.java:37-83 | The definition of the field paths the validator reports ("firstname" … "roles"). It has no contract; FieldNameInjective shows distinct fields have distinct names. |
| Entity.ConstraintMessages | src/main/java/com/xenosis/entity/Employee.java:37-83 | The definition of each field's constraint messages, exactly the message texts of its annotations. It has no contract; FieldErrors and FieldErrorsMessages use it. |
| Entity.FieldErrors | src/main/java/com/xenosis/entity/Employee.java:37-83 | A field's error list is empty iff every constraint on that field holds. Each error carries the field's name and one of that field's own constraint messages. A blank password gets both the pattern message and "Password is required !!". A null date of birth gets only "Date of Birth is required !!", because @Past accepts null. Null attendance gets only "Attendance days are required !!", because @Min/@Max accept null. A null salary gets no error. |
| Entity.FieldErrorsMessages | src/main/java/com/xenosis/entity/Employee.java:37-83 | Each constraint's own message is in the field's error list exactly when that constraint fails. For example, the pattern message appears iff the password does not match, "Password is required !!" iff it is blank, "Date of Birth must be in the past !!" iff a date is given and is not before today, and "Attendance days cannot exceed 31 !!" iff a given value is above 31. No field gets more than two errors. |
| Entity.ValidationErrors | src/main/java/com/xenosis/entity/Employee.java:37-83 | The error list is empty iff the employee is Valid. Each field is named in it iff one of that field's constraints fails. |
| Entity.NotBlank | src/main/java/com/xenosis/entity/Employee.java:37 | The definition of @NotBlank as trim-based: some character is above U+0020. It has no contract; FieldErrorsMessages and ValidationErrors state what it decides. |
| Entity.PasswordPattern | src/main/java/com/xenosis/entity/Employee.java:51-52 | The definition of the password regex: at least 8 characters, none a line terminator (which `.` does not match), and a digit, a lower-case and an upper-case ASCII letter. It has no contract; SamplePasswords checks it on samples. |
| Entity.FieldOk | src/main/java/com/xenosis/entity/Employee.java:37-83 | The definition of each field's constraints: names, department, email and password non-blank; the email passes `isEmail`; the password matches the pattern; the birth date is present and before `today`; the salary, when present, is above zero; attendance is present and within 0..31; roles are non-empty. It has no contract; FieldErrors, FieldErrorsMessages and ValidationErrors relate it to the reported errors. |
| Entity.Valid | src/main/java/com/xenosis/entity/Employee.java:37-83 | The definition of entity validity: FieldOk holds for all nine constrained fields. It has no contract; AllFieldsOk and ValidationErrors state its properties. |
| Entity.AllFieldsOk | src/main/java/com/xenosis/entity/Employee.java:37-83 | Valid holds iff each of the nine constrained fields passes its own constraints. |
| Entity.Authorities | src/main/java/com/xenosis/entity/Employee.java:86-89 | A role is held iff its name is among the authorities. Every authority is the name of a held role. |
| Entity.AuthoritiesOnePerRole | src/main/java/com/xenosis/entity/Employee.java:86-89 | There is exactly one authority per role. |
| Entity.PrincipalOf | src/main/java/com/xenosis/entity/Employee.java:86-120 | The principal's username is the email and its password is the stored password. Its authorities are the role names, as many as there are roles. All four account-status flags are true. |
| Entity.SamplePasswords | src/main/java/com/xenosis/entity/Employee.java:51-53 | "Password@123" and "Passw0rdxyz" satisfy the password pattern; "password123" (no upper-case letter) does not. No special character is needed. |
| Errors.NotFoundMessage | src/main/java/com/xenosis/implementation/EmployeeServiceImplementation.java:71 | The message is "Employee not found with id : " followed by exactly the decimal rendering of the id. |
| Errors.DuplicateEmailMessage | src/main/java/com/xenosis/implementation/EmployeeServiceImplementation.java:52-53 | The message is "Email address already exists : " followed by exactly the email. |
| Errors.NotFoundMessageInjective | src/main/java/com/xenosis/implementation/EmployeeServiceImplementation.java:71 | Different ids give different not-found messages. |
| Repository.InOrder | src/main/java/com/xenosis/repository/EmployeeRepository.java:10 | The findAll listing: as many employees as listed ids, the k-th being the row stored under the k-th id. |
| Repository.EmailInUse | src/main/java/com/xenosis/entity/Employee.java:47 | The definition of the condition that makes the unique email index reject a save: some stored row has the email. It has no contract; SaveNew and SaveExisting are rejected exactly when it holds. |
| Repository.EmailsUnique | src/main/java/com/xenosis/entity/Employee.java:47 | The definition of the unique email column: no two keys hold rows with the same email. It has no contract; it is part of EmployeeRepository.Valid, and InOrderUniqueEmails carries it to the listing. |
| Repository.Without | src/main/java/com/xenosis/repository/EmployeeRepository.java:10 | Removing an id from the listing order keeps exactly the other ids. |
| Repository.WithoutDistinct | src/main/java/com/xenosis/repository/EmployeeRepository.java:10 | Removing an id keeps the order free of repeats. |
| Repository.InOrderUniqueEmails | src/main/java/com/xenosis/entity/Employee.java:47 | Listing a table with unique emails yields employees with pairwise distinct emails. |
| Repository.FindByEmail | src/main/java/com/xenosis/repository/EmployeeRepository.java:19 | A found employee is in the listing and has that email. Nothing is found iff no employee has it. |
| Repository.FindByEmailUnique | src/main/java/com/xenosis/repository/EmployeeRepository.java:19 | Under unique emails, findByEmail returns e iff e is stored with that email, so at most one employee has it. |
| Repository.DepartmentSize | src/main/java/com/xenosis/repository/EmployeeRepository.java:27 | The reference head count of a department, computed directly from the listing and not through the query. DepartmentWiseReportDescribes compares the query's counts with it. |
| Repository.DepartmentWiseReport | src/main/java/com/xenosis/repository/EmployeeRepository.java:27-28 | The definition of the GROUP BY query: each employee of the listing is counted into its department's row, and a new row is opened at a department's first appearance. It has no contract; DepartmentWiseReportDescribes proves one row per department, exact counts and the total. |
| Repository.IndexOf | src/main/java/com/xenosis/repository/EmployeeRepository.java:27 | The GROUP BY groups by department: the position found is the first row with that department, or past the end if there is none. |
| Repository.TallyDescribes | src/main/java/com/xenosis/repository/EmployeeRepository.java:27 | Grouping one more employee into rows that describe a prefix gives rows that describe the longer prefix. |
| Repository.DepartmentWiseReportDescribes | src/main/java/com/xenosis/repository/EmployeeRepository.java:27-28 | The query yields exactly one row per department present. Each row's count equals that department's head count and is at least 1. Every department present has a row. The counts sum to the number of employees. |
| Repository.EmployeeRepository.Valid | src/main/java/com/xenosis/entity/Employee.java:32-47 | The definition of the store invariant: the order lists each key exactly once, each row's id is its key, ids lie strictly between 0 and the identity counter, and emails are unique. It has no contract; every repository, service and controller method requires it and keeps it. |
| Repository.EmployeeRepository.Contents | src/main/java/com/xenosis/entity/Employee.java:47 | findAll's listing has pairwise distinct emails while the store invariant holds. |
| Repository.EmployeeRepository.constructor | src/main/java/com/xenosis/repository/EmployeeRepository.java:10 | An empty table whose identity counter starts at 1. |
| Repository.EmployeeRepository.FindById | src/main/java/com/xenosis/repository/EmployeeRepository.java:10 | Some iff the id is a key, and then that key's row. |
| Repository.EmployeeRepository.ExistsById | src/main/java/com/xenosis/repository/EmployeeRepository.java:10 | True iff the id is a key. |
| Repository.EmployeeRepository.FindAll | src/main/java/com/xenosis/repository/EmployeeRepository.java:10 | Returns the listing, only stored rows, in store order. |
| Repository.EmployeeRepository.SaveNew | src/main/java/com/xenosis/entity/Employee.java:32-49 | An insert gets a fresh identity id. It is rejected iff its email is in use, and then the store is unchanged. On success the row is added under the new id, appended to the order, and the counter advances. |
| Repository.EmployeeRepository.SaveExisting | src/main/java/com/xenosis/entity/Employee.java:47 | Overwriting a row is rejected iff another row holds the email, and then the store is unchanged. On success only that row changes. |
| Repository.EmployeeRepository.DeleteById | src/main/java/com/xenosis/repository/EmployeeRepository.java:10 | Removes exactly that key and that id from the order. The invariant, including unique emails, is kept. |
| EmployeeService.EmployeeServiceImplementation.constructor | src/main/java/com/xenosis/implementation/EmployeeServiceImplementation.java:32-35 | Holds the given repository and encoder. |
| EmployeeService.EmployeeServiceImplementation.CreateEmployee | src/main/java/com/xenosis/implementation/EmployeeServiceImplementation.java:46-56 | Success iff the email is unused. The saved employee is the input with a store-assigned id and the encoded password, and it is now stored under that id. Otherwise DuplicateEmail("Email address already exists : " + email) and the store is unchanged. |
| EmployeeService.EmployeeServiceImplementation.RetrieveEmployeeById | src/main/java/com/xenosis/implementation/EmployeeServiceImplementation.java:67-73 | The stored employee for the id, or EmployeeNotFound("Employee not found with id : " + id). The store is never modified. |
| EmployeeService.EmployeeServiceImplementation.DeleteEmployeeById | src/main/java/com/xenosis/implementation/EmployeeServiceImplementation.java:83-90 | An absent id gives EmployeeNotFound and the store is unchanged. A present id is removed and every other row is kept. |
| EmployeeService.EmployeeServiceImplementation.UpdateEmployeeById | src/main/java/com/xenosis/implementation/EmployeeServiceImplementation.java:103-124 | An absent id gives NotFound; an email held by another row gives DuplicateEmail(new email). Either way the store is unchanged. Otherwise the employee keeps its id and takes all eight fields from the input, plus the encoded password. Only that row changes. |
| EmployeeService.EmployeeServiceImplementation.RetrieveAllEmployees | src/main/java/com/xenosis/implementation/EmployeeServiceImplementation.java:133-136 | Returns the store listing, which is empty (not an error) for an empty store. |
| Reporting.FilterMap | src/main/java/com/xenosis/implementation/ReportingServiceImplementation.java:45-52 | A filter followed by a map is no longer than its input. |
| Reporting.FilterMapAppend | src/main/java/com/xenosis/implementation/ReportingServiceImplementation.java:45-52 | Filter-map distributes over concatenation, so it preserves order. |
| Reporting.FilterMapMembers | src/main/java/com/xenosis/implementation/ReportingServiceImplementation.java:45-52 | An output element is exactly the image of some selected input element. |
| Reporting.FullName | src/main/java/com/xenosis/implementation/ReportingServiceImplementation.java:49 | The definition of the displayed name, firstname + " " + lastname (also at line 69). It has no contract; AttendanceReportMembers and SalaryReportMembers put it in each entry. |
| Reporting.AttendanceReport | src/main/java/com/xenosis/implementation/ReportingServiceImplementation.java:43-54 | The attendance report has at most one entry per employee. |
| Reporting.SalaryReport | src/main/java/com/xenosis/implementation/ReportingServiceImplementation.java:63-74 | The salary report has at most one entry per employee. |
| Reporting.AttendanceReportMembers | src/main/java/com/xenosis/implementation/ReportingServiceImplementation.java:45-51 | An entry is in the report iff some employee has non-null positive attendance and the entry is (id, firstname + " " + lastname, days). |
| Reporting.AttendanceReportOrder | src/main/java/com/xenosis/implementation/ReportingServiceImplementation.java:45-52 | An employee's entry, if any, sits between the entries of those listed before it and after it. |
| Reporting.SalaryReportMembers | src/main/java/com/xenosis/implementation/ReportingServiceImplementation.java:65-71 | An entry is in the report iff some employee has non-null positive salary and the entry is (id, firstname + " " + lastname, salary). |
| Reporting.SalaryReportOrder | src/main/java/com/xenosis/implementation/ReportingServiceImplementation.java:65-72 | The salary report follows the store order, as the attendance report does. |
| Reporting.ReportingServiceImplementation.constructor | src/main/java/com/xenosis/implementation/ReportingServiceImplementation.java:32-34 | Holds the given repository. |
| Reporting.ReportingServiceImplementation.GenerateAttendanceReport | src/main/java/com/xenosis/implementation/ReportingServiceImplementation.java:43-54 | The attendance report of the store's listing. It modifies nothing. |
| Reporting.ReportingServiceImplementation.GenerateSalaryReport | src/main/java/com/xenosis/implementation/ReportingServiceImplementation.java:63-74 | The salary report of the store's listing. It modifies nothing. |
| Reporting.ReportingServiceImplementation.GetDepartmentEmployeeCount | src/main/java/com/xenosis/implementation/ReportingServiceImplementation.java:83-97 | One record per query row, in the same order. Each record has exactly the keys "departmentName" (the row's department) and "employeeCount" (the row's count). |
| ExceptionHandler.HandleException | src/main/java/com/xenosis/handler/GlobalExceptionHandler.java:47-90 | 404 iff not-found, 403 iff access denied, 409 iff duplicate email, 500 for anything else. The body is the exception's message for 404 and 409, the fixed access text for 403, and "An error occurred : " + message for 500. |
| ExceptionHandler.HandleValidationException | src/main/java/com/xenosis/handler/GlobalExceptionHandler.java:28-41 | A 400 whose body's keys are exactly the fields with errors, one key per field. Each field maps to the last message given for it. |
| ExceptionHandler.ValidationKeysAreFailingFields | src/main/java/com/xenosis/handler/GlobalExceptionHandler.java:32-39 | For an employee's validation errors, a field name is a key of the 400 body iff that field's constraints fail. |
| UserDetails.LoadUser | src/main/java/com/xenosis/implementation/CustomUserDetailServiceImplementation.java:39-49 | Success comes exactly when both queries find the email, and it yields an employee from the second query with email = username. A miss on the first query is exactly the EmployeeNotFound("Employee not found !!") case. A hit on the first query and a miss on the second gives UsernameNotFound("Username not found with email : " + username). |
| UserDetails.LoadUserOnStableStore | src/main/java/com/xenosis/implementation/CustomUserDetailServiceImplementation.java:41-48 | When both queries see the same uniquely-keyed store, UsernameNotFound cannot occur. The result is e iff e is stored with that email. |
| UserDetails.PrincipalNamesTheUsername | src/main/java/com/xenosis/entity/Employee.java:97-100 | The principal of the loaded employee has the requested username. |
| UserDetails.CustomUserDetailServiceImplementation.constructor | src/main/java/com/xenosis/implementation/CustomUserDetailServiceImplementation.java:26-28 | Holds the given repository. |
| UserDetails.CustomUserDetailServiceImplementation.LoadUserByUsername | src/main/java/com/xenosis/implementation/CustomUserDetailServiceImplementation.java:39-49 | Success iff some stored employee has the email, and then it is that employee. Otherwise EmployeeNotFound("Employee not found !!"). The store is not modified. |
| Controllers.RequiredAuthorities | src/main/java/com/xenosis/controller/EmployeeController.java:59-126 | The definition of the @PreAuthorize table: none for create; ADMIN or USER for the two reads; ADMIN alone for update, delete and the three reports (ReportingController.java lines 38, 55, 76). It has no contract; the policy lemmas below state what it allows. |
| Controllers.Allowed | src/main/java/com/xenosis/controller/EmployeeController.java:59-126 | The definition of the access check: an operation is allowed if it has no annotation, or if one of its listed authorities is among the caller's role names (hasAnyAuthority; hasAuthority is the one-name case). It has no contract; CreateNeedsNoRole, ReadPolicy, WritePolicy, ReportPolicy, ManagerAndHrMayOnlyCreate and AllowedMonotone state its properties. |
| Controllers.CreateNeedsNoRole | src/main/java/com/xenosis/controller/EmployeeController.java:35-45 | Creating carries no authority check: every authenticated caller may create. |
| Controllers.ReadPolicy | src/main/java/com/xenosis/controller/EmployeeController.java:59-84 | Retrieve-all and retrieve-by-id are allowed iff the caller holds ADMIN or USER. |
| Controllers.WritePolicy | src/main/java/com/xenosis/controller/EmployeeController.java:104-126 | Delete and update are allowed iff the caller holds ADMIN. |
| Controllers.ReportPolicy | src/main/java/com/xenosis/controller/ReportingController.java:37-76 | The attendance, salary and department reports are allowed iff the caller holds ADMIN. |
| Controllers.ManagerAndHrMayOnlyCreate | src/main/java/com/xenosis/controller/EmployeeController.java:59-126 | A caller holding only MANAGER and/or HR may create and nothing else. |
| Controllers.AllowedMonotone | src/main/java/com/xenosis/controller/ReportingController.java:38-76 | Adding roles never revokes access to any endpoint. |
| Controllers.EmployeeController.constructor | src/main/java/com/xenosis/controller/EmployeeController.java:24-26 | Holds the given service. |
| Controllers.EmployeeController.SaveEmployeeDetails | src/main/java/com/xenosis/controller/EmployeeController.java:35-50 | An invalid body gives 400 with the store unchanged. The body's keys are exactly the fields named in the validation errors, which are the failing fields, and each maps to the last message reported for it. A valid body gives 201 iff its email is unused. The 201 carries the saved employee, now stored under the new id, and the id counter advances. Otherwise 409 with the duplicate message. |
| Controllers.EmployeeController.RetrieveAllEmployeesPageable | src/main/java/com/xenosis/controller/EmployeeController.java:58-74 | 403 if refused. 204 with no body for an empty store, otherwise 200 with the whole listing. |
| Controllers.EmployeeController.RetrieveEmployeeById | src/main/java/com/xenosis/controller/EmployeeController.java:83-95 | 403 if refused. 200 with the stored employee, or 404 with the not-found message. |
| Controllers.EmployeeController.DeleteEmployeeById | src/main/java/com/xenosis/controller/EmployeeController.java:104-115 | 403 if refused and 404 if absent, both leaving the store unchanged. Otherwise 200 "Employee deleted successfully !!" with exactly that row removed and the id counter unchanged. |
| Controllers.EmployeeController.UpdateEmployeeDetailsById | src/main/java/com/xenosis/controller/EmployeeController.java:125-138 | Checks run in this order: 400 for an invalid body (keys are exactly the failing fields, each mapped to its last reported message), 403 when refused, 404 when absent, 409 on an email clash. Each leaves the store unchanged. 200 comes exactly when the body is valid, the caller holds ADMIN, the id exists and no other row has the email. The 200 carries the replaced employee, which is now stored; the order and the id counter do not change. |
| Controllers.ReportingController.constructor | src/main/java/com/xenosis/controller/ReportingController.java:27-29 | Holds the given service. |
| Controllers.ReportingController.GetAttendanceReport | src/main/java/com/xenosis/controller/ReportingController.java:37-46 | 403 unless ADMIN. Otherwise 200 with the attendance report of the store, unchanged. |
| Controllers.ReportingController.GetSalaryReport | src/main/java/com/xenosis/controller/ReportingController.java:54-63 | 403 unless ADMIN. Otherwise 200 with the salary report of the store, unchanged. |
| Controllers.ReportingController.GetDepartmentEmployeeCount | src/main/java/com/xenosis/controller/ReportingController.java:71-82 | 403 unless ADMIN. Otherwise 200 with one two-key record per department row, in order. |
| Scenarios.HarishIsValid | src/main/java/com/xenosis/entity/Employee.java:37-83 | The sample employee (Harish Palaspagar, h@x.com, Password@123, HR, 25 days, USER) satisfies every constraint. |
| Scenarios.CreateDeleteScenario | src/test/java/com/xenosis/implementation/EmployeeImplementationTest.java:117-135 | A client sequence stated as assertions. Creating the sample employee in an empty store gets id 1 and the encoded password. Creating again with the same email fails with DuplicateEmail("Email address already exists : h@x.com"). Deleting id 1 succeeds. Deleting it again fails with "Employee not found with id : 1". It has no contract. |
| Scenarios.NotFoundMessageForOne | src/test/java/com/xenosis/implementation/EmployeeImplementationTest.java:94 | The not-found message for id 1 is "Employee not found with id : 1". |
| Scenarios.AttendanceFilterExample | src/main/java/com/xenosis/implementation/ReportingServiceImplementation.java:45-52 | For attendance 0, null, 5 and 20 the report holds exactly the entries for 5 and 20, in that order. |

## Left out

- The JPA merge path of `save` on create is not modelled. When a client
  supplies an id on create, the model ignores it and the store assigns one.
- A failed insert does not consume an identity value in the model. A real
  database may skip one.
- `Employee` is a value, not a mutable object, so aliasing is not modelled.
  In the source, the caller's entity has its password overwritten in place
  even when the save then fails.
- EmployeeService.EmployeeServiceImplementation.CreateEmployee: maps only the
  email-uniqueness rejection to DuplicateEmail. The source maps every data
  integrity violation to it, which includes column-length or precision
  violations the model does not have.
- EmployeeService.EmployeeServiceImplementation.UpdateEmployeeById: the same
  weakening as CreateEmployee.
- Ids are unbounded integers. The source's ids are Java `Integer` values over
  an INT identity column, so the model never reaches the column's maximum
  or overflows.
- Hibernate re-validates the entity before every insert and update, and
  that pass sees the encoded password. The model does not do this: the
  service stores any employee, and the encoded password is unconstrained.
- The password encoder is uninterpreted. BCrypt, its salt and its
  randomness are out of scope. The model therefore makes no claim that the
  stored credential differs from the raw password.
- The `@Email` syntax check is a parameter, not a definition.
- The clock behind `@Past` is the `today` parameter.
- Null strings and a null role set are not modelled. Strings are always
  present. `NotBlank` is the trim-based check (some character above
  U+0020).
- Case handling and collation of the database's unique index are not
  modelled. Emails compare as exact character sequences.
- Repository.DepartmentWiseReportDescribes: groups departments by exact
  string equality. In the database, the column's collation decides which
  department names fall into one group, for example names differing only
  in case or trailing spaces.
- Entity.ValidationErrors: fixes an order for the field errors. Fields come
  in declaration order, and within email, password and attendance days the
  constraints come in a chosen order. The validator hands its violations
  over as an unordered set, so the source does not decide which message the
  400 body keeps for a field with two failures. For a blank password the
  model always keeps "Password is required !!", and the source may keep the
  pattern message instead.
- Salary precision (10 digits) and rounding of scale-2 decimals are not
  modelled. Salary is an exact number of cents.
- The GROUP BY row order is the order of first appearance in the listing. A
  database may return the groups in any order. The proved properties do
  not depend on that order.
- Transactions, concurrent requests and last-writer-wins races are not
  modelled. The login lookup captures the possible change between its two
  queries by taking two store snapshots.
- HTTP routing and JSON marshalling are not modelled.
- Authentication is not modelled. The model assumes the filter chain already
  admitted an authenticated caller. The 401 for anonymous requests, CSRF,
  HTTP Basic and the Swagger whitelist are configuration, outside the model.
- What the authentication provider does with the login lookup's exceptions
  is not modelled. The provider is Spring Security's
  DaoAuthenticationProvider, configured at
  src/main/java/com/xenosis/security/SecurityConfiguration.java:38-42, and
  its code is not part of this model.
- The service interfaces are not modelled. Their "or null if not found"
  comment disagrees with the implementation, which throws, and the model
  follows the implementation.
- The OpenAPI configuration and the application bootstrap are not modelled.
  They hold no logic.
