/** The Employee entity: its fields, the Jakarta Bean Validation constraints
    on them (as a validity predicate and as the list of field errors the
    validator reports), and the Spring Security principal view it offers. */
module Entity {
  import opened Wrappers

  /** The closed set of role tags. */
  datatype Role = ADMIN | USER | MANAGER | HR

  /** Role.name(): the enum constant's own name. */
  function RoleName(r: Role): string
  {
    match r
    case ADMIN => "ADMIN"
    case USER => "USER"
    case MANAGER => "MANAGER"
    case HR => "HR"
  }

  /** An employee row. Dates are day numbers; salary is a BigDecimal of scale
      2, held as a whole number of cents; Option marks the fields the entity
      lets be null. `password` holds whatever was last set: the raw value in
      a request body, the encoded value once stored. */
  datatype Employee = Employee(
    id: int,
    firstname: string,
    lastname: string,
    email: string,
    password: string,
    dateOfBirth: Option<int>,
    department: string,
    salary: Option<int>,
    attendanceDays: Option<int>,
    roles: set<Role>)

  /** @NotBlank as Hibernate Validator decides it: the string is not empty
      after trim(), which strips every character up to U+0020. */
  predicate NotBlank(s: string)
  {
    exists i | 0 <= i < |s| :: s[i] > ' '
  }

  /** The characters Java's regex dot does not match. */
  predicate IsLineTerminator(c: char)
  {
    c == '\n' || c == '\r' || c as int == 0x85 || c as int == 0x2028 || c as int == 0x2029
  }

  /** The @Pattern on the password, matched against the whole value: three
      look-aheads asking for a digit, a lower-case and an upper-case ASCII
      letter, then at least eight characters none of which ends a line.
      No special character is asked for. */
  predicate PasswordPattern(p: string)
  {
    && |p| >= 8
    && (forall i | 0 <= i < |p| :: !IsLineTerminator(p[i]))
    && (exists i | 0 <= i < |p| :: '0' <= p[i] <= '9')
    && (exists i | 0 <= i < |p| :: 'a' <= p[i] <= 'z')
    && (exists i | 0 <= i < |p| :: 'A' <= p[i] <= 'Z')
  }

  /** All constraints of the entity hold. `today` stands for the clock behind
      @Past; `isEmail` for Hibernate Validator's @Email syntax check. */
  predicate Valid(e: Employee, today: int, isEmail: string -> bool)
  {
    && FieldOk(e, Firstname, today, isEmail)
    && FieldOk(e, Lastname, today, isEmail)
    && FieldOk(e, Email, today, isEmail)
    && FieldOk(e, Password, today, isEmail)
    && FieldOk(e, DateOfBirth, today, isEmail)
    && FieldOk(e, Department, today, isEmail)
    && FieldOk(e, Salary, today, isEmail)
    && FieldOk(e, AttendanceDays, today, isEmail)
    && FieldOk(e, Roles, today, isEmail)
  }

  /** One violated constraint: the field's name and the constraint's message. */
  datatype FieldError = FieldError(field: string, message: string)

  /** The constrained fields, in declaration order. */
  datatype Field =
    Firstname | Lastname | Email | Password | DateOfBirth | Department | Salary | AttendanceDays | Roles

  const AllFields: seq<Field> :=
    [Firstname, Lastname, Email, Password, DateOfBirth, Department, Salary, AttendanceDays, Roles]

  function FieldName(f: Field): string
  {
    match f
    case Firstname => "firstname"
    case Lastname => "lastname"
    case Email => "email"
    case Password => "password"
    case DateOfBirth => "dateOfBirth"
    case Department => "department"
    case Salary => "salary"
    case AttendanceDays => "attendanceDays"
    case Roles => "roles"
  }

  /** The constraints declared on one field hold. */
  predicate FieldOk(e: Employee, f: Field, today: int, isEmail: string -> bool)
  {
    match f
    case Firstname => NotBlank(e.firstname)
    case Lastname => NotBlank(e.lastname)
    case Email => NotBlank(e.email) && isEmail(e.email)
    case Password => NotBlank(e.password) && PasswordPattern(e.password)
    case DateOfBirth => e.dateOfBirth.Some? && e.dateOfBirth.value < today
    case Department => NotBlank(e.department)
    case Salary => e.salary.Some? ==> e.salary.value > 0
    case AttendanceDays => e.attendanceDays.Some? && 0 <= e.attendanceDays.value <= 31
    case Roles => e.roles != {}
  }

  function Check(ok: bool, f: Field, message: string): (errors: seq<FieldError>)
    ensures errors == [] <==> ok
    ensures forall i | 0 <= i < |errors| :: errors[i] == FieldError(FieldName(f), message)
  {
    if ok then [] else [FieldError(FieldName(f), message)]
  }

  /** The validation messages of the constraints. */
  const FirstnameRequired: string := "Firstname is required !!"
  const LastnameRequired: string := "Lastname is required !!"
  const EmailNotValid: string := "Email is not valid !!"
  const EmailRequired: string := "Email is required !!"
  const PasswordWeak: string := "Password must contain at least 8 characters, including one digit, one lowercase letter, and one uppercase letter !!"
  const PasswordRequired: string := "Password is required !!"
  const BirthRequired: string := "Date of Birth is required !!"
  const BirthNotPast: string := "Date of Birth must be in the past !!"
  const DepartmentRequired: string := "Department is required !!"
  const SalaryNotPositive: string := "Salary must be greater than zero !!"
  const AttendanceRequired: string := "Attendance days are required !!"
  const AttendanceNegative: string := "Attendance days cannot be negative !!"
  const AttendanceAbove31: string := "Attendance days cannot exceed 31 !!"
  const RolesRequired: string := "At least one role is required !!"

  /** The messages of the constraints declared on a field. */
  function ConstraintMessages(f: Field): set<string>
  {
    match f
    case Firstname => {FirstnameRequired}
    case Lastname => {LastnameRequired}
    case Email => {EmailNotValid, EmailRequired}
    case Password => {PasswordWeak, PasswordRequired}
    case DateOfBirth => {BirthRequired, BirthNotPast}
    case Department => {DepartmentRequired}
    case Salary => {SalaryNotPositive}
    case AttendanceDays => {AttendanceRequired, AttendanceNegative, AttendanceAbove31}
    case Roles => {RolesRequired}
  }

  /** Two constraints on the same field, checked in turn. */
  function CheckBoth(ok1: bool, message1: string, ok2: bool, message2: string, f: Field): (errors: seq<FieldError>)
    ensures errors == [] <==> ok1 && ok2
    ensures forall i | 0 <= i < |errors| :: errors[i].field == FieldName(f)
    ensures forall i | 0 <= i < |errors| :: errors[i].message == message1 || errors[i].message == message2
    ensures !ok1 && !ok2 ==> errors == [FieldError(FieldName(f), message1), FieldError(FieldName(f), message2)]
  {
    Check(ok1, f, message1) + Check(ok2, f, message2)
  }

  /** The errors the validator reports for one field, one per violated
      constraint. The constraints that accept null (@Past, @Min, @Max,
      @DecimalMin, @Pattern) are silent on a null value; a blank password
      violates both @NotBlank and @Pattern. */
  function FieldErrors(e: Employee, f: Field, today: int, isEmail: string -> bool): (errors: seq<FieldError>)
    ensures errors == [] <==> FieldOk(e, f, today, isEmail)
    ensures forall i | 0 <= i < |errors| :: errors[i].field == FieldName(f)
    ensures forall i | 0 <= i < |errors| :: errors[i].message in ConstraintMessages(f)
    ensures f == Password && !NotBlank(e.password) ==>
      errors == [FieldError(FieldName(f), PasswordWeak), FieldError(FieldName(f), PasswordRequired)]
    ensures f == DateOfBirth && e.dateOfBirth.None? ==> errors == [FieldError(FieldName(f), BirthRequired)]
    ensures f == AttendanceDays && e.attendanceDays.None? ==> errors == [FieldError(FieldName(f), AttendanceRequired)]
    ensures f == Salary && e.salary.None? ==> errors == []
  {
    match f
    case Firstname => Check(NotBlank(e.firstname), f, FirstnameRequired)
    case Lastname => Check(NotBlank(e.lastname), f, LastnameRequired)
    case Email =>
      CheckBoth(isEmail(e.email), EmailNotValid,
                NotBlank(e.email), EmailRequired, f)
    case Password =>
      CheckBoth(PasswordPattern(e.password),
                PasswordWeak,
                NotBlank(e.password), PasswordRequired, f)
    case DateOfBirth =>
      (match e.dateOfBirth
       case None => [FieldError(FieldName(f), BirthRequired)]
       case Some(d) => Check(d < today, f, BirthNotPast))
    case Department => Check(NotBlank(e.department), f, DepartmentRequired)
    case Salary =>
      (match e.salary
       case None => []
       case Some(s) => Check(s > 0, f, SalaryNotPositive))
    case AttendanceDays =>
      (match e.attendanceDays
       case None => [FieldError(FieldName(f), AttendanceRequired)]
       case Some(a) =>
         CheckBoth(a >= 0, AttendanceNegative,
                   a <= 31, AttendanceAbove31, f))
    case Roles => Check(e.roles != {}, f, RolesRequired)
  }

  /** Each message appears exactly when its own constraint fails, and a
      field gets at most two errors. */
  lemma FieldErrorsMessages(e: Employee, f: Field, today: int, isEmail: string -> bool)
    ensures |FieldErrors(e, f, today, isEmail)| <= 2
    ensures f == Firstname ==> (FieldError(FieldName(f), FirstnameRequired) in FieldErrors(e, f, today, isEmail) <==> !NotBlank(e.firstname))
    ensures f == Lastname ==> (FieldError(FieldName(f), LastnameRequired) in FieldErrors(e, f, today, isEmail) <==> !NotBlank(e.lastname))
    ensures f == Email ==>
      && (FieldError(FieldName(f), EmailNotValid) in FieldErrors(e, f, today, isEmail) <==> !isEmail(e.email))
      && (FieldError(FieldName(f), EmailRequired) in FieldErrors(e, f, today, isEmail) <==> !NotBlank(e.email))
    ensures f == Password ==>
      && (FieldError(FieldName(f), PasswordWeak) in FieldErrors(e, f, today, isEmail) <==> !PasswordPattern(e.password))
      && (FieldError(FieldName(f), PasswordRequired) in FieldErrors(e, f, today, isEmail) <==> !NotBlank(e.password))
    ensures f == DateOfBirth ==>
      && (FieldError(FieldName(f), BirthRequired) in FieldErrors(e, f, today, isEmail) <==> e.dateOfBirth.None?)
      && (FieldError(FieldName(f), BirthNotPast) in FieldErrors(e, f, today, isEmail) <==> e.dateOfBirth.Some? && e.dateOfBirth.value >= today)
    ensures f == Department ==> (FieldError(FieldName(f), DepartmentRequired) in FieldErrors(e, f, today, isEmail) <==> !NotBlank(e.department))
    ensures f == Salary ==>
      (FieldError(FieldName(f), SalaryNotPositive) in FieldErrors(e, f, today, isEmail) <==> e.salary.Some? && e.salary.value <= 0)
    ensures f == AttendanceDays ==>
      && (FieldError(FieldName(f), AttendanceRequired) in FieldErrors(e, f, today, isEmail) <==> e.attendanceDays.None?)
      && (FieldError(FieldName(f), AttendanceNegative) in FieldErrors(e, f, today, isEmail) <==> e.attendanceDays.Some? && e.attendanceDays.value < 0)
      && (FieldError(FieldName(f), AttendanceAbove31) in FieldErrors(e, f, today, isEmail) <==> e.attendanceDays.Some? && e.attendanceDays.value > 31)
    ensures f == Roles ==> (FieldError(FieldName(f), RolesRequired) in FieldErrors(e, f, today, isEmail) <==> e.roles == {})
  {
    match f
    case Firstname =>
    case Lastname =>
    case Email =>
    case Password =>
    case DateOfBirth =>
    case Department =>
    case Salary =>
    case AttendanceDays =>
    case Roles =>
  }

  predicate HasError(errors: seq<FieldError>, name: string)
  {
    exists i | 0 <= i < |errors| :: errors[i].field == name
  }

  lemma {:induction false} HasErrorAppend(a: seq<FieldError>, b: seq<FieldError>, name: string)
    ensures HasError(a + b, name) <==> HasError(a, name) || HasError(b, name)
  {
    if HasError(a, name) {
      var i :| 0 <= i < |a| && a[i].field == name;
      assert (a + b)[i] == a[i];
    }
    if HasError(b, name) {
      var i :| 0 <= i < |b| && b[i].field == name;
      assert (a + b)[|a| + i] == b[i];
    }
    if HasError(a + b, name) {
      var i :| 0 <= i < |a + b| && (a + b)[i].field == name;
      if i >= |a| {
        assert b[i - |a|] == (a + b)[i];
      } else {
        assert a[i] == (a + b)[i];
      }
    }
  }

  /** The errors for the listed fields, field after field. */
  function ErrorsFor(e: Employee, fields: seq<Field>, today: int, isEmail: string -> bool): seq<FieldError>
  {
    if fields == [] then []
    else FieldErrors(e, fields[0], today, isEmail) + ErrorsFor(e, fields[1..], today, isEmail)
  }

  lemma {:induction false} ErrorsForEmpty(e: Employee, fields: seq<Field>, today: int, isEmail: string -> bool)
    ensures ErrorsFor(e, fields, today, isEmail) == [] <==>
      forall k | 0 <= k < |fields| :: FieldOk(e, fields[k], today, isEmail)
  {
    if fields != [] {
      ErrorsForEmpty(e, fields[1..], today, isEmail);
      assert forall k | 1 <= k < |fields| :: fields[k] == fields[1..][k - 1];
    }
  }

  lemma {:induction false} ErrorsForNames(e: Employee, fields: seq<Field>, today: int, isEmail: string -> bool, f: Field)
    ensures HasError(ErrorsFor(e, fields, today, isEmail), FieldName(f)) <==>
      f in fields && !FieldOk(e, f, today, isEmail)
  {
    if fields != [] {
      var head := FieldErrors(e, fields[0], today, isEmail);
      ErrorsForNames(e, fields[1..], today, isEmail, f);
      HasErrorAppend(head, ErrorsFor(e, fields[1..], today, isEmail), FieldName(f));
      if HasError(head, FieldName(f)) {
        var i :| 0 <= i < |head| && head[i].field == FieldName(f);
        FieldNameInjective(f, fields[0]);
      }
      if f == fields[0] && !FieldOk(e, f, today, isEmail) {
        assert head[0].field == FieldName(f);
      }
      assert f in fields <==> f == fields[0] || f in fields[1..];
    }
  }

  lemma FieldNameInjective(f: Field, g: Field)
    requires FieldName(f) == FieldName(g)
    ensures f == g
  {
  }

  /** The field errors the validator reports for e: none exactly when e is
      valid, and a field is named exactly when its own constraints fail. */
  function ValidationErrors(e: Employee, today: int, isEmail: string -> bool): (errors: seq<FieldError>)
    ensures errors == [] <==> Valid(e, today, isEmail)
    ensures forall f :: HasError(errors, FieldName(f)) <==> !FieldOk(e, f, today, isEmail)
  {
    ErrorsForEmpty(e, AllFields, today, isEmail);
    AllFieldsOk(e, today, isEmail);
    forall f ensures HasError(ErrorsFor(e, AllFields, today, isEmail), FieldName(f)) <==> !FieldOk(e, f, today, isEmail) {
      ErrorsForNames(e, AllFields, today, isEmail, f);
      EveryFieldListed(f);
    }
    ErrorsFor(e, AllFields, today, isEmail)
  }

  /** Valid is the constraints of every field together. */
  lemma AllFieldsOk(e: Employee, today: int, isEmail: string -> bool)
    ensures Valid(e, today, isEmail) <==>
      forall k | 0 <= k < |AllFields| :: FieldOk(e, AllFields[k], today, isEmail)
  {
    if forall k | 0 <= k < |AllFields| :: FieldOk(e, AllFields[k], today, isEmail) {
      assert FieldOk(e, AllFields[0], today, isEmail) && FieldOk(e, AllFields[1], today, isEmail);
      assert FieldOk(e, AllFields[2], today, isEmail) && FieldOk(e, AllFields[3], today, isEmail);
      assert FieldOk(e, AllFields[4], today, isEmail) && FieldOk(e, AllFields[5], today, isEmail);
      assert FieldOk(e, AllFields[6], today, isEmail) && FieldOk(e, AllFields[7], today, isEmail);
      assert FieldOk(e, AllFields[8], today, isEmail);
    }
  }

  lemma EveryFieldListed(f: Field)
    ensures f in AllFields
  {
    match f
    case Firstname => assert AllFields[0] == f;
    case Lastname => assert AllFields[1] == f;
    case Email => assert AllFields[2] == f;
    case Password => assert AllFields[3] == f;
    case DateOfBirth => assert AllFields[4] == f;
    case Department => assert AllFields[5] == f;
    case Salary => assert AllFields[6] == f;
    case AttendanceDays => assert AllFields[7] == f;
    case Roles => assert AllFields[8] == f;
  }

  /** getAuthorities: one granted authority per role, named by the role. */
  function Authorities(roles: set<Role>): (names: set<string>)
    ensures forall r :: r in roles <==> RoleName(r) in names
    ensures forall n | n in names :: exists r :: r in roles && RoleName(r) == n
  {
    set r | r in roles :: RoleName(r)
  }

  /** No two roles share a name, so there are as many authorities as roles. */
  lemma {:induction false} AuthoritiesOnePerRole(roles: set<Role>)
    ensures |Authorities(roles)| == |roles|
  {
    if roles != {} {
      var r :| r in roles;
      var rest := roles - {r};
      AuthoritiesOnePerRole(rest);
      assert Authorities(roles) == Authorities(rest) + {RoleName(r)};
      assert RoleName(r) !in Authorities(rest);
    }
  }

  /** The UserDetails view of an employee that authentication works with. */
  datatype Principal = Principal(
    username: string,
    password: string,
    authorities: set<string>,
    accountNonExpired: bool,
    accountNonLocked: bool,
    credentialsNonExpired: bool,
    enabled: bool)

  /** The principal of e: the email is the user name, the stored (encoded)
      password the credential, and the four account-status flags are never
      false, so no account is ever expired, locked or disabled. */
  function PrincipalOf(e: Employee): (p: Principal)
    ensures p.username == e.email && p.password == e.password
    ensures p.authorities == Authorities(e.roles) && |p.authorities| == |e.roles|
    ensures p.accountNonExpired && p.accountNonLocked && p.credentialsNonExpired && p.enabled
  {
    AuthoritiesOnePerRole(e.roles);
    Principal(e.email, e.password, Authorities(e.roles), true, true, true, true)
  }

  /** The sample password of the API documentation is accepted, and so is one
      with no special character at all. */
  lemma SamplePasswords()
    ensures PasswordPattern("Password@123")
    ensures PasswordPattern("Passw0rdxyz")
    ensures !PasswordPattern("password123")
  {
    assert "Password@123"[11] == '3' && "Password@123"[1] == 'a' && "Password@123"[0] == 'P';
    assert "Passw0rdxyz"[5] == '0' && "Passw0rdxyz"[1] == 'a' && "Passw0rdxyz"[0] == 'P';
  }
}
