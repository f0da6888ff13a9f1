/** Concrete scenarios stated as assertions: the create / duplicate / delete sequence,
    the not-found message for id 1, and the attendance filter. */
module Scenarios {
  import opened Wrappers
  import opened Entity
  import opened Errors
  import opened Repository
  import opened EmployeeService
  import opened Reporting

  /** 1990-01-01 as a day number counted from 1970-01-01. */
  const HarishBirthday := 7305

  const Harish := Employee(0, "Harish", "Palaspagar", "h@x.com", "Password@123", Some(HarishBirthday),
                           "HR", None, Some(25), {USER})

  /** A stand-in encoder; the model does not depend on what it computes. */
  function TagEncode(raw: string): string {
    "{bcrypt}" + raw
  }

  lemma HarishIsValid(today: int, isEmail: string -> bool)
    requires HarishBirthday < today && isEmail("h@x.com")
    ensures Valid(Harish, today, isEmail)
  {
    SamplePasswords();
    assert Harish.firstname[0] == 'H' && Harish.lastname[0] == 'P' && Harish.email[0] == 'h';
    assert Harish.password[0] == 'P' && Harish.department[0] == 'H';
  }

  lemma NotFoundMessageForOne()
    ensures NotFoundMessage(1) == "Employee not found with id : 1"
  {
  }

  /** attendance 0, null, 5 and 20: only the last two are reported. */
  lemma AttendanceFilterExample()
    ensures
      var es := [Harish.(id := 1, attendanceDays := Some(0)), Harish.(id := 2, attendanceDays := None),
                 Harish.(id := 3, attendanceDays := Some(5)), Harish.(id := 4, attendanceDays := Some(20))];
      AttendanceReport(es) == [AttendanceReportDto(3, "Harish Palaspagar", 5), AttendanceReportDto(4, "Harish Palaspagar", 20)]
  {
    var es := [Harish.(id := 1, attendanceDays := Some(0)), Harish.(id := 2, attendanceDays := None),
               Harish.(id := 3, attendanceDays := Some(5)), Harish.(id := 4, attendanceDays := Some(20))];
    AttendanceReportOrder([], es[0], es[1..]);
    AttendanceReportOrder([], es[1], es[2..]);
    AttendanceReportOrder([], es[2], es[3..]);
    AttendanceReportOrder([], es[3], []);
    assert [] + [es[0]] + es[1..] == es;
    assert [] + [es[1]] + es[2..] == es[1..];
    assert [] + [es[2]] + es[3..] == es[2..];
    assert [] + [es[3]] + [] == es[3..];
    assert FullName(Harish) == "Harish Palaspagar";
    assert AttendanceReport([]) == [];
  }

  method CreateDeleteScenario() {
    var repository := new EmployeeRepository();
    var service := new EmployeeServiceImplementation(repository, TagEncode);
    var created := service.CreateEmployee(Harish);
    assert created == Success(Harish.(id := 1, password := TagEncode("Password@123")));
    var duplicate := service.CreateEmployee(Harish.(firstname := "Another"));
    assert EmailInUse(repository.rows, "h@x.com") by {
      assert repository.rows[1].email == "h@x.com";
    }
    assert duplicate == Failure(DuplicateEmail(DuplicateEmailMessage("h@x.com")));
    var deleted := service.DeleteEmployeeById(1);
    assert deleted == Pass;
    var again := service.DeleteEmployeeById(1);
    NotFoundMessageForOne();
    assert again == Fail(EmployeeNotFound("Employee not found with id : 1"));
  }
}
