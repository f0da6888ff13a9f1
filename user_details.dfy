/** The login lookup: the authentication provider asks for the user whose
    username is an email, and gets the stored employee, whose principal
    view carries the encoded password and one authority per role. */
module UserDetails {
  import opened Wrappers
  import opened Entity
  import opened Errors
  import opened Repository

  const EmployeeNotFoundText := "Employee not found !!"
  const UsernameNotFoundPrefix := "Username not found with email : "

  /** The lookup as written: a first query decides the not-found error, and
      a second query, which may see a different store, supplies the result. */
  function LoadUser(firstRead: seq<Employee>, secondRead: seq<Employee>, username: string): (r: Result<Employee, Error>)
    ensures r.Success? ==> r.value in secondRead && r.value.email == username
    ensures r.Success? <==> FindByEmail(firstRead, username).Some? && FindByEmail(secondRead, username).Some?
    ensures FindByEmail(firstRead, username).Some? && FindByEmail(secondRead, username).None? ==>
      r == Failure(UsernameNotFound(UsernameNotFoundPrefix + username))
    ensures r == Failure(EmployeeNotFound(EmployeeNotFoundText)) <==> FindByEmail(firstRead, username).None?
    ensures r.Failure? && r.error.UsernameNotFound? ==>
      r.error.message == UsernameNotFoundPrefix + username && FindByEmail(secondRead, username).None?
  {
    match FindByEmail(firstRead, username)
    case None => Failure(EmployeeNotFound(EmployeeNotFoundText))
    case Some(_) =>
      match FindByEmail(secondRead, username)
      case None => Failure(UsernameNotFound(UsernameNotFoundPrefix + username))
      case Some(employee) => Success(employee)
  }

  /** When both queries see the same store, the second one cannot miss, and
      the lookup yields exactly the stored employee with that email. */
  lemma LoadUserOnStableStore(es: seq<Employee>, username: string)
    requires UniqueEmails(es)
    ensures !(LoadUser(es, es, username).Failure? && LoadUser(es, es, username).error.UsernameNotFound?)
    ensures forall e :: LoadUser(es, es, username) == Success(e) <==> e in es && e.email == username
  {
    forall e ensures LoadUser(es, es, username) == Success(e) <==> e in es && e.email == username {
      FindByEmailUnique(es, username, e);
    }
  }

  /** Authenticating as the returned employee authenticates as the username. */
  lemma PrincipalNamesTheUsername(firstRead: seq<Employee>, secondRead: seq<Employee>, username: string)
    requires LoadUser(firstRead, secondRead, username).Success?
    ensures PrincipalOf(LoadUser(firstRead, secondRead, username).value).username == username
  {
  }

  class CustomUserDetailServiceImplementation {
    const employeeRepository: EmployeeRepository

    constructor (employeeRepository: EmployeeRepository)
      ensures this.employeeRepository == employeeRepository
    {
      this.employeeRepository := employeeRepository;
    }

    /** Reads the store twice, changes nothing, and finds the employee with
        email username or fails with "Employee not found !!". */
    method LoadUserByUsername(username: string) returns (r: Result<Employee, Error>)
      requires employeeRepository.Valid()
      ensures r.Success? <==> exists e | e in employeeRepository.Contents() :: e.email == username
      ensures r.Success? ==> r.value in employeeRepository.Contents() && r.value.email == username
      ensures r.Failure? ==> r.error == EmployeeNotFound(EmployeeNotFoundText)
    {
      var firstRead := employeeRepository.FindAll();
      var secondRead := employeeRepository.FindAll();
      r := LoadUser(firstRead, secondRead, username);
      LoadUserOnStableStore(firstRead, username);
      if r.Success? {
        assert r.value in firstRead;
      } else {
        assert forall i | 0 <= i < |firstRead| :: firstRead[i].email != username;
      }
    }
  }
}
