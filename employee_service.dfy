/** The employee lifecycle service: create, retrieve, update and delete
    over the repository, encoding the password before every write and
    turning the store's rejections into typed errors. */
module EmployeeService {
  import opened Wrappers
  import opened Entity
  import opened Errors
  import opened Repository

  class EmployeeServiceImplementation {
    const repository: EmployeeRepository
    /** The password encoder (BCrypt in the application), left uninterpreted. */
    const encode: string -> string

    constructor (repository: EmployeeRepository, encode: string -> string)
      ensures this.repository == repository && this.encode == encode
    {
      this.repository := repository;
      this.encode := encode;
    }

    /** Stores the employee with its password encoded, under a new id handed
        out by the store; an email already used by a row is rejected with
        DuplicateEmail and the store keeps its old state. */
    method CreateEmployee(employee: Employee) returns (r: Result<Employee, Error>)
      requires repository.Valid()
      modifies repository
      ensures repository.Valid()
      ensures r.Success? <==> !EmailInUse(old(repository.rows), employee.email)
      ensures r.Success? ==>
        && r.value == employee.(id := old(repository.nextId), password := encode(employee.password))
        && r.value.id !in old(repository.rows)
        && repository.rows == old(repository.rows)[r.value.id := r.value]
        && repository.order == old(repository.order) + [r.value.id]
        && repository.nextId == old(repository.nextId) + 1
      ensures r.Failure? ==>
        r.error == DuplicateEmail(DuplicateEmailMessage(employee.email)) && unchanged(repository)
    {
      var toSave := employee.(password := encode(employee.password));
      var saved := repository.SaveNew(toSave);
      match saved
      case Success(e) =>
        r := Success(e);
      case Failure(_) =>
        r := Failure(DuplicateEmail(DuplicateEmailMessage(employee.email)));
    }

    /** The stored employee with this id, or NotFound naming the id. */
    method RetrieveEmployeeById(id: int) returns (r: Result<Employee, Error>)
      ensures r.Success? <==> id in repository.rows
      ensures r.Success? ==> r.value == repository.rows[id]
      ensures r.Failure? ==> r.error == EmployeeNotFound(NotFoundMessage(id))
    {
      var found := repository.FindById(id);
      match found
      case Some(e) =>
        r := Success(e);
      case None =>
        r := Failure(EmployeeNotFound(NotFoundMessage(id)));
    }

    /** Removes exactly the row with this id; an absent id is NotFound and
        the store is not touched (deleteById is never called). */
    method DeleteEmployeeById(id: int) returns (r: Outcome<Error>)
      requires repository.Valid()
      modifies repository
      ensures repository.Valid()
      ensures r.Pass? <==> id in old(repository.rows)
      ensures r.Pass? ==>
        && repository.rows == old(repository.rows) - {id}
        && repository.order == Without(old(repository.order), id)
        && repository.nextId == old(repository.nextId)
      ensures r.Fail? ==> r.error == EmployeeNotFound(NotFoundMessage(id)) && unchanged(repository)
    {
      var present := repository.ExistsById(id);
      if !present {
        return Fail(EmployeeNotFound(NotFoundMessage(id)));
      }
      repository.DeleteById(id);
      r := Pass;
    }

    /** Full replace: the row keeps its id and takes every other field from
        the input, the password re-encoded. An absent id is NotFound; an email
        held by another row is DuplicateEmail; either way nothing is saved. */
    method UpdateEmployeeById(id: int, updatedEmployee: Employee) returns (r: Result<Employee, Error>)
      requires repository.Valid()
      modifies repository
      ensures repository.Valid()
      ensures id !in old(repository.rows) ==>
        r == Failure(EmployeeNotFound(NotFoundMessage(id))) && unchanged(repository)
      ensures id in old(repository.rows) && EmailInUse(old(repository.rows) - {id}, updatedEmployee.email) ==>
        r == Failure(DuplicateEmail(DuplicateEmailMessage(updatedEmployee.email))) && unchanged(repository)
      ensures r.Success? <==>
        id in old(repository.rows) && !EmailInUse(old(repository.rows) - {id}, updatedEmployee.email)
      ensures r.Success? ==>
        && r.value == updatedEmployee.(id := id, password := encode(updatedEmployee.password))
        && repository.rows == old(repository.rows)[id := r.value]
        && repository.order == old(repository.order)
        && repository.nextId == old(repository.nextId)
    {
      var found := repository.FindById(id);
      if found.None? {
        return Failure(EmployeeNotFound(NotFoundMessage(id)));
      }
      var employee := found.value;
      employee := employee.(firstname := updatedEmployee.firstname);
      employee := employee.(lastname := updatedEmployee.lastname);
      employee := employee.(email := updatedEmployee.email);
      employee := employee.(department := updatedEmployee.department);
      employee := employee.(attendanceDays := updatedEmployee.attendanceDays);
      employee := employee.(dateOfBirth := updatedEmployee.dateOfBirth);
      employee := employee.(roles := updatedEmployee.roles);
      employee := employee.(salary := updatedEmployee.salary);
      employee := employee.(password := encode(updatedEmployee.password));
      var saved := repository.SaveExisting(employee);
      match saved
      case Success(e) =>
        r := Success(e);
      case Failure(_) =>
        r := Failure(DuplicateEmail(DuplicateEmailMessage(updatedEmployee.email)));
    }

    /** Every stored employee, in the store's order; an empty store gives an
        empty list, not an error. */
    method RetrieveAllEmployees() returns (es: seq<Employee>)
      requires repository.Valid()
      ensures es == repository.Contents()
    {
      es := repository.FindAll();
    }
  }
}
