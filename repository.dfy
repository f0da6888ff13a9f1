/** The employee store: the JPA repository the services use, as a table of
    rows keyed by id, kept in insertion order, with the identity counter
    that hands out new ids, and the two queries it declares (the derived
    findByEmail and the GROUP BY department count) as functions of its
    contents. */
module Repository {
  import opened Wrappers
  import opened Entity

  predicate Distinct(s: seq<int>)
  {
    forall i, j | 0 <= i < j < |s| :: s[i] != s[j]
  }

  lemma DistinctTail(s: seq<int>)
    requires s != [] && Distinct(s)
    ensures Distinct(s[1..]) && s[0] !in s[1..]
  {
    assert forall i | 0 <= i < |s[1..]| :: s[1..][i] == s[i + 1];
  }

  lemma DistinctCons(a: int, s: seq<int>)
    requires Distinct(s) && a !in s
    ensures Distinct([a] + s)
  {
    assert forall i | 1 <= i < |[a] + s| :: ([a] + s)[i] == s[i - 1];
  }

  /** s without the occurrences of x, order kept. */
  function Without(s: seq<int>, x: int): (r: seq<int>)
    ensures forall y :: y in r <==> y in s && y != x
  {
    if s == [] then []
    else if s[0] == x then Without(s[1..], x)
    else [s[0]] + Without(s[1..], x)
  }

  lemma {:induction false} WithoutDistinct(s: seq<int>, x: int)
    requires Distinct(s)
    ensures Distinct(Without(s, x))
  {
    if s != [] {
      DistinctTail(s);
      WithoutDistinct(s[1..], x);
      if s[0] != x {
        DistinctCons(s[0], Without(s[1..], x));
      }
    }
  }

  /** The rows listed by `order`, in that order. */
  function InOrder(order: seq<int>, rows: map<int, Employee>): (es: seq<Employee>)
    requires forall i | 0 <= i < |order| :: order[i] in rows
    ensures |es| == |order|
    ensures forall i | 0 <= i < |order| :: es[i] == rows[order[i]]
  {
    if order == [] then [] else [rows[order[0]]] + InOrder(order[1..], rows)
  }

  /** Some row holds this email. */
  predicate EmailInUse(rows: map<int, Employee>, email: string)
  {
    exists id | id in rows :: rows[id].email == email
  }

  /** The unique constraint on the email column, over the table. */
  ghost predicate EmailsUnique(rows: map<int, Employee>)
  {
    forall a, b | a in rows && b in rows && a != b :: rows[a].email != rows[b].email
  }

  /** The same constraint, over a list of rows. */
  predicate UniqueEmails(es: seq<Employee>)
  {
    forall i, j | 0 <= i < j < |es| :: es[i].email != es[j].email
  }

  /** Listing a uniquely-keyed table yields rows with unique emails. */
  lemma InOrderUniqueEmails(order: seq<int>, rows: map<int, Employee>)
    requires forall i | 0 <= i < |order| :: order[i] in rows
    requires Distinct(order) && EmailsUnique(rows)
    ensures UniqueEmails(InOrder(order, rows))
  {
    var es := InOrder(order, rows);
    forall i, j | 0 <= i < j < |es| ensures es[i].email != es[j].email {
      assert es[i] == rows[order[i]] && es[j] == rows[order[j]];
    }
  }

  /** findByEmail: the row with this email, if there is one. */
  function FindByEmail(es: seq<Employee>, email: string): (r: Option<Employee>)
    ensures r.Some? ==> r.value in es && r.value.email == email
    ensures r.None? <==> forall i | 0 <= i < |es| :: es[i].email != email
  {
    if es == [] then None
    else if es[0].email == email then Some(es[0])
    else FindByEmail(es[1..], email)
  }

  /** Because emails are unique, findByEmail returns THE employee with that
      email: any row holding it is the one found. */
  lemma {:induction false} FindByEmailUnique(es: seq<Employee>, email: string, e: Employee)
    requires UniqueEmails(es)
    ensures FindByEmail(es, email) == Some(e) <==> e in es && e.email == email
  {
    if es != [] && es[0].email != email {
      assert UniqueEmails(es[1..]) by {
        forall i, j | 0 <= i < j < |es[1..]| ensures es[1..][i].email != es[1..][j].email {
          assert es[1..][i] == es[i + 1] && es[1..][j] == es[j + 1];
        }
      }
      FindByEmailUnique(es[1..], email, e);
      assert e in es <==> e == es[0] || e in es[1..];
    } else if es != [] {
      if e in es && e.email == email {
        var k :| 0 <= k < |es| && es[k] == e;
        assert k == 0;
      }
    }
  }

  /** One row of the department query: a department and its head count. */
  datatype DepartmentRow = DepartmentRow(department: string, count: int)

  /** The position of department d among the rows, or |rows| if absent. */
  function IndexOf(rows: seq<DepartmentRow>, d: string): (k: nat)
    ensures k <= |rows|
    ensures k < |rows| ==> rows[k].department == d
    ensures forall i | 0 <= i < k :: rows[i].department != d
  {
    if rows == [] then 0
    else if rows[0].department == d then 0
    else 1 + IndexOf(rows[1..], d)
  }

  /** Groups one more employee of department d into the rows. */
  function Tally(rows: seq<DepartmentRow>, d: string): seq<DepartmentRow>
  {
    var k := IndexOf(rows, d);
    if k < |rows| then rows[k := rows[k].(count := rows[k].count + 1)]
    else rows + [DepartmentRow(d, 1)]
  }

  /** The GROUP BY department query: a row per department, with its count. */
  function DepartmentWiseReport(es: seq<Employee>): seq<DepartmentRow>
  {
    if es == [] then [] else Tally(DepartmentWiseReport(es[..|es| - 1]), es[|es| - 1].department)
  }

  /** The number of employees in department d. */
  function DepartmentSize(es: seq<Employee>, d: string): nat
  {
    if es == [] then 0
    else DepartmentSize(es[..|es| - 1], d) + (if es[|es| - 1].department == d then 1 else 0)
  }

  function TotalCount(rows: seq<DepartmentRow>): int
  {
    if rows == [] then 0 else TotalCount(rows[..|rows| - 1]) + rows[|rows| - 1].count
  }

  lemma {:induction false} TotalCountBump(rows: seq<DepartmentRow>, k: nat)
    requires k < |rows|
    ensures TotalCount(rows[k := rows[k].(count := rows[k].count + 1)]) == TotalCount(rows) + 1
  {
    var bumped := rows[k := rows[k].(count := rows[k].count + 1)];
    var n := |rows| - 1;
    if k < n {
      TotalCountBump(rows[..n], k);
      assert bumped[..n] == rows[..n][k := rows[k].(count := rows[k].count + 1)];
    } else {
      assert bumped[..n] == rows[..n];
    }
  }

  predicate OneRowPerDepartment(rows: seq<DepartmentRow>)
  {
    forall i, j | 0 <= i < j < |rows| :: rows[i].department != rows[j].department
  }

  predicate CountsMatch(rows: seq<DepartmentRow>, es: seq<Employee>)
  {
    forall i | 0 <= i < |rows| :: rows[i].count == DepartmentSize(es, rows[i].department) >= 1
  }

  ghost predicate CoversAll(rows: seq<DepartmentRow>, es: seq<Employee>)
  {
    forall d :: DepartmentSize(es, d) > 0 ==> exists i :: 0 <= i < |rows| && rows[i].department == d
  }

  /** The rows describe es exactly: each department of es has one row, no
      other row exists, and each row counts its department's employees. */
  ghost predicate Describes(rows: seq<DepartmentRow>, es: seq<Employee>)
  {
    && OneRowPerDepartment(rows)
    && CountsMatch(rows, es)
    && CoversAll(rows, es)
    && TotalCount(rows) == |es|
  }

  lemma DepartmentSizeAppend(prefix: seq<Employee>, e: Employee, x: string)
    ensures DepartmentSize(prefix + [e], x) == DepartmentSize(prefix, x) + (if e.department == x then 1 else 0)
  {
    assert (prefix + [e])[..|prefix|] == prefix;
  }

  /** Tally either bumps the one row of d or appends a new row for it. */
  lemma TallyShape(rows: seq<DepartmentRow>, d: string)
    ensures var k := IndexOf(rows, d); var result := Tally(rows, d);
      if k < |rows| then
        && |result| == |rows|
        && result[k] == DepartmentRow(d, rows[k].count + 1)
        && forall i | 0 <= i < |rows| && i != k :: result[i] == rows[i]
      else
        && result == rows + [DepartmentRow(d, 1)]
        && forall i | 0 <= i < |rows| :: rows[i].department != d
  {
  }

  lemma TallyOneRowPerDepartment(rows: seq<DepartmentRow>, d: string)
    requires OneRowPerDepartment(rows)
    ensures OneRowPerDepartment(Tally(rows, d))
  {
    TallyShape(rows, d);
  }

  lemma TallyCountsMatch(rows: seq<DepartmentRow>, prefix: seq<Employee>, e: Employee)
    requires OneRowPerDepartment(rows) && CountsMatch(rows, prefix) && CoversAll(rows, prefix)
    ensures CountsMatch(Tally(rows, e.department), prefix + [e])
  {
    var d := e.department;
    var result := Tally(rows, d);
    TallyShape(rows, d);
    forall i | 0 <= i < |result|
      ensures result[i].count == DepartmentSize(prefix + [e], result[i].department) >= 1
    {
      DepartmentSizeAppend(prefix, e, result[i].department);
      if i < |rows| && i != IndexOf(rows, d) {
        assert result[i] == rows[i];
      } else if i == |rows| {
        assert DepartmentSize(prefix, d) == 0;
      }
    }
  }

  lemma TallyCoversAll(rows: seq<DepartmentRow>, prefix: seq<Employee>, e: Employee)
    requires CoversAll(rows, prefix)
    ensures CoversAll(Tally(rows, e.department), prefix + [e])
  {
    var d := e.department;
    var result := Tally(rows, d);
    TallyShape(rows, d);
    forall x | DepartmentSize(prefix + [e], x) > 0
      ensures exists i :: 0 <= i < |result| && result[i].department == x
    {
      DepartmentSizeAppend(prefix, e, x);
      if x == d {
        var k := IndexOf(rows, d);
        if k < |rows| {
          assert result[k].department == x;
        } else {
          assert result[|rows|].department == x;
        }
      } else {
        var i :| 0 <= i < |rows| && rows[i].department == x;
        assert result[i].department == x;
      }
    }
  }

  lemma TallyTotalCount(rows: seq<DepartmentRow>, d: string)
    ensures TotalCount(Tally(rows, d)) == TotalCount(rows) + 1
  {
    var k := IndexOf(rows, d);
    if k < |rows| {
      TotalCountBump(rows, k);
    } else {
      assert Tally(rows, d)[..|rows|] == rows;
    }
  }

  /** Grouping one more employee keeps the rows describing the employees. */
  lemma TallyDescribes(rows: seq<DepartmentRow>, prefix: seq<Employee>, e: Employee)
    requires Describes(rows, prefix)
    ensures Describes(Tally(rows, e.department), prefix + [e])
  {
    TallyOneRowPerDepartment(rows, e.department);
    TallyCountsMatch(rows, prefix, e);
    TallyCoversAll(rows, prefix, e);
    TallyTotalCount(rows, e.department);
  }

  /** The GROUP BY result has exactly one row per department present, each
      row's count is that department's head count (so at least 1), and the
      counts add up to the number of employees. */
  lemma {:induction false} DepartmentWiseReportDescribes(es: seq<Employee>)
    ensures Describes(DepartmentWiseReport(es), es)
  {
    if es != [] {
      var prefix := es[..|es| - 1];
      DepartmentWiseReportDescribes(prefix);
      assert es == prefix + [es[|es| - 1]];
      TallyDescribes(DepartmentWiseReport(prefix), prefix, es[|es| - 1]);
    }
  }

  /** The store failure the service translates: a rejected write. */
  datatype StoreError = DataIntegrityViolation

  class EmployeeRepository {
    var rows: map<int, Employee>
    var order: seq<int>
    var nextId: int

    /** The table's invariant: `order` lists every id once, each row sits
        under its own id, ids lie below the counter, emails are unique. */
    ghost predicate Valid()
      reads this
    {
      && (forall i | 0 <= i < |order| :: order[i] in rows)
      && (forall id | id in rows :: id in order)
      && Distinct(order)
      && 0 < nextId
      && (forall id | id in rows :: rows[id].id == id && 0 < id < nextId)
      && EmailsUnique(rows)
    }

    /** The rows as findAll lists them. */
    function Contents(): (es: seq<Employee>)
      reads this
      requires Valid()
      ensures UniqueEmails(es)
    {
      InOrderUniqueEmails(order, rows);
      InOrder(order, rows)
    }

    constructor ()
      ensures Valid()
      ensures rows == map[] && order == [] && nextId == 1
    {
      rows := map[];
      order := [];
      nextId := 1;
    }

    method FindById(id: int) returns (r: Option<Employee>)
      ensures r.Some? <==> id in rows
      ensures r.Some? ==> r.value == rows[id]
    {
      r := if id in rows then Some(rows[id]) else None;
    }

    method ExistsById(id: int) returns (b: bool)
      ensures b <==> id in rows
    {
      b := id in rows;
    }

    method FindAll() returns (es: seq<Employee>)
      requires Valid()
      ensures es == Contents()
      ensures forall i | 0 <= i < |es| :: es[i] in rows.Values
    {
      es := InOrder(order, rows);
    }

    /** save of an entity that has no id yet: the row is inserted under the
        next identity value, unless its email is already in use. */
    method SaveNew(e: Employee) returns (r: Result<Employee, StoreError>)
      requires Valid()
      modifies this
      ensures Valid()
      ensures r.Failure? <==> EmailInUse(old(rows), e.email)
      ensures r.Success? ==>
        && r.value == e.(id := old(nextId))
        && old(nextId) !in old(rows)
        && rows == old(rows)[old(nextId) := r.value]
        && order == old(order) + [old(nextId)]
        && nextId == old(nextId) + 1
      ensures r.Failure? ==> unchanged(this)
    {
      if EmailInUse(rows, e.email) {
        return Failure(DataIntegrityViolation);
      }
      var saved := e.(id := nextId);
      assert nextId !in rows;
      rows := rows[nextId := saved];
      order := order + [nextId];
      nextId := nextId + 1;
      r := Success(saved);
    }

    /** save of a row loaded from the table: the row under e.id is
        overwritten, unless another row already holds e's email. */
    method SaveExisting(e: Employee) returns (r: Result<Employee, StoreError>)
      requires Valid() && e.id in rows
      modifies this
      ensures Valid()
      ensures r.Failure? <==> EmailInUse(old(rows) - {e.id}, e.email)
      ensures r.Success? ==>
        r.value == e && rows == old(rows)[e.id := e] && order == old(order) && nextId == old(nextId)
      ensures r.Failure? ==> unchanged(this)
    {
      if EmailInUse(rows - {e.id}, e.email) {
        return Failure(DataIntegrityViolation);
      }
      ghost var others := rows - {e.id};
      rows := rows[e.id := e];
      forall a, b | a in rows && b in rows && a != b ensures rows[a].email != rows[b].email {
        if a == e.id {
          assert b in others;
        } else if b == e.id {
          assert a in others;
        }
      }
      r := Success(e);
    }

    /** deleteById: the row under id is gone; an absent id changes nothing. */
    method DeleteById(id: int)
      requires Valid()
      modifies this
      ensures Valid()
      ensures rows == old(rows) - {id} && order == Without(old(order), id) && nextId == old(nextId)
    {
      rows := rows - {id};
      WithoutDistinct(order, id);
      order := Without(order, id);
      assert forall i | 0 <= i < |order| :: order[i] in order;
    }
  }
}
