/** `EmployeeService`: creating an employee (email checks, then an
    identifier derived from the current count), listing, lookup by
    identifier, deletion with its cascade to attendance, and the count. */
module EmployeeService {
  import opened Results
  import opened Order
  import opened Validators
  import opened Store
  import opened Decimal
  import AttendanceService

  const InvalidEmailDetail := "Invalid email format"
  const EmailExistsDetail := "Email already exists"

  // ---------------------------------------------------------------------
  // create_employee
  // ---------------------------------------------------------------------

  /** `create_employee`. A malformed email is rejected (400) before a taken
      one (409); both leave the store as it was. Otherwise the identifier is
      generated from the current count. When an employee already holds that
      identifier the unique index rejects the insert and the request ends
      in the application's 500 handler, again with no change; else exactly
      one employee is appended, stamped `now`, and returned as inserted. */
  method CreateEmployee(db: Database, fullName: string, email: string, department: string, now: nat)
    returns (r: Result<Employee>)
    requires db.Valid()
    requires 1 <= |fullName| <= 100 && 1 <= |department| <= 50
    modifies db
    ensures db.Valid()
    ensures db.attendance == old(db.attendance)
    ensures !ValidEmail(email) ==> r == Failure(HttpError(StatusBadRequest, InvalidEmailDetail))
    ensures ValidEmail(email) && EmailInUse(old(db.employees), email) ==>
      r == Failure(HttpError(StatusConflict, EmailExistsDetail))
    ensures r.Failure? ==> db.employees == old(db.employees)
    ensures ValidEmail(email) && !EmailInUse(old(db.employees), email) ==>
      var id := GenerateEmployeeId(|old(db.employees)|);
      if FindEmployee(old(db.employees), id).Some? then r == Failure(InternalError)
      else
        && r == Success(Employee(id, fullName, email, department, now))
        && db.employees == old(db.employees) + [r.value]
    ensures old(Referential(db.employees, db.attendance)) ==> Referential(db.employees, db.attendance)
    ensures old(SequentialIds(db.employees)) ==> SequentialIds(db.employees)
  {
    if !ValidEmail(email) {
      return Failure(HttpError(StatusBadRequest, InvalidEmailDetail));
    }
    if EmailInUse(db.employees, email) {
      return Failure(HttpError(StatusConflict, EmailExistsDetail));
    }
    var count := |db.employees|;
    var id := GenerateEmployeeId(count);
    if FindEmployee(db.employees, id).Some? {
      return Failure(InternalError);
    }
    var employee := Employee(id, fullName, email, department, now);
    GeneratedIdFormat(count);
    AppendKeepsConsistent(db.employees, db.attendance, employee);
    if SequentialIds(db.employees) {
      AppendKeepsSequentialIds(db.employees, employee);
    }
    db.employees := db.employees + [employee];
    r := Success(employee);
  }

  /** Appending a well-formed employee whose identifier and email are both
      free keeps every index satisfied, and every record still resolves. */
  lemma AppendKeepsConsistent(employees: seq<Employee>, attendance: seq<Attendance>, e: Employee)
    requires Consistent(employees, attendance)
    requires WellFormedEmployee(e)
    requires FindEmployee(employees, e.employeeId).None? && !EmailInUse(employees, e.email)
    ensures Consistent(employees + [e], attendance)
    ensures Referential(employees, attendance) ==> Referential(employees + [e], attendance)
  {
    var all := employees + [e];
    assert forall i :: 0 <= i < |employees| ==> all[i] == employees[i];
    if Referential(employees, attendance) {
      forall a | a in attendance
        ensures FindEmployee(all, a.employeeId).Some?
      {
        var k := FindEmployee(employees, a.employeeId).value;
        assert all[k].employeeId == a.employeeId;
      }
    }
  }

  /** The employees' identifiers are among EMP001 .. EMP{count}, as they are
      while employees are only ever created. */
  ghost predicate SequentialIds(employees: seq<Employee>)
  {
    forall e :: e in employees ==> exists i :: 0 <= i < |employees| && e.employeeId == GenerateEmployeeId(i)
  }

  /** While the identifiers are EMP001 .. EMP{count}, the identifier
      generated from the count is free, so the insert cannot be rejected. */
  lemma SequentialIdsGiveFreshId(employees: seq<Employee>)
    requires SequentialIds(employees)
    ensures FindEmployee(employees, GenerateEmployeeId(|employees|)).None?
  {
    forall e | e in employees
      ensures e.employeeId != GenerateEmployeeId(|employees|)
    {
      var i :| 0 <= i < |employees| && e.employeeId == GenerateEmployeeId(i);
    }
  }

  lemma AppendKeepsSequentialIds(employees: seq<Employee>, e: Employee)
    requires SequentialIds(employees)
    requires e.employeeId == GenerateEmployeeId(|employees|)
    ensures SequentialIds(employees + [e])
  {
    var all := employees + [e];
    forall x | x in all
      ensures exists i :: 0 <= i < |all| && x.employeeId == GenerateEmployeeId(i)
    {
      if x in employees {
        var i :| 0 <= i < |employees| && x.employeeId == GenerateEmployeeId(i);
        assert 0 <= i < |all|;
      } else {
        assert x == e;
        assert x.employeeId == GenerateEmployeeId(|employees|);
      }
    }
  }

  /** Once an employee is deleted the scheme no longer yields a free
      identifier: with EMP001 and EMP002 on file, deleting EMP001 leaves one
      employee, and the next create generates EMP002 again, which the
      unique index then rejects. */
  lemma DeleteThenCreateCollides(a: Employee, b: Employee)
    requires a.employeeId == "EMP001" && b.employeeId == "EMP002"
    ensures var after := WithoutEmployee([a, b], "EMP001");
      && after == [b]
      && FindEmployee(after, GenerateEmployeeId(|after|)).Some?
  {
    assert ToDecimal(2) == "2";
    assert GenerateEmployeeId(1) == "EMP002";
  }

  /** Every identifier on file has the EMPnnn format. */
  predicate IdsFormatted(employees: seq<Employee>)
  {
    forall i :: 0 <= i < |employees| ==> ValidEmployeeIdFormat(employees[i].employeeId)
  }

  /** The largest number carried by an identifier on file (0 when there
      is none). */
  function MaxIdNumber(employees: seq<Employee>): (m: nat)
    requires IdsFormatted(employees)
    ensures forall i :: 0 <= i < |employees| ==> Value(employees[i].employeeId[3..]) <= m
    ensures employees != [] ==> exists i :: 0 <= i < |employees| && Value(employees[i].employeeId[3..]) == m
  {
    if employees == [] then 0
    else
      var tail := employees[1..];
      assert forall i :: 0 <= i < |tail| ==> tail[i] == employees[i + 1];
      var rest := MaxIdNumber(tail);
      var v := Value(employees[0].employeeId[3..]);
      if v > rest then v else rest
  }

  /** The generator the docstring describes ("unique employee ID"): one past
      the largest number on file, in the same EMPnnn format. */
  function NextEmployeeId(employees: seq<Employee>): string
    requires IdsFormatted(employees)
  {
    GenerateEmployeeId(MaxIdNumber(employees))
  }

  /** Unlike the count-based identifier, this one is free whatever was
      deleted before. */
  lemma NextEmployeeIdIsFresh(employees: seq<Employee>)
    requires IdsFormatted(employees)
    ensures ValidEmployeeIdFormat(NextEmployeeId(employees))
    ensures FindEmployee(employees, NextEmployeeId(employees)).None?
  {
    var m := MaxIdNumber(employees);
    GeneratedIdFormat(m);
    forall e | e in employees
      ensures e.employeeId != NextEmployeeId(employees)
    {
      var i :| 0 <= i < |employees| && employees[i] == e;
      assert Value(e.employeeId[3..]) <= m;
    }
  }

  /** On the state of `DeleteThenCreateCollides` the corrected generator
      gives EMP003. */
  lemma NextEmployeeIdAfterDelete(b: Employee)
    requires b.employeeId == "EMP002"
    ensures NextEmployeeId([b]) == "EMP003"
  {
    assert b.employeeId[3..] == "002";
    assert Value("002") == 2 by {
      assert "002"[..2] == "00" && "00"[..1] == "0" && "0"[..0] == [];
    }
    assert ToDecimal(3) == "3";
  }

  // ---------------------------------------------------------------------
  // get_all_employees, get_employee_by_id, get_total_employees
  // ---------------------------------------------------------------------

  /** The `sort("created_at", -1)` order: newest first. */
  predicate NewerFirst(x: Employee, y: Employee)
  {
    x.createdAt >= y.createdAt
  }

  /** `get_all_employees`: every employee, newest first. */
  function GetAllEmployees(employees: seq<Employee>): (r: seq<Employee>)
    ensures multiset(r) == multiset(employees)
    ensures forall i, j :: 0 <= i < j < |r| ==> r[i].createdAt >= r[j].createdAt
  {
    assert Total(NewerFirst) && Transitive(NewerFirst);
    SortBySorted(employees, NewerFirst);
    SortBy(employees, NewerFirst)
  }

  /** `get_employee_by_id`: the employee with exactly that identifier, or
      404. */
  function GetEmployeeById(employees: seq<Employee>, id: string): (r: Result<Employee>)
    ensures r.Success? ==> r.value in employees && r.value.employeeId == id
    ensures r.Failure? <==> forall e :: e in employees ==> e.employeeId != id
    ensures r.Failure? ==> r.error == EmployeeNotFound(id)
    ensures UniqueIds(employees) && r.Success? ==>
      forall e :: e in employees && e.employeeId == id ==> e == r.value
  {
    match FindEmployee(employees, id)
    case None => Failure(EmployeeNotFound(id))
    case Some(k) =>
      OnlyMatch(employees, k);
      Success(employees[k])
  }

  /** Under the identifier index, the employee at `k` is the only one with
      its identifier. */
  lemma OnlyMatch(employees: seq<Employee>, k: nat)
    requires k < |employees|
    ensures UniqueIds(employees) ==>
      forall e :: e in employees && e.employeeId == employees[k].employeeId ==> e == employees[k]
  {
    if UniqueIds(employees) {
      forall e | e in employees && e.employeeId == employees[k].employeeId
        ensures e == employees[k]
      {
        var j :| 0 <= j < |employees| && employees[j] == e;
        assert j == k;
      }
    }
  }

  /** `count_documents({})` on the employee collection. With the identifier
      index in force, the total is the number of distinct employees on
      file. */
  function GetTotalEmployees(employees: seq<Employee>): (n: nat)
    ensures UniqueIds(employees) ==> n == |EmployeeIds(employees)|
  {
    EmployeesCountIds(employees);
    |employees|
  }

  function EmployeeIds(employees: seq<Employee>): set<string>
  {
    set e | e in employees :: e.employeeId
  }

  /** Under the identifier index, no two employees share an identifier. */
  lemma {:induction false} EmployeesCountIds(employees: seq<Employee>)
    ensures UniqueIds(employees) ==> |employees| == |EmployeeIds(employees)|
  {
    if employees != [] && UniqueIds(employees) {
      var head, tail := employees[0], employees[1..];
      assert UniqueIds(tail) by {
        forall i, j | 0 <= i < j < |tail|
          ensures tail[i].employeeId != tail[j].employeeId
        {
          assert tail[i] == employees[i + 1] && tail[j] == employees[j + 1];
        }
      }
      EmployeesCountIds(tail);
      assert employees == [head] + tail;
      assert EmployeeIds(employees) == {head.employeeId} + EmployeeIds(tail);
      assert head.employeeId !in EmployeeIds(tail);
    }
  }

  // ---------------------------------------------------------------------
  // delete_employee
  // ---------------------------------------------------------------------

  /** `delete_one({"employee_id": id})`: removes the first employee with
      that identifier. At most one document goes, and never one with
      another identifier. */
  function WithoutEmployee(employees: seq<Employee>, id: string): (r: seq<Employee>)
    ensures |employees| - 1 <= |r| <= |employees|
    ensures forall e :: e in r ==> e in employees
    ensures forall e :: e in employees && e.employeeId != id ==> e in r
  {
    match FindEmployee(employees, id)
    case None => employees
    case Some(k) =>
      RemovingKeepsSubset(employees, k);
      RemovingKeepsAllOthers(employees, k);
      employees[..k] + employees[k + 1..]
  }

  /** `delete_many({"employee_id": id})`: keeps, in order, the attendance
      records of every other employee. */
  function WithoutRecordsOf(attendance: seq<Attendance>, id: string): (r: seq<Attendance>)
    ensures forall a :: multiset(r)[a] == if a.employeeId == id then 0 else multiset(attendance)[a]
    ensures forall a :: a in r <==> a in attendance && a.employeeId != id
    ensures |r| <= |attendance|
  {
    if attendance == [] then []
    else
      assert attendance == [attendance[0]] + attendance[1..];
      (if attendance[0].employeeId == id then [] else [attendance[0]]) + WithoutRecordsOf(attendance[1..], id)
  }

  /** Deleting an existing employee removes exactly that employee: one
      fewer on file, none left with the identifier, every other one kept. */
  lemma WithoutEmployeeRemovesOne(employees: seq<Employee>, id: string)
    requires UniqueIds(employees)
    requires FindEmployee(employees, id).Some?
    ensures var r := WithoutEmployee(employees, id);
      && |r| == |employees| - 1
      && UniqueIds(r)
      && (UniqueEmails(employees) ==> UniqueEmails(r))
      && forall e :: e in r <==> e in employees && e.employeeId != id
  {
    var k := FindEmployee(employees, id).value;
    RemovingKeepsIndexes(employees, k);
    RemovingKeepsOthers(employees, k);
  }

  /** Dropping the employee at `k` keeps both employee indexes. */
  lemma RemovingKeepsIndexes(employees: seq<Employee>, k: nat)
    requires k < |employees| && UniqueIds(employees)
    ensures var r := employees[..k] + employees[k + 1..];
      && |r| == |employees| - 1
      && UniqueIds(r)
      && (UniqueEmails(employees) ==> UniqueEmails(r))
  {
    var r := employees[..k] + employees[k + 1..];
    forall i, j | 0 <= i < j < |r|
      ensures r[i].employeeId != r[j].employeeId
      ensures UniqueEmails(employees) ==> r[i].email != r[j].email
    {
      var i', j' := if i < k then i else i + 1, if j < k then j else j + 1;
      assert r[i] == employees[i'] && r[j] == employees[j'];
    }
  }

  /** Dropping the employee at `k` keeps every employee with another
      identifier, and only those, when identifiers are unique. */
  lemma RemovingKeepsOthers(employees: seq<Employee>, k: nat)
    requires k < |employees| && UniqueIds(employees)
    ensures var r := employees[..k] + employees[k + 1..];
      forall e :: e in r <==> e in employees && e.employeeId != employees[k].employeeId
  {
    RemovingKeepsOnlyOthers(employees, k);
    RemovingKeepsAllOthers(employees, k);
  }

  lemma RemovingKeepsSubset(employees: seq<Employee>, k: nat)
    requires k < |employees|
    ensures forall e :: e in employees[..k] + employees[k + 1..] ==> e in employees
  {
    var r := employees[..k] + employees[k + 1..];
    forall e | e in r
      ensures e in employees
    {
      var i :| 0 <= i < |r| && r[i] == e;
      assert e == employees[if i < k then i else i + 1];
    }
  }

  lemma RemovingKeepsOnlyOthers(employees: seq<Employee>, k: nat)
    requires k < |employees| && UniqueIds(employees)
    ensures forall e :: e in employees[..k] + employees[k + 1..] ==>
      e in employees && e.employeeId != employees[k].employeeId
  {
    var r := employees[..k] + employees[k + 1..];
    forall e | e in r
      ensures e in employees && e.employeeId != employees[k].employeeId
    {
      var i :| 0 <= i < |r| && r[i] == e;
      var i' := if i < k then i else i + 1;
      assert e == employees[i'];
    }
  }

  lemma RemovingKeepsAllOthers(employees: seq<Employee>, k: nat)
    requires k < |employees|
    ensures forall e :: e in employees && e.employeeId != employees[k].employeeId ==>
      e in employees[..k] + employees[k + 1..]
  {
    var r := employees[..k] + employees[k + 1..];
    forall e | e in employees && e.employeeId != employees[k].employeeId
      ensures e in r
    {
      var j :| 0 <= j < |employees| && employees[j] == e;
      var j' := if j < k then j else j - 1;
      assert r[j'] == e;
    }
  }

  /** Removing every record of one employee keeps the (employee, date)
      index satisfied. */
  lemma {:induction false} WithoutRecordsKeepsUniqueKeys(attendance: seq<Attendance>, id: string)
    requires UniqueKeys(attendance)
    ensures UniqueKeys(WithoutRecordsOf(attendance, id))
  {
    if attendance != [] {
      var head, tail := attendance[0], attendance[1..];
      TailKeepsUniqueKeys(attendance);
      HeadKeyIsFresh(attendance);
      WithoutRecordsKeepsUniqueKeys(tail, id);
      if head.employeeId != id {
        ConsKeepsUniqueKeys(head, WithoutRecordsOf(tail, id));
      }
    }
  }

  lemma ConsKeepsUniqueKeys(head: Attendance, rest: seq<Attendance>)
    requires UniqueKeys(rest)
    requires forall a :: a in rest ==> a.employeeId != head.employeeId || a.date != head.date
    ensures UniqueKeys([head] + rest)
  {
    var r := [head] + rest;
    forall i, j | 0 <= i < j < |r|
      ensures r[i].employeeId != r[j].employeeId || r[i].date != r[j].date
    {
      assert r[j] == rest[j - 1];
      if i > 0 {
        assert r[i] == rest[i - 1];
      }
    }
  }

  /** Deleting an existing employee together with its records keeps the
      store consistent, and every remaining record still resolves. */
  lemma RemoveKeepsConsistent(employees: seq<Employee>, attendance: seq<Attendance>, id: string)
    requires Consistent(employees, attendance)
    requires FindEmployee(employees, id).Some?
    ensures Consistent(WithoutEmployee(employees, id), WithoutRecordsOf(attendance, id))
    ensures Referential(employees, attendance) ==>
      Referential(WithoutEmployee(employees, id), WithoutRecordsOf(attendance, id))
  {
    var emps, recs := WithoutEmployee(employees, id), WithoutRecordsOf(attendance, id);
    WithoutEmployeeRemovesOne(employees, id);
    WithoutRecordsKeepsUniqueKeys(attendance, id);
    if Referential(employees, attendance) {
      forall a | a in recs
        ensures FindEmployee(emps, a.employeeId).Some?
      {
        var k := FindEmployee(employees, a.employeeId).value;
        assert employees[k] in emps;
      }
    }
  }

  /** The confirmation `delete_employee` returns. */
  function DeletedMessage(id: string): string
  {
    "Employee " + id + " deleted successfully"
  }

  /** `delete_employee`: 404 and no change for an unknown identifier;
      otherwise the employee and every attendance record naming it are
      removed, and nothing else changes. */
  method DeleteEmployee(db: Database, id: string) returns (r: Result<string>)
    requires db.Valid()
    modifies db
    ensures db.Valid()
    ensures FindEmployee(old(db.employees), id).None? ==>
      && r == Failure(EmployeeNotFound(id))
      && db.employees == old(db.employees)
      && db.attendance == old(db.attendance)
    ensures FindEmployee(old(db.employees), id).Some? ==>
      && r == Success(DeletedMessage(id))
      && db.employees == WithoutEmployee(old(db.employees), id)
      && db.attendance == WithoutRecordsOf(old(db.attendance), id)
    ensures old(Referential(db.employees, db.attendance)) ==> Referential(db.employees, db.attendance)
  {
    if FindEmployee(db.employees, id).None? {
      return Failure(EmployeeNotFound(id));
    }
    WithoutEmployeeRemovesOne(db.employees, id);
    RemoveKeepsConsistent(db.employees, db.attendance, id);
    db.employees := WithoutEmployee(db.employees, id);
    db.attendance := WithoutRecordsOf(db.attendance, id);
    r := Success(DeletedMessage(id));
  }

  /** After a delete, the employee's attendance is gone: asking for it is a
      404, and no stored record names it, so no report row can. */
  lemma DeleteLeavesNoAttendance(employees: seq<Employee>, attendance: seq<Attendance>, id: string)
    requires UniqueIds(employees)
    ensures var emps, recs := WithoutEmployee(employees, id), WithoutRecordsOf(attendance, id);
      && AttendanceService.GetAttendanceByEmployee(emps, recs, id) == Failure(EmployeeNotFound(id))
      && forall a :: a in recs ==> a.employeeId != id
  {
    var recs := WithoutRecordsOf(attendance, id);
    if FindEmployee(employees, id).Some? {
      WithoutEmployeeRemovesOne(employees, id);
    }
    forall a | a in recs
      ensures a.employeeId != id
    {
      assert multiset(recs)[a] > 0;
    }
  }
}
