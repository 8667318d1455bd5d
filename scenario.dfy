/** One pass through the system as its API is meant to be used: hire an
    employee, mark a day twice, read the history back, and delete. */
module Scenario {
  import opened Results
  import opened Validators
  import opened Store
  import opened AttendanceService
  import opened EmployeeService

  /** On an empty database the first employee gets EMP001. */
  method Hire(name: string, email: string, department: string)
    returns (db: Database, created: Result<Employee>)
    requires 1 <= |name| <= 100 && 1 <= |department| <= 50 && ValidEmail(email)
    ensures fresh(db) && db.Valid() && db.attendance == []
    ensures created == Success(Employee("EMP001", name, email, department, 1))
    ensures db.employees == [created.value]
  {
    db := new Database();
    GeneratedIdExamples();
    created := CreateEmployee(db, name, email, department, 1);
  }

  /** The first mark of a day adds a record stamped with the first clock
      reading; the response carries the second. */
  method MarkFirst(db: Database, date: string, status: string)
    returns (first: Result<Attendance>)
    requires db.Valid() && db.attendance == [] && |db.employees| == 1 && db.employees[0].employeeId == "EMP001"
    requires DateShaped(date) && ValidDate(date) && ValidStatus(status)
    modifies db
    ensures db.Valid() && db.employees == old(db.employees)
    ensures first == Success(Attendance("EMP001", date, status, 3))
    ensures db.attendance == [Attendance("EMP001", date, status, 2)]
  {
    first := MarkAttendance(db, "EMP001", date, status, 2, 3);
  }

  /** Marking the same day again replaces the status and keeps the first
      mark's timestamp, while the response carries the new time. */
  method MarkAgain(db: Database, date: string, status: string)
    returns (second: Result<Attendance>)
    requires db.Valid() && |db.employees| == 1 && db.employees[0].employeeId == "EMP001"
    requires |db.attendance| == 1 && db.attendance[0].employeeId == "EMP001" && db.attendance[0].date == date
    requires DateShaped(date) && ValidDate(date) && ValidStatus(status)
    modifies db
    ensures db.Valid() && db.employees == old(db.employees)
    ensures second == Success(Attendance("EMP001", date, status, 5))
    ensures db.attendance == [old(db.attendance[0]).(status := status)]
  {
    second := MarkAttendance(db, "EMP001", date, status, 4, 5);
  }

  /** After hiring and marking, the employee's history holds that single
      record; once the employee is deleted, asking for it is a 404. */
  method HireMarkDelete(name: string, email: string, department: string, date: string, s1: string, s2: string)
    returns (history: Result<seq<Attendance>>, deleted: Result<string>, afterwards: Result<seq<Attendance>>)
    requires 1 <= |name| <= 100 && 1 <= |department| <= 50 && ValidEmail(email)
    requires DateShaped(date) && ValidDate(date) && ValidStatus(s1) && ValidStatus(s2)
    ensures history == Success([Attendance("EMP001", date, s2, 2)])
    ensures deleted == Success(DeletedMessage("EMP001"))
    ensures afterwards == Failure(EmployeeNotFound("EMP001"))
  {
    var db, _ := Hire(name, email, department);
    var _ := MarkFirst(db, date, s1);
    var _ := MarkAgain(db, date, s2);
    history := GetAttendanceByEmployee(db.employees, db.attendance, "EMP001");
    assert history.Success?;
    OnlyRecord(history.value, db.attendance[0]);
    deleted := DeleteEmployee(db, "EMP001");
    assert db.employees == [];
    afterwards := GetAttendanceByEmployee(db.employees, db.attendance, "EMP001");
  }

  /** A sequence holding one copy of `x` and nothing else is `[x]`. */
  lemma OnlyRecord(h: seq<Attendance>, x: Attendance)
    requires forall a :: multiset(h)[a] == if a.employeeId == x.employeeId then multiset([x])[a] else 0
    ensures h == [x]
  {
    assert multiset(h) == multiset([x]);
    assert |h| == |multiset(h)| == 1;
    assert h[0] in multiset(h);
  }
}
