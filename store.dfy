/** The MongoDB database the services share: an `employees` and an
    `attendance` collection, the lookups the services issue against them,
    and the unique indexes `connect_db` creates. */
module Store {
  import opened Results
  import opened Validators

  /** A document of the `employees` collection. Timestamps are naturals
      supplied by the caller in place of `datetime.utcnow()`. */
  datatype Employee = Employee(
    employeeId: string,
    fullName: string,
    email: string,
    department: string,
    createdAt: nat)

  /** A document of the `attendance` collection. */
  datatype Attendance = Attendance(
    employeeId: string,
    date: string,
    status: string,
    createdAt: nat)

  /** `find_one({"employee_id": id})`: the first employee, in collection
      order, whose identifier is `id`. */
  function FindEmployee(employees: seq<Employee>, id: string): (r: Option<nat>)
    ensures r.Some? ==> r.value < |employees| && employees[r.value].employeeId == id
    ensures r.Some? ==> forall j :: 0 <= j < r.value ==> employees[j].employeeId != id
    ensures r.None? <==> forall e :: e in employees ==> e.employeeId != id
  {
    if employees == [] then None
    else if employees[0].employeeId == id then Some(0)
    else
      match FindEmployee(employees[1..], id)
      case None => None
      case Some(i) => Some(i + 1)
  }

  /** `find_one({"email": email})` finds a document. Under the email index,
      this is exactly the case in which inserting one more employee with
      that email would break the index. */
  predicate EmailInUse(employees: seq<Employee>, email: string): (found: bool)
    ensures UniqueEmails(employees) ==>
      forall e: Employee :: e.email == email ==> (found <==> !UniqueEmails(employees + [e]))
  {
    EmailIndexOnInsert(employees, email);
    exists e :: e in employees && e.email == email
  }

  lemma EmailIndexOnInsert(employees: seq<Employee>, email: string)
    ensures UniqueEmails(employees) ==>
      forall e: Employee :: e.email == email ==>
        ((exists x :: x in employees && x.email == email) <==> !UniqueEmails(employees + [e]))
  {
    if UniqueEmails(employees) {
      forall e: Employee | e.email == email
        ensures (exists x :: x in employees && x.email == email) <==> !UniqueEmails(employees + [e])
      {
        var all := employees + [e];
        if x :| x in employees && x.email == email {
          var i :| 0 <= i < |employees| && employees[i] == x;
          assert all[i].email == all[|employees|].email;
        } else {
          forall i, j | 0 <= i < j < |all|
            ensures all[i].email != all[j].email
          {
            assert all[i] == employees[i];
            if j < |employees| {
              assert all[j] == employees[j];
            } else {
              assert all[i] in employees;
            }
          }
        }
      }
    }
  }

  /** `find_one({"employee_id": id, "date": date})`: the first record, in
      collection order, for that employee and date. */
  function FindRecord(attendance: seq<Attendance>, id: string, date: string): (r: Option<nat>)
    ensures r.Some? ==> r.value < |attendance| && attendance[r.value].employeeId == id && attendance[r.value].date == date
    ensures r.Some? ==> forall j :: 0 <= j < r.value ==> attendance[j].employeeId != id || attendance[j].date != date
    ensures r.None? <==> forall a :: a in attendance ==> a.employeeId != id || a.date != date
  {
    if attendance == [] then None
    else if attendance[0].employeeId == id && attendance[0].date == date then Some(0)
    else
      match FindRecord(attendance[1..], id, date)
      case None => None
      case Some(i) => Some(i + 1)
  }

  /** Unique index on `employee_id`. */
  predicate UniqueIds(employees: seq<Employee>)
  {
    forall i, j :: 0 <= i < j < |employees| ==> employees[i].employeeId != employees[j].employeeId
  }

  /** Unique index on `email`. */
  predicate UniqueEmails(employees: seq<Employee>)
  {
    forall i, j :: 0 <= i < j < |employees| ==> employees[i].email != employees[j].email
  }

  /** Unique compound index on `(employee_id, date)`. */
  predicate UniqueKeys(attendance: seq<Attendance>)
  {
    forall i, j :: 0 <= i < j < |attendance| ==>
      attendance[i].employeeId != attendance[j].employeeId || attendance[i].date != attendance[j].date
  }

  /** What `create_employee` writes: a generated identifier, an accepted
      email, and the name and department lengths the request schema allows. */
  predicate WellFormedEmployee(e: Employee)
  {
    && ValidEmployeeIdFormat(e.employeeId)
    && ValidEmail(e.email)
    && 1 <= |e.fullName| <= 100
    && 1 <= |e.department| <= 50
  }

  /** What `mark_attendance` writes: a real date and an accepted status. */
  predicate WellFormedRecord(a: Attendance)
  {
    DateShaped(a.date) && ValidDate(a.date) && ValidStatus(a.status)
  }

  /** The store invariant: the three unique indexes hold, and every document
      is one the services could have written. */
  predicate Consistent(employees: seq<Employee>, attendance: seq<Attendance>)
  {
    && UniqueIds(employees)
    && UniqueEmails(employees)
    && UniqueKeys(attendance)
    && (forall e :: e in employees ==> WellFormedEmployee(e))
    && (forall a :: a in attendance ==> WellFormedRecord(a))
  }

  /** The compound index survives dropping the first record ... */
  lemma TailKeepsUniqueKeys(attendance: seq<Attendance>)
    requires UniqueKeys(attendance) && attendance != []
    ensures UniqueKeys(attendance[1..])
  {
    var tail := attendance[1..];
    forall i, j | 0 <= i < j < |tail|
      ensures tail[i].employeeId != tail[j].employeeId || tail[i].date != tail[j].date
    {
      assert tail[i] == attendance[i + 1] && tail[j] == attendance[j + 1];
    }
  }

  /** ... and the first record's key appears nowhere after it. */
  lemma HeadKeyIsFresh(attendance: seq<Attendance>)
    requires UniqueKeys(attendance) && attendance != []
    ensures forall a :: a in attendance[1..] ==>
      a.employeeId != attendance[0].employeeId || a.date != attendance[0].date
  {
    forall a | a in attendance[1..]
      ensures a.employeeId != attendance[0].employeeId || a.date != attendance[0].date
    {
      var m :| 0 <= m < |attendance[1..]| && attendance[1..][m] == a;
      assert attendance[m + 1] == a;
    }
  }

  /** Every attendance record names an existing employee. No index enforces
      this; the operations keep it (marking checks the employee, deleting
      cascades), and the report still copes with its absence. */
  predicate Referential(employees: seq<Employee>, attendance: seq<Attendance>)
  {
    forall a :: a in attendance ==> FindEmployee(employees, a.employeeId).Some?
  }

  /** The 404 both services raise for an unknown employee. */
  function EmployeeNotFound(id: string): HttpError
  {
    HttpError(StatusNotFound, "Employee " + id + " not found")
  }

  /** The two collections, updated in place by the services. */
  class Database {
    var employees: seq<Employee>
    var attendance: seq<Attendance>

    ghost predicate Valid()
      reads this
    {
      Consistent(employees, attendance)
    }

    /** A freshly connected, empty database with its indexes in place. */
    constructor ()
      ensures Valid() && Referential(employees, attendance)
      ensures employees == [] && attendance == []
    {
      employees := [];
      attendance := [];
    }
  }
}
