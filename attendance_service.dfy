/** `AttendanceService`: marking attendance (a validated upsert keyed by
    employee and date), the joined report of all records, the records of
    one employee, and two counts. */
module AttendanceService {
  import opened Results
  import opened Order
  import opened Validators
  import opened Store

  const InvalidDateDetail := "Invalid date format. Use YYYY-MM-DD"
  const InvalidStatusDetail := "Invalid attendance status. Must be: Present, Absent, Half Day, or Leave"

  // ---------------------------------------------------------------------
  // mark_attendance
  // ---------------------------------------------------------------------

  /** The attendance collection after a successful mark: the `$set` of the
      status on the record found for `(id, date)`, or else the insertion of
      a new record stamped `now`. */
  function Upsert(attendance: seq<Attendance>, id: string, date: string, status: string, now: nat): (r: seq<Attendance>)
    ensures |attendance| <= |r| <= |attendance| + 1
    ensures exists k :: 0 <= k < |r| && r[k].employeeId == id && r[k].date == date && r[k].status == status
    ensures forall a :: a in attendance && (a.employeeId != id || a.date != date) ==> a in r
  {
    match FindRecord(attendance, id, date)
    case Some(i) =>
      var r := attendance[i := attendance[i].(status := status)];
      assert forall j :: 0 <= j < |r| && j != i ==> r[j] == attendance[j];
      assert r[i].status == status;
      r
    case None =>
      var r := attendance + [Attendance(id, date, status, now)];
      assert r[|attendance|].status == status;
      r
  }

  /** After a mark the index on `(employee_id, date)` still holds, and
      exactly one record has the marked key: it carries the marked status. */
  lemma UpsertLeavesOneRecord(attendance: seq<Attendance>, id: string, date: string, status: string, now: nat)
    requires UniqueKeys(attendance)
    ensures var r := Upsert(attendance, id, date, status, now);
      && UniqueKeys(r)
      && (exists k :: 0 <= k < |r| && r[k].employeeId == id && r[k].date == date && r[k].status == status)
      && (forall i, j ::
            (0 <= i < |r| && 0 <= j < |r| &&
             r[i].employeeId == id && r[i].date == date &&
             r[j].employeeId == id && r[j].date == date) ==> i == j)
  {
    var r := Upsert(attendance, id, date, status, now);
    match FindRecord(attendance, id, date)
    case Some(k) =>
      assert r[k].status == status;
      forall i, j | 0 <= i < j < |r|
        ensures r[i].employeeId != r[j].employeeId || r[i].date != r[j].date
      {
        if i != k && j != k {
          assert r[i] == attendance[i] && r[j] == attendance[j];
        }
      }
    case None =>
      var n := |attendance|;
      assert r[n].status == status;
      forall i, j | 0 <= i < j < |r|
        ensures r[i].employeeId != r[j].employeeId || r[i].date != r[j].date
      {
        if j == n {
          assert attendance[i] in attendance;
        }
      }
  }

  /** Marking a key that already has a record changes that record's status
      and nothing else: its stored creation time is kept, the other
      records keep their places, and the count is unchanged. */
  lemma UpsertUpdatesInPlace(attendance: seq<Attendance>, id: string, date: string, status: string, now: nat)
    requires FindRecord(attendance, id, date).Some?
    ensures var k := FindRecord(attendance, id, date).value;
      var r := Upsert(attendance, id, date, status, now);
      && |r| == |attendance|
      && r[k] == Attendance(id, date, status, attendance[k].createdAt)
      && forall j :: 0 <= j < |r| && j != k ==> r[j] == attendance[j]
  {
  }

  /** Marking a new key appends one record stamped `now` and keeps the
      others in place. */
  lemma UpsertAppends(attendance: seq<Attendance>, id: string, date: string, status: string, now: nat)
    requires FindRecord(attendance, id, date).None?
    ensures var r := Upsert(attendance, id, date, status, now);
      && |r| == |attendance| + 1
      && r[..|attendance|] == attendance
      && r[|attendance|] == Attendance(id, date, status, now)
  {
  }

  /** Records under every other `(employee_id, date)` key are untouched:
      each occurs as often after the mark as before. */
  lemma UpsertFrame(attendance: seq<Attendance>, id: string, date: string, status: string, now: nat, a: Attendance)
    requires a.employeeId != id || a.date != date
    ensures multiset(Upsert(attendance, id, date, status, now))[a] == multiset(attendance)[a]
  {
    match FindRecord(attendance, id, date)
    case Some(k) =>
      var r := Upsert(attendance, id, date, status, now);
      assert attendance == attendance[..k] + [attendance[k]] + attendance[k + 1..];
      assert r == attendance[..k] + [r[k]] + attendance[k + 1..];
    case None =>
  }

  /** Two marks of one key: the second status wins, the first creation time
      stays. */
  lemma {:induction false} UpsertLastWins(attendance: seq<Attendance>, id: string, date: string, s1: string, s2: string, t1: nat, t2: nat)
    ensures Upsert(Upsert(attendance, id, date, s1, t1), id, date, s2, t2) == Upsert(attendance, id, date, s2, t1)
  {
    var r1 := Upsert(attendance, id, date, s1, t1);
    match FindRecord(attendance, id, date)
    case Some(k) =>
      assert r1[k] in r1;
    case None =>
      var n := |attendance|;
      assert r1[n] in r1;
  }

  /** Marking the same key with the same status twice gives the store of
      marking it once. */
  lemma UpsertIdempotent(attendance: seq<Attendance>, id: string, date: string, status: string, t1: nat, t2: nat)
    ensures var once := Upsert(attendance, id, date, status, t1);
      Upsert(once, id, date, status, t2) == once
  {
    UpsertLastWins(attendance, id, date, status, status, t1, t2);
  }

  /** `mark_attendance`. The checks run in the source's order: the date,
      then the status, then the employee; any failure leaves the store as it
      was. The source reads the clock twice: `now` stamps a newly inserted
      record, and `responseTime`, read after the write, is the creation
      time the response carries, even when the stored record keeps an older
      one. */
  method MarkAttendance(db: Database, employeeId: string, date: string, status: string, now: nat, responseTime: nat)
    returns (r: Result<Attendance>)
    requires db.Valid()
    requires DateShaped(date)
    modifies db
    ensures db.Valid()
    ensures db.employees == old(db.employees)
    ensures !ValidDate(date) ==> r == Failure(HttpError(StatusBadRequest, InvalidDateDetail))
    ensures ValidDate(date) && !ValidStatus(status) ==>
      r == Failure(HttpError(StatusBadRequest, InvalidStatusDetail))
    ensures ValidDate(date) && ValidStatus(status) && FindEmployee(db.employees, employeeId).None? ==>
      r == Failure(EmployeeNotFound(employeeId))
    ensures r.Failure? ==> db.attendance == old(db.attendance)
    ensures ValidDate(date) && ValidStatus(status) && FindEmployee(db.employees, employeeId).Some? ==>
      && r == Success(Attendance(employeeId, date, status, responseTime))
      && db.attendance == Upsert(old(db.attendance), employeeId, date, status, now)
    ensures old(Referential(db.employees, db.attendance)) ==> Referential(db.employees, db.attendance)
  {
    if !ValidDate(date) {
      return Failure(HttpError(StatusBadRequest, InvalidDateDetail));
    }
    if !ValidStatus(status) {
      return Failure(HttpError(StatusBadRequest, InvalidStatusDetail));
    }
    if FindEmployee(db.employees, employeeId).None? {
      return Failure(EmployeeNotFound(employeeId));
    }
    UpsertLeavesOneRecord(db.attendance, employeeId, date, status, now);
    var existing := FindRecord(db.attendance, employeeId, date);
    if existing.Some? {
      var k := existing.value;
      db.attendance := db.attendance[k := db.attendance[k].(status := status)];
    } else {
      db.attendance := db.attendance + [Attendance(employeeId, date, status, now)];
    }
    r := Success(Attendance(employeeId, date, status, responseTime));
  }

  // ---------------------------------------------------------------------
  // get_all_attendance
  // ---------------------------------------------------------------------

  /** One entry of the report: the record with the joined employee name. */
  datatype ReportRow = ReportRow(
    employeeId: string,
    employeeName: string,
    date: string,
    status: string,
    createdAt: nat)
  {
    function Record(): Attendance
    {
      Attendance(employeeId, date, status, createdAt)
    }
  }

  /** The records the rows were built from. */
  function Records(rows: seq<ReportRow>): seq<Attendance>
  {
    seq(|rows|, i requires 0 <= i < |rows| => rows[i].Record())
  }

  /** The `$lookup` on `employee_id` followed by `get("full_name", "Unknown")`:
      a left join, so a record with no employee still gets a name. */
  function EmployeeName(employees: seq<Employee>, id: string): (name: string)
    ensures (forall i :: 0 <= i < |employees| ==> employees[i].employeeId != id) ==> name == "Unknown"
    ensures (exists i :: 0 <= i < |employees| && employees[i].employeeId == id) ==>
      exists i :: 0 <= i < |employees| && employees[i].employeeId == id && employees[i].fullName == name
  {
    match FindEmployee(employees, id)
    case Some(i) => employees[i].fullName
    case None => "Unknown"
  }

  /** With identifiers unique, the joined name is that of the one employee
      with the record's identifier, and "Unknown" when there is none. */
  lemma EmployeeNameJoin(employees: seq<Employee>, id: string)
    requires UniqueIds(employees)
    ensures forall e :: e in employees && e.employeeId == id ==> EmployeeName(employees, id) == e.fullName
    ensures (forall e :: e in employees ==> e.employeeId != id) ==> EmployeeName(employees, id) == "Unknown"
  {
    forall e | e in employees && e.employeeId == id
      ensures EmployeeName(employees, id) == e.fullName
    {
      var k := FindEmployee(employees, id).value;
      var j :| 0 <= j < |employees| && employees[j] == e;
      assert j == k;
    }
  }

  function JoinRow(a: Attendance, employees: seq<Employee>): ReportRow
  {
    ReportRow(a.employeeId, EmployeeName(employees, a.employeeId), a.date, a.status, a.createdAt)
  }

  /** The report's `$sort`: `x` may precede `y` when its date is later, or
      the dates are equal and it was created no earlier. */
  predicate ReportFirst(x: Attendance, y: Attendance)
  {
    LexLess(y.date, x.date) || (x.date == y.date && x.createdAt >= y.createdAt)
  }

  lemma ReportOrderIsTotalPreorder()
    ensures Total(ReportFirst) && Transitive(ReportFirst)
  {
    forall x: Attendance, y: Attendance
      ensures ReportFirst(x, y) || ReportFirst(y, x)
    {
      if x.date != y.date {
        LexLessTotal(x.date, y.date);
      }
    }
    forall x: Attendance, y: Attendance, z: Attendance | ReportFirst(x, y) && ReportFirst(y, z)
      ensures ReportFirst(x, z)
    {
      if LexLess(y.date, x.date) && LexLess(z.date, y.date) {
        LexLessTransitive(z.date, y.date, x.date);
      }
    }
  }

  /** `get_all_attendance`: one row per record, holding the record's fields
      and its employee's name, ordered by date and then creation time, both
      newest first. */
  method GetAllAttendance(employees: seq<Employee>, attendance: seq<Attendance>)
    returns (rows: seq<ReportRow>)
    ensures |rows| == |attendance|
    ensures multiset(Records(rows)) == multiset(attendance)
    ensures forall i :: 0 <= i < |rows| ==> rows[i].employeeName == EmployeeName(employees, rows[i].employeeId)
    ensures forall i, j :: 0 <= i < j < |rows| ==>
      LexLess(rows[j].date, rows[i].date) || (rows[i].date == rows[j].date && rows[i].createdAt >= rows[j].createdAt)
  {
    var records := SortBy(attendance, ReportFirst);
    ReportOrderIsTotalPreorder();
    SortBySorted(attendance, ReportFirst);
    rows := [];
    for n := 0 to |records|
      invariant |rows| == n
      invariant forall i :: 0 <= i < n ==> rows[i] == JoinRow(records[i], employees)
    {
      var record := records[n];
      rows := rows + [ReportRow(record.employeeId, EmployeeName(employees, record.employeeId),
                                record.date, record.status, record.createdAt)];
    }
    assert Records(rows) == records;
  }

  /** In a store whose dates all have the schema's shape, the report's
      order is calendar order: no row's date is earlier than a later row's. */
  lemma ReportNewestFirst(rows: seq<ReportRow>)
    requires forall i :: 0 <= i < |rows| ==> DateShaped(rows[i].date)
    requires forall i, j :: 0 <= i < j < |rows| ==>
      LexLess(rows[j].date, rows[i].date) || (rows[i].date == rows[j].date && rows[i].createdAt >= rows[j].createdAt)
    ensures forall i, j :: 0 <= i < j < |rows| ==> !EarlierDate(rows[i].date, rows[j].date)
  {
    forall i, j | 0 <= i < j < |rows|
      ensures !EarlierDate(rows[i].date, rows[j].date)
    {
      DateOrderIsChronological(rows[i].date, rows[j].date);
      DateOrderIsChronological(rows[j].date, rows[i].date);
      if LexLess(rows[j].date, rows[i].date) {
        LexLessAsymmetric(rows[j].date, rows[i].date);
      } else {
        LexLessIrreflexive(rows[i].date);
      }
    }
  }

  // ---------------------------------------------------------------------
  // get_attendance_by_employee
  // ---------------------------------------------------------------------

  /** `find({"employee_id": id})`: that employee's records, in collection
      order. */
  function RecordsOf(attendance: seq<Attendance>, id: string): (r: seq<Attendance>)
    ensures forall a :: multiset(r)[a] == if a.employeeId == id then multiset(attendance)[a] else 0
  {
    if attendance == [] then []
    else
      assert attendance == [attendance[0]] + attendance[1..];
      (if attendance[0].employeeId == id then [attendance[0]] else []) + RecordsOf(attendance[1..], id)
  }

  /** The `sort("date", -1)` order: `x` may precede `y` unless its date is
      earlier. */
  predicate DateFirst(x: Attendance, y: Attendance)
  {
    !LexLess(x.date, y.date)
  }

  lemma DateOrderIsTotalPreorder()
    ensures Total(DateFirst) && Transitive(DateFirst)
  {
    forall x: Attendance, y: Attendance
      ensures DateFirst(x, y) || DateFirst(y, x)
    {
      if LexLess(x.date, y.date) {
        LexLessAsymmetric(x.date, y.date);
      }
    }
    forall x: Attendance, y: Attendance, z: Attendance | DateFirst(x, y) && DateFirst(y, z)
      ensures DateFirst(x, z)
    {
      if LexLess(x.date, z.date) {
        if x.date == y.date {
        } else if y.date == z.date {
        } else {
          LexLessTotal(x.date, y.date);
          LexLessTotal(y.date, z.date);
          LexLessTransitive(z.date, y.date, x.date);
          LexLessAsymmetric(x.date, z.date);
        }
      }
    }
  }

  /** `get_attendance_by_employee`: 404 for an unknown employee, otherwise
      exactly that employee's records, latest date first. */
  function GetAttendanceByEmployee(employees: seq<Employee>, attendance: seq<Attendance>, id: string)
    : (r: Result<seq<Attendance>>)
    ensures r.Failure? <==> forall e :: e in employees ==> e.employeeId != id
    ensures r.Failure? ==> r.error == EmployeeNotFound(id)
    ensures r.Success? ==> forall a :: multiset(r.value)[a] == if a.employeeId == id then multiset(attendance)[a] else 0
    ensures r.Success? ==> forall i, j :: 0 <= i < j < |r.value| ==> !LexLess(r.value[i].date, r.value[j].date)
  {
    if FindEmployee(employees, id).None? then Failure(EmployeeNotFound(id))
    else
      DateOrderIsTotalPreorder();
      SortBySorted(RecordsOf(attendance, id), DateFirst);
      Success(SortBy(RecordsOf(attendance, id), DateFirst))
  }

  // ---------------------------------------------------------------------
  // get_present_count_today, get_total_attendance
  // ---------------------------------------------------------------------

  /** `count_documents({"date": today, "status": "Present"})`. */
  function GetPresentCountToday(attendance: seq<Attendance>, today: string): (n: nat)
    ensures n <= |attendance|
  {
    if attendance == [] then 0
    else
      (if attendance[0].date == today && attendance[0].status == "Present" then 1 else 0)
      + GetPresentCountToday(attendance[1..], today)
  }

  /** The identifiers of the employees marked present on `today`. */
  function PresentEmployees(attendance: seq<Attendance>, today: string): set<string>
  {
    set a | a in attendance && a.date == today && a.status == "Present" :: a.employeeId
  }

  /** With one record per employee and date, the present count is the
      number of distinct employees present that day. */
  lemma {:induction false} PresentCountIsEmployeesPresent(attendance: seq<Attendance>, today: string)
    requires UniqueKeys(attendance)
    ensures GetPresentCountToday(attendance, today) == |PresentEmployees(attendance, today)|
  {
    if attendance != [] {
      var head, tail := attendance[0], attendance[1..];
      TailKeepsUniqueKeys(attendance);
      HeadKeyIsFresh(attendance);
      PresentCountIsEmployeesPresent(tail, today);
      PresentEmployeesSplit(attendance, today);
      if head.date == today && head.status == "Present" {
        assert head.employeeId !in PresentEmployees(tail, today);
      }
    }
  }

  lemma PresentEmployeesSplit(attendance: seq<Attendance>, today: string)
    requires attendance != []
    ensures var head := attendance[0];
      PresentEmployees(attendance, today) ==
        (if head.date == today && head.status == "Present" then {head.employeeId} else {})
        + PresentEmployees(attendance[1..], today)
  {
    assert attendance == [attendance[0]] + attendance[1..];
  }

  /** `count_documents({})` on the attendance collection. With the compound
      index in force, the total is the number of distinct (employee, date)
      pairs marked. */
  function GetTotalAttendance(attendance: seq<Attendance>): (n: nat)
    ensures UniqueKeys(attendance) ==> n == |AttendanceKeys(attendance)|
  {
    RecordsCountKeys(attendance);
    |attendance|
  }

  function AttendanceKeys(attendance: seq<Attendance>): set<(string, string)>
  {
    set a | a in attendance :: (a.employeeId, a.date)
  }

  /** Under the compound index, no two records share a key. */
  lemma {:induction false} RecordsCountKeys(attendance: seq<Attendance>)
    ensures UniqueKeys(attendance) ==> |attendance| == |AttendanceKeys(attendance)|
  {
    if attendance != [] && UniqueKeys(attendance) {
      var head, tail := attendance[0], attendance[1..];
      TailKeepsUniqueKeys(attendance);
      HeadKeyIsFresh(attendance);
      RecordsCountKeys(tail);
      assert attendance == [head] + tail;
      assert AttendanceKeys(attendance) == {(head.employeeId, head.date)} + AttendanceKeys(tail);
      assert (head.employeeId, head.date) !in AttendanceKeys(tail);
    }
  }
}
