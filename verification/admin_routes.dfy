/**
 * The administrator's routes (backend/src/routes/admin.js): the bearer
 * token guard in front of every route, the required-field checks of the
 * inserts with their error-to-status mapping, the four deletes, and the
 * monthly report's month guard.
 */
module AdminRoutes {
  import opened Wrappers
  import opened Text
  import opened Calendar
  import opened Query
  import opened Schema
  import opened Request
  import opened AdminService


  // ---------------------------------------------------------------------------
  // The preHandler guard
  // ---------------------------------------------------------------------------

  /** The payload of a token that verifies; `role` is absent when the token carries none. */
  datatype Claims = Claims(role: Option<string>)

  /**
   * The bearer guard. `verify` is the token library's check of the text
   * after "Bearer ": the payload, or None when it throws.
   */
  function AdminGuard(header: Option<string>, verify: string -> Option<Claims>): (g: Guard<Claims>)
    ensures g.Admit? <==>
      && header.Some? && StartsWith(header.value, "Bearer ")
      && verify(header.value[7..]).Some? && verify(header.value[7..]).value.role == Some("admin")
    ensures g.Admit? ==> Some(g.user) == verify(header.value[7..])
    ensures g.Reject? && g.status == 403 <==>
      && header.Some? && StartsWith(header.value, "Bearer ")
      && verify(header.value[7..]).Some? && verify(header.value[7..]).value.role != Some("admin")
    ensures g.Reject? ==> g.status == 401 || g.status == 403
  {
    if header.None? || !StartsWith(header.value, "Bearer ") then
      Reject(401, "Authorization header missing or malformed")
    else match verify(header.value[7..])
      case None => Reject(401, "Invalid or expired token")
      case Some(claims) =>
        if claims.role != Some("admin") then Reject(403, "Access denied. Admin role required.")
        else Admit(claims)
  }

  // ---------------------------------------------------------------------------
  // Inserts: required fields and the error-to-status mapping
  // ---------------------------------------------------------------------------

  datatype EmployeeBody = EmployeeBody(
    empId: Json, fullName: Json, dateOfBirth: Json, username: Json, password: Json, role: Json)
  datatype DepartmentBody = DepartmentBody(guid: Json, name: Json)
  datatype PositionBody = PositionBody(posId: Json, title: Json, totalRate: Json, departmentGuid: Json)
  datatype AssignBody = AssignBody(empId: Json, posId: Json, assignedRate: Json)

  /** Five truthy fields; the role is optional. */
  predicate EmployeeFieldsPresent(b: EmployeeBody) {
    Truthy(b.empId) && Truthy(b.fullName) && Truthy(b.dateOfBirth) && Truthy(b.username) && Truthy(b.password)
  }

  predicate DepartmentFieldsPresent(b: DepartmentBody) {
    Truthy(b.guid) && Truthy(b.name)
  }

  /** The rate is compared with `undefined` only, so 0 and null pass. */
  predicate PositionFieldsPresent(b: PositionBody) {
    Truthy(b.posId) && Truthy(b.title) && b.totalRate != Undefined && Truthy(b.departmentGuid)
  }

  predicate AssignFieldsPresent(b: AssignBody) {
    Truthy(b.empId) && Truthy(b.posId) && b.assignedRate != Undefined
  }

  /** An insert error is a conflict when its message contains this text. */
  const DuplicateKeyMarker := "duplicate key value"

  /**
   * The shape shared by the three insert routes that map conflicts: 400
   * when a field is missing, 201 with the inserted row, 409 when the error
   * message contains "duplicate key value", 500 for any other error.
   */
  function InsertReply<T>(present: bool, required: string, conflict: string, outcome: Result<T, string>)
    : (r: Reply<T>)
    ensures r.status == 400 <==> !present
    ensures r.status == 201 <==> present && outcome.Success?
    ensures r.status == 201 ==> r.body == Payload(outcome.value)
    ensures r.status == 409 <==> present && outcome.Failure? && Contains(outcome.error, DuplicateKeyMarker)
    ensures r.status == 500 <==> present && outcome.Failure? && !Contains(outcome.error, DuplicateKeyMarker)
  {
    if !present then Reply(400, ErrorMessage(required))
    else match outcome
      case Success(row) => Reply(201, Payload(row))
      case Failure(message) =>
        if Contains(message, DuplicateKeyMarker) then Reply(409, ErrorMessage(conflict))
        else Reply(500, ErrorMessage(InternalServerError))
  }

  const EmployeeRequired := "All fields (emp_id, full_name, date_of_birth, username, password) are required"
  const EmployeeConflict := "Employee ID or Username already exists"
  const DepartmentRequired := "GUID and Name are required"
  const DepartmentConflict := "Department GUID already exists"
  const PositionRequired := "pos_id, title, total_rate, and department_guid are required"
  const PositionConflict := "Position ID already exists"

  function AddEmployeeReply(b: EmployeeBody, outcome: Result<Employee, string>): Reply<Employee> {
    InsertReply(EmployeeFieldsPresent(b), EmployeeRequired, EmployeeConflict, outcome)
  }

  function AddDepartmentReply(b: DepartmentBody, outcome: Result<Department, string>): Reply<Department> {
    InsertReply(DepartmentFieldsPresent(b), DepartmentRequired, DepartmentConflict, outcome)
  }

  function AddPositionReply(b: PositionBody, outcome: Result<Position, string>): Reply<Position> {
    InsertReply(PositionFieldsPresent(b), PositionRequired, PositionConflict, outcome)
  }

  /** `POST /assign-position` maps every error to 500: it has no conflict case. */
  function AssignPositionReply(b: AssignBody, outcome: Result<Assignment, string>): (r: Reply<Assignment>)
    ensures r.status == 400 <==> !AssignFieldsPresent(b)
    ensures r.status == 201 <==> AssignFieldsPresent(b) && outcome.Success?
    ensures r.status == 201 ==> r.body == Payload(outcome.value)
    ensures r.status == 400 || r.status == 201 || r.status == 500
  {
    if !AssignFieldsPresent(b) then Reply(400, ErrorMessage("emp_id, pos_id, and assigned_rate are required"))
    else match outcome
      case Success(row) => Reply(201, Payload(row))
      case Failure(_) => Reply(500, ErrorMessage(InternalServerError))
  }

  /**
   * A rate of 0 or null passes both rate checks, where the truthiness test
   * applied to the other fields would reject 0.
   */
  lemma ZeroRateAccepted(p: PositionBody, a: AssignBody)
    requires Truthy(p.posId) && Truthy(p.title) && Truthy(p.departmentGuid)
    requires Truthy(a.empId) && Truthy(a.posId)
    ensures PositionFieldsPresent(p) <==> p.totalRate != Undefined
    ensures AssignFieldsPresent(a) <==> a.assignedRate != Undefined
    ensures PositionFieldsPresent(p.(totalRate := Num(0.0))) && !Truthy(Num(0.0))
  {
  }

  lemma DuplicateKeyValueIsConflict(message: string)
    requires StartsWith(message, DuplicateKeyValue)
    ensures Contains(message, DuplicateKeyMarker)
  {
    assert DuplicateKeyValue[..|DuplicateKeyMarker|] == DuplicateKeyMarker;
    assert message[..|DuplicateKeyValue|] == DuplicateKeyValue;
    assert message[..|DuplicateKeyMarker|] == DuplicateKeyValue[..|DuplicateKeyMarker|];
    ContainsAt(message, DuplicateKeyMarker, 0);
  }

  /**
   * Adding an employee whose emp_id or username is taken, with every field
   * sent, makes the insert fail and answers 409; so does a taken department
   * guid or position id. That a failed insert leaves the store as it was is
   * stated by AddEmployee, AddDepartment and AddPosition.
   */
  lemma TakenKeyAnswers409(t: Tables, eb: EmployeeBody, n: NewEmployee, passwordHash: string,
                            db: DepartmentBody, d: Department, pb: PositionBody, p: Position)
    requires Valid(t)
    ensures EmployeeFieldsPresent(eb) && (exists e :: e in t.employees && (e.empId == n.empId || e.username == n.username)) ==>
      && InsertEmployee(t, n, passwordHash).Failure?
      && AddEmployeeReply(eb, Failure(InsertEmployee(t, n, passwordHash).error)).status == 409
    ensures DepartmentFieldsPresent(db) && (exists x :: x in t.departments && x.guid == d.guid) ==>
      && InsertDepartment(t, d).Failure?
      && AddDepartmentReply(db, Failure(InsertDepartment(t, d).error)).status == 409
    ensures PositionFieldsPresent(pb) && (exists x :: x in t.positions && x.posId == p.posId) ==>
      && InsertPosition(t, p).Failure?
      && AddPositionReply(pb, Failure(InsertPosition(t, p).error)).status == 409
  {
    if EmployeeFieldsPresent(eb) && InsertEmployee(t, n, passwordHash).Failure? {
      var error := InsertEmployee(t, n, passwordHash).error;
      assert Contains(error, DuplicateKeyMarker) by {
        UniqueViolationIsConflict("employees_emp_id_key");
        UniqueViolationIsConflict("employees_username_key");
      }
      ConflictIs409<Employee>(EmployeeFieldsPresent(eb), EmployeeRequired, EmployeeConflict, error);
    }
    if DepartmentFieldsPresent(db) && InsertDepartment(t, d).Failure? {
      assert Contains(InsertDepartment(t, d).error, DuplicateKeyMarker) by {
        UniqueViolationIsConflict("departments_guid_key");
      }
      ConflictIs409<Department>(DepartmentFieldsPresent(db), DepartmentRequired, DepartmentConflict, InsertDepartment(t, d).error);
    }
    if PositionFieldsPresent(pb) && InsertPosition(t, p).Failure? {
      assert Contains(InsertPosition(t, p).error, DuplicateKeyMarker) by {
        UniqueViolationIsConflict("positions_pos_id_key");
      }
      ConflictIs409<Position>(PositionFieldsPresent(pb), PositionRequired, PositionConflict, InsertPosition(t, p).error);
    }
  }

  /** A present body whose insert fails with a conflict message answers 409. */
  lemma ConflictIs409<T>(present: bool, required: string, conflict: string, error: string)
    requires present && Contains(error, DuplicateKeyMarker)
    ensures InsertReply<T>(present, required, conflict, Failure(error)).status == 409
  {
  }

  /** The store's error for any unique constraint maps to 409. */
  lemma UniqueViolationIsConflict(constraint: string)
    ensures Contains(UniqueViolation(constraint), DuplicateKeyMarker)
  {
    UniqueViolationIsDuplicateKey(constraint);
    DuplicateKeyValueIsConflict(UniqueViolation(constraint));
  }

  // ---------------------------------------------------------------------------
  // Deletes
  // ---------------------------------------------------------------------------

  /** The success body of a delete: `{ message, deleted_... }` echoing the key removed. */
  datatype Deletion<K> = Deletion(message: string, deletedKey: K)

  function OtherEmployee(empId: string): Employee -> bool { (e: Employee) => e.empId != empId }
  function OtherDepartment(guid: string): Department -> bool { (d: Department) => d.guid != guid }
  function OtherPosition(posId: string): Position -> bool { (p: Position) => p.posId != posId }
  function OtherAssignment(id: nat): Assignment -> bool { (a: Assignment) => a.id != id }

  function EmpIdOf(e: Employee): string { e.empId }
  function UsernameOf(e: Employee): string { e.username }
  function GuidOf(d: Department): string { d.guid }
  function PosIdOf(p: Position): string { p.posId }
  function IdOf(a: Assignment): nat { a.id }

  /** Deleting employees keeps both of their unique constraints. */
  lemma DeleteEmployeesKeepsValid(t: Tables, keep: Employee -> bool)
    requires Valid(t)
    ensures Valid(t.(employees := Filter(t.employees, keep)))
  {
    assert DistinctBy(t.employees, EmpIdOf) && DistinctBy(t.employees, UsernameOf);
    FilterDistinctBy(t.employees, keep, EmpIdOf);
    FilterDistinctBy(t.employees, keep, UsernameOf);
  }

  /** Deleting departments keeps guids unique. */
  lemma DeleteDepartmentsKeepsValid(t: Tables, keep: Department -> bool)
    requires Valid(t)
    ensures Valid(t.(departments := Filter(t.departments, keep)))
  {
    assert DistinctBy(t.departments, GuidOf);
    FilterDistinctBy(t.departments, keep, GuidOf);
  }

  /** Deleting positions keeps pos_ids unique. */
  lemma DeletePositionsKeepsValid(t: Tables, keep: Position -> bool)
    requires Valid(t)
    ensures Valid(t.(positions := Filter(t.positions, keep)))
  {
    assert DistinctBy(t.positions, PosIdOf);
    FilterDistinctBy(t.positions, keep, PosIdOf);
  }

  /** Deleting assignments keeps ids unique and below the next serial value. */
  lemma DeleteAssignmentsKeepsValid(t: Tables, keep: Assignment -> bool)
    requires Valid(t)
    ensures Valid(t.(assignments := Filter(t.assignments, keep)))
  {
    assert DistinctBy(t.assignments, IdOf);
    FilterDistinctBy(t.assignments, keep, IdOf);
    var kept := Filter(t.assignments, keep);
    forall i | 0 <= i < |kept|
      ensures kept[i].id < t.nextAssignmentId
    {
      assert kept[i] in t.assignments;
    }
  }

  /** `DELETE /employees/:emp_id` */
  method DeleteEmployee(db: Database, empId: string) returns (r: Reply<Deletion<string>>)
    requires Valid(db.tables)
    modifies db
    ensures Valid(db.tables)
    ensures empId == "" ==> r == Reply(400, ErrorMessage("emp_id is required")) && db.tables == old(db.tables)
    ensures empId != "" ==> db.tables == old(db.tables).(employees := Filter(old(db.tables.employees), OtherEmployee(empId)))
    ensures r.status == 400 <==> empId == ""
    ensures r.status == 404 <==> empId != "" && forall e :: e in old(db.tables.employees) ==> e.empId != empId
    ensures r.status == 200 <==> empId != "" && exists e :: e in old(db.tables.employees) && e.empId == empId
    ensures r.status == 200 ==> r.body == Payload(Deletion("Employee deleted successfully", empId))
    ensures r.status == 400 || r.status == 404 || r.status == 200
  {
    if empId == "" {
      return Reply(400, ErrorMessage("emp_id is required"));
    }
    var kept, removed := Partition(db.tables.employees, OtherEmployee(empId));
    DeleteEmployeesKeepsValid(db.tables, OtherEmployee(empId));
    db.tables := db.tables.(employees := kept);
    if |removed| == 0 {
      return Reply(404, ErrorMessage("Employee not found"));
    }
    assert removed[0] in removed;
    r := Reply(200, Payload(Deletion("Employee deleted successfully", removed[0].empId)));
  }

  /** `DELETE /departments/:guid` */
  method DeleteDepartment(db: Database, guid: string) returns (r: Reply<Deletion<string>>)
    requires Valid(db.tables)
    modifies db
    ensures Valid(db.tables)
    ensures guid == "" ==> r == Reply(400, ErrorMessage("guid is required")) && db.tables == old(db.tables)
    ensures guid != "" ==> db.tables == old(db.tables).(departments := Filter(old(db.tables.departments), OtherDepartment(guid)))
    ensures r.status == 400 <==> guid == ""
    ensures r.status == 404 <==> guid != "" && forall d :: d in old(db.tables.departments) ==> d.guid != guid
    ensures r.status == 200 <==> guid != "" && exists d :: d in old(db.tables.departments) && d.guid == guid
    ensures r.status == 200 ==> r.body == Payload(Deletion("Department deleted successfully", guid))
    ensures r.status == 400 || r.status == 404 || r.status == 200
  {
    if guid == "" {
      return Reply(400, ErrorMessage("guid is required"));
    }
    var kept, removed := Partition(db.tables.departments, OtherDepartment(guid));
    DeleteDepartmentsKeepsValid(db.tables, OtherDepartment(guid));
    db.tables := db.tables.(departments := kept);
    if |removed| == 0 {
      return Reply(404, ErrorMessage("Department not found"));
    }
    assert removed[0] in removed;
    r := Reply(200, Payload(Deletion("Department deleted successfully", removed[0].guid)));
  }

  /** `DELETE /positions/:pos_id` */
  method DeletePosition(db: Database, posId: string) returns (r: Reply<Deletion<string>>)
    requires Valid(db.tables)
    modifies db
    ensures Valid(db.tables)
    ensures posId == "" ==> r == Reply(400, ErrorMessage("pos_id is required")) && db.tables == old(db.tables)
    ensures posId != "" ==> db.tables == old(db.tables).(positions := Filter(old(db.tables.positions), OtherPosition(posId)))
    ensures r.status == 400 <==> posId == ""
    ensures r.status == 404 <==> posId != "" && forall p :: p in old(db.tables.positions) ==> p.posId != posId
    ensures r.status == 200 <==> posId != "" && exists p :: p in old(db.tables.positions) && p.posId == posId
    ensures r.status == 200 ==> r.body == Payload(Deletion("Position deleted successfully", posId))
    ensures r.status == 400 || r.status == 404 || r.status == 200
  {
    if posId == "" {
      return Reply(400, ErrorMessage("pos_id is required"));
    }
    var kept, removed := Partition(db.tables.positions, OtherPosition(posId));
    DeletePositionsKeepsValid(db.tables, OtherPosition(posId));
    db.tables := db.tables.(positions := kept);
    if |removed| == 0 {
      return Reply(404, ErrorMessage("Position not found"));
    }
    assert removed[0] in removed;
    r := Reply(200, Payload(Deletion("Position deleted successfully", removed[0].posId)));
  }

  /**
   * The store's cast of the `:id` text to an integer column value: decimal
   * digits within the 32-bit range; anything else makes the statement fail.
   */
  function ReadId(s: string): (r: Option<nat>)
    ensures r.Some? ==> AllDigits(s) && s != "" && r.value <= 2147483647 && r.value == DecimalValue(s)
    ensures r.None? ==> s == "" || !AllDigits(s) || DecimalValue(s) > 2147483647
  {
    if s != "" && AllDigits(s) && DecimalValue(s) <= 2147483647 then Some(DecimalValue(s)) else None
  }

  /** `DELETE /assignments/:id`; an id the store cannot cast answers 500. */
  method DeleteAssignment(db: Database, id: string) returns (r: Reply<Deletion<nat>>)
    requires Valid(db.tables)
    modifies db
    ensures Valid(db.tables)
    ensures id == "" ==> r == Reply(400, ErrorMessage("id is required"))
    ensures ReadId(id).None? ==> db.tables == old(db.tables)
    ensures id != "" && ReadId(id).None? ==> r == Reply(500, ErrorMessage(InternalServerError))
    ensures ReadId(id).Some? ==>
      db.tables == old(db.tables).(assignments := Filter(old(db.tables.assignments), OtherAssignment(ReadId(id).value)))
    ensures r.status == 400 <==> id == ""
    ensures r.status == 500 <==> id != "" && ReadId(id).None?
    ensures r.status == 404 <==> ReadId(id).Some? && forall a :: a in old(db.tables.assignments) ==> a.id != ReadId(id).value
    ensures r.status == 200 <==> ReadId(id).Some? && exists a :: a in old(db.tables.assignments) && a.id == ReadId(id).value
    ensures r.status == 200 ==> r.body == Payload(Deletion("Assignment deleted successfully", ReadId(id).value))
  {
    if id == "" {
      return Reply(400, ErrorMessage("id is required"));
    }
    var n := ReadId(id);
    if n.None? {
      return Reply(500, ErrorMessage(InternalServerError));
    }
    var kept, removed := Partition(db.tables.assignments, OtherAssignment(n.value));
    DeleteAssignmentsKeepsValid(db.tables, OtherAssignment(n.value));
    db.tables := db.tables.(assignments := kept);
    if |removed| == 0 {
      return Reply(404, ErrorMessage("Assignment not found"));
    }
    assert removed[0] in removed;
    r := Reply(200, Payload(Deletion("Assignment deleted successfully", removed[0].id)));
  }

  // ---------------------------------------------------------------------------
  // The monthly report route
  // ---------------------------------------------------------------------------

  const MonthQueryError := "Query parameter \"month\" is required and must be in YYYY-MM format (e.g., 2025-01)"

  /**
   * `GET /reports/monthly?month=YYYY-MM`: 400 when the parameter is absent
   * or not of the form `^\d{4}-\d{2}$`, 500 when the store cannot read
   * `${month}-01`, otherwise 200 with the report of that month.
   */
  function MonthlyReportReply(t: Tables, month: Option<string>): (r: Reply<seq<ReportRow>>)
    ensures r.status == 400 <==> month.None? || !MatchesMonthPattern(month.value)
    ensures r.status == 500 <==> month.Some? && MatchesMonthPattern(month.value) && ParseMonth(month.value).None?
    ensures r.status == 200 <==> month.Some? && MatchesMonthPattern(month.value) && ParseMonth(month.value).Some?
    ensures r.status == 200 ==> r.body == Payload(MonthlyReport(t, ParseMonth(month.value).value))
    ensures r.status == 200 ==>
      && SortedBy(r.body.value, ReportOrder)
      && forall x :: x in r.body.value ==> InMonth(x.dateWork, ParseMonth(month.value).value)
  {
    if month.None? || month.value == "" || !MatchesMonthPattern(month.value) then Reply(400, ErrorMessage(MonthQueryError))
    else match ParseMonth(month.value)
      case None => Reply(500, ErrorMessage(InternalServerError))
      case Some(m) => Reply(200, Payload(MonthlyReport(t, m)))
  }

  /** The admin report has the same gap as the attendance route: "2025-13" is a 500. */
  lemma MonthlyReport13IsServerError(t: Tables)
    ensures MonthlyReportReply(t, Some("2025-13")).status == 500
  {
    Month13PassesGuard();
  }
}
