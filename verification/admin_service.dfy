/**
 * The administrator's service (backend/src/services/adminService.js): the
 * employee listing with its positions, the inserts into the four
 * reference tables, and the monthly attendance report.
 */
module AdminService {
  import opened Wrappers
  import opened Text
  import opened Calendar
  import opened Query
  import opened Schema

  /** The text the store's unique-violation errors begin with. */
  const DuplicateKeyValue := "duplicate key value violates unique constraint"

  /** The error the store raises when an insert breaks the named unique constraint. */
  function UniqueViolation(constraint: string): string {
    DuplicateKeyValue + " \"" + constraint + "\""
  }

  lemma UniqueViolationIsDuplicateKey(constraint: string)
    ensures StartsWith(UniqueViolation(constraint), DuplicateKeyValue)
  {
    assert UniqueViolation(constraint)[..|DuplicateKeyValue|] == DuplicateKeyValue;
  }

  // ---------------------------------------------------------------------------
  // getAllEmployees
  // ---------------------------------------------------------------------------

  /** An element of an employee's `positions` array: `{ pos_id, title, assigned_rate }`. */
  datatype PositionSummary = PositionSummary(posId: string, title: string, assignedRate: Rate)

  /** A row of the listing: the employee's columns and the aggregated positions. */
  datatype EmployeeListing = EmployeeListing(
    empId: string, fullName: string, dateOfBirth: Date, username: string,
    positions: seq<PositionSummary>)

  /**
   * The employee's assignments whose position exists (the `FILTER (WHERE
   * p.pos_id IS NOT NULL)` of the left joins), in assignment table order.
   */
  function PositionsOf(asg: seq<Assignment>, ps: seq<Position>, empId: string): (r: seq<PositionSummary>)
    ensures forall x :: x in r <==>
      exists a :: a in asg && a.empId == empId && FindPosition(ps, a.posId).Some?
        && x == PositionSummary(a.posId, FindPosition(ps, a.posId).value.title, a.assignedRate)
    decreases |asg|
  {
    if asg == [] then []
    else
      var rest := PositionsOf(asg[1..], ps, empId);
      var a := asg[0];
      assert forall b :: b in asg <==> b == a || b in asg[1..];
      if a.empId == empId && FindPosition(ps, a.posId).Some? then
        [PositionSummary(a.posId, FindPosition(ps, a.posId).value.title, a.assignedRate)] + rest
      else rest
  }

  /** The assignments that `JSON_AGG` turns into the element `x` of the employee's positions. */
  function SummarizedAs(ps: seq<Position>, empId: string, x: PositionSummary): Assignment -> bool {
    (a: Assignment) => a.empId == empId && FindPosition(ps, a.posId).Some?
      && x == PositionSummary(a.posId, FindPosition(ps, a.posId).value.title, a.assignedRate)
  }

  /** `JSON_AGG` yields one element per joined assignment row: nothing is deduplicated. */
  lemma {:induction false} PositionsOfCount(asg: seq<Assignment>, ps: seq<Position>, empId: string, x: PositionSummary)
    ensures multiset(PositionsOf(asg, ps, empId))[x] == |Filter(asg, SummarizedAs(ps, empId, x))|
    decreases |asg|
  {
    if asg != [] {
      PositionsOfCount(asg[1..], ps, empId, x);
    }
  }

  /** An employee's row of the listing; the `COALESCE(..., '[]')` makes no positions an empty array. */
  function ListingOf(t: Tables, e: Employee): EmployeeListing {
    EmployeeListing(e.empId, e.fullName, e.dateOfBirth, e.username, PositionsOf(t.assignments, t.positions, e.empId))
  }

  function ListingsOf(t: Tables, es: seq<Employee>): (r: seq<EmployeeListing>)
    ensures |r| == |es|
    ensures forall i :: 0 <= i < |es| ==> r[i] == ListingOf(t, es[i])
  {
    if es == [] then [] else [ListingOf(t, es[0])] + ListingsOf(t, es[1..])
  }

  /** `ORDER BY e.full_name` */
  predicate ByFullName(a: EmployeeListing, b: EmployeeListing) {
    StrLe(a.fullName, b.fullName)
  }

  lemma ByFullNameIsTotalPreorder()
    ensures TotalPreorder(ByFullName)
  {
    forall a, b ensures ByFullName(a, b) || ByFullName(b, a) {
      StrLeTotal(a.fullName, b.fullName);
    }
    forall a, b, c | ByFullName(a, b) && ByFullName(b, c) ensures ByFullName(a, c) {
      StrLeTransitive(a.fullName, b.fullName, c.fullName);
    }
  }

  /** `getAllEmployees`: one row per employee (GROUP BY), ordered by full name. */
  function AllEmployees(t: Tables): (r: seq<EmployeeListing>)
    ensures |r| == |t.employees|
    ensures multiset(r) == multiset(ListingsOf(t, t.employees))
    ensures SortedBy(r, ByFullName)
  {
    ByFullNameIsTotalPreorder();
    var rows := ListingsOf(t, t.employees);
    assert |multiset(rows)| == |rows|;
    Sort(rows, ByFullName)
  }

  /**
   * Every employee is listed, and one without an assignment to an existing
   * position is listed with `positions = []`.
   */
  lemma EveryEmployeeListed(t: Tables, e: Employee)
    requires e in t.employees
    ensures ListingOf(t, e) in AllEmployees(t)
    ensures (forall a :: a in t.assignments ==> a.empId != e.empId) ==> ListingOf(t, e).positions == []
  {
    var rows := ListingsOf(t, t.employees);
    var i :| 0 <= i < |t.employees| && t.employees[i] == e;
    assert rows[i] == ListingOf(t, e);
    assert ListingOf(t, e) in multiset(rows);
    var ps := ListingOf(t, e).positions;
    if ps != [] {
      assert ps[0] in ps;
    }
  }

  predicate ByName(a: Department, b: Department) {
    StrLe(a.name, b.name)
  }

  lemma ByNameIsTotalPreorder()
    ensures TotalPreorder(ByName)
  {
    forall a, b ensures ByName(a, b) || ByName(b, a) {
      StrLeTotal(a.name, b.name);
    }
    forall a, b, c | ByName(a, b) && ByName(b, c) ensures ByName(a, c) {
      StrLeTransitive(a.name, b.name, c.name);
    }
  }

  /** `getAllDepartments`: every department once, ordered by name. */
  function AllDepartments(t: Tables): (r: seq<Department>)
    ensures multiset(r) == multiset(t.departments)
    ensures SortedBy(r, ByName)
  {
    ByNameIsTotalPreorder();
    Sort(t.departments, ByName)
  }

  predicate ByTitle(a: Position, b: Position) {
    StrLe(a.title, b.title)
  }

  lemma ByTitleIsTotalPreorder()
    ensures TotalPreorder(ByTitle)
  {
    forall a, b ensures ByTitle(a, b) || ByTitle(b, a) {
      StrLeTotal(a.title, b.title);
    }
    forall a, b, c | ByTitle(a, b) && ByTitle(b, c) ensures ByTitle(a, c) {
      StrLeTransitive(a.title, b.title, c.title);
    }
  }

  /** `getAllPositions`: every position once, with its department guid, ordered by title. */
  function AllPositions(t: Tables): (r: seq<Position>)
    ensures multiset(r) == multiset(t.positions)
    ensures SortedBy(r, ByTitle)
  {
    ByTitleIsTotalPreorder();
    Sort(t.positions, ByTitle)
  }

  // ---------------------------------------------------------------------------
  // Inserts
  // ---------------------------------------------------------------------------

  /** The fields `addEmployee` receives; `role` is absent (undefined) when not sent. */
  datatype NewEmployee = NewEmployee(
    empId: string, fullName: string, dateOfBirth: Date,
    username: string, password: string, role: Option<string>)

  /** `role = 'employee'` in the destructuring: the default applies when no role is given. */
  function RoleOrDefault(role: Option<string>): string {
    match role
    case Some(r) => r
    case None => "employee"
  }

  /**
   * The employees table after the INSERT, or the unique violation it
   * raises; `passwordHash` is what the hashing library produced for the
   * password.
   */
  function InsertEmployee(t: Tables, n: NewEmployee, passwordHash: string): Result<Tables, string> {
    if exists e :: e in t.employees && e.empId == n.empId then Failure(UniqueViolation("employees_emp_id_key"))
    else if exists e :: e in t.employees && e.username == n.username then Failure(UniqueViolation("employees_username_key"))
    else
      var row := Employee(n.empId, n.fullName, n.dateOfBirth, n.username, passwordHash, RoleOrDefault(n.role));
      Success(t.(employees := t.employees + [row]))
  }

  /**
   * Adding an employee either appends exactly the new row (role defaulted
   * to 'employee') and keeps the constraints, or, when the emp_id or the
   * username is taken, fails with a duplicate-key error and changes nothing.
   */
  lemma InsertEmployeeEffect(t: Tables, n: NewEmployee, passwordHash: string)
    requires Valid(t)
    ensures var r := InsertEmployee(t, n, passwordHash);
      && (r.Failure? <==> exists e :: e in t.employees && (e.empId == n.empId || e.username == n.username))
      && (r.Failure? ==> StartsWith(r.error, DuplicateKeyValue))
      && (r.Success? ==>
            && Valid(r.value)
            && r.value.employees == t.employees + [Employee(n.empId, n.fullName, n.dateOfBirth, n.username, passwordHash,
                                                            if n.role.None? then "employee" else n.role.value)]
            && r.value.(employees := t.employees) == t)
  {
    UniqueViolationIsDuplicateKey("employees_emp_id_key");
    UniqueViolationIsDuplicateKey("employees_username_key");
    if InsertEmployee(t, n, passwordHash).Success? {
      NewEmployeeKeepsValid(t, Employee(n.empId, n.fullName, n.dateOfBirth, n.username, passwordHash, RoleOrDefault(n.role)));
    }
  }

  /** An employee row whose emp_id and username are both free keeps the constraints. */
  lemma NewEmployeeKeepsValid(t: Tables, row: Employee)
    requires Valid(t)
    requires forall e :: e in t.employees ==> e.empId != row.empId && e.username != row.username
    ensures Valid(t.(employees := t.employees + [row]))
  {
    var es := t.employees + [row];
    forall i, j | 0 <= i < j < |es|
      ensures es[i].empId != es[j].empId && es[i].username != es[j].username
    {
      if j == |t.employees| {
        assert es[i] in t.employees;
      }
    }
  }

  function InsertDepartment(t: Tables, d: Department): Result<Tables, string> {
    if exists x :: x in t.departments && x.guid == d.guid then Failure(UniqueViolation("departments_guid_key"))
    else Success(t.(departments := t.departments + [d]))
  }

  function InsertPosition(t: Tables, p: Position): Result<Tables, string> {
    if exists x :: x in t.positions && x.posId == p.posId then Failure(UniqueViolation("positions_pos_id_key"))
    else Success(t.(positions := t.positions + [p]))
  }

  /** `assignPosition`: nothing is unique on assignments, so the insert always adds a row. */
  function InsertAssignment(t: Tables, empId: string, posId: string, rate: Rate): Tables {
    t.(assignments := t.assignments + [Assignment(t.nextAssignmentId, empId, posId, rate)],
       nextAssignmentId := t.nextAssignmentId + 1)
  }

  /** A department is added unless its guid is taken, in which case the insert fails with a duplicate-key error. */
  lemma InsertDepartmentEffect(t: Tables, d: Department)
    requires Valid(t)
    ensures InsertDepartment(t, d).Failure? <==> exists x :: x in t.departments && x.guid == d.guid
    ensures InsertDepartment(t, d).Failure? ==> StartsWith(InsertDepartment(t, d).error, DuplicateKeyValue)
    ensures InsertDepartment(t, d).Success? ==>
      && Valid(InsertDepartment(t, d).value)
      && InsertDepartment(t, d).value.departments == t.departments + [d]
      && InsertDepartment(t, d).value.(departments := t.departments) == t
  {
    UniqueViolationIsDuplicateKey("departments_guid_key");
  }

  /** A position is added unless its pos_id is taken, in which case the insert fails with a duplicate-key error. */
  lemma InsertPositionEffect(t: Tables, p: Position)
    requires Valid(t)
    ensures InsertPosition(t, p).Failure? <==> exists x :: x in t.positions && x.posId == p.posId
    ensures InsertPosition(t, p).Failure? ==> StartsWith(InsertPosition(t, p).error, DuplicateKeyValue)
    ensures InsertPosition(t, p).Success? ==>
      && Valid(InsertPosition(t, p).value)
      && InsertPosition(t, p).value.positions == t.positions + [p]
      && InsertPosition(t, p).value.(positions := t.positions) == t
  {
    UniqueViolationIsDuplicateKey("positions_pos_id_key");
  }

  /** Assigning twice the same pair adds two rows with distinct ids: nothing is deduplicated. */
  lemma InsertAssignmentEffect(t: Tables, empId: string, posId: string, rate: Rate)
    requires Valid(t)
    ensures var t' := InsertAssignment(t, empId, posId, rate);
      && Valid(t')
      && |t'.assignments| == |t.assignments| + 1
      && t'.assignments[|t.assignments|] == Assignment(t.nextAssignmentId, empId, posId, rate)
      && (forall a :: a in t.assignments ==> a.id != t.nextAssignmentId)
      && t'.assignments[..|t.assignments|] == t.assignments
      && t'.nextAssignmentId == t.nextAssignmentId + 1
      && t'.(assignments := t.assignments, nextAssignmentId := t.nextAssignmentId) == t
  {
  }

  method AddEmployee(db: Database, n: NewEmployee, passwordHash: string) returns (res: Result<Employee, string>)
    requires Valid(db.tables)
    modifies db
    ensures Valid(db.tables)
    ensures InsertEmployee(old(db.tables), n, passwordHash).Failure? ==>
      db.tables == old(db.tables) && res == Failure(InsertEmployee(old(db.tables), n, passwordHash).error)
    ensures InsertEmployee(old(db.tables), n, passwordHash).Success? ==>
      db.tables == InsertEmployee(old(db.tables), n, passwordHash).value
      && res.Success? && res.value == db.tables.employees[|db.tables.employees| - 1]
  {
    InsertEmployeeEffect(db.tables, n, passwordHash);
    var r := InsertEmployee(db.tables, n, passwordHash);
    if r.Failure? {
      return Failure(r.error);
    }
    db.tables := r.value;
    res := Success(db.tables.employees[|db.tables.employees| - 1]);
  }

  method AddDepartment(db: Database, d: Department) returns (res: Result<Department, string>)
    requires Valid(db.tables)
    modifies db
    ensures Valid(db.tables)
    ensures InsertDepartment(old(db.tables), d).Failure? ==>
      db.tables == old(db.tables) && res == Failure(InsertDepartment(old(db.tables), d).error)
    ensures InsertDepartment(old(db.tables), d).Success? ==>
      db.tables == InsertDepartment(old(db.tables), d).value && res == Success(d)
  {
    InsertDepartmentEffect(db.tables, d);
    var r := InsertDepartment(db.tables, d);
    if r.Failure? {
      return Failure(r.error);
    }
    db.tables := r.value;
    res := Success(d);
  }

  method AddPosition(db: Database, p: Position) returns (res: Result<Position, string>)
    requires Valid(db.tables)
    modifies db
    ensures Valid(db.tables)
    ensures InsertPosition(old(db.tables), p).Failure? ==>
      db.tables == old(db.tables) && res == Failure(InsertPosition(old(db.tables), p).error)
    ensures InsertPosition(old(db.tables), p).Success? ==>
      db.tables == InsertPosition(old(db.tables), p).value && res == Success(p)
  {
    InsertPositionEffect(db.tables, p);
    var r := InsertPosition(db.tables, p);
    if r.Failure? {
      return Failure(r.error);
    }
    db.tables := r.value;
    res := Success(p);
  }

  method AssignPosition(db: Database, empId: string, posId: string, rate: Rate) returns (a: Assignment)
    requires Valid(db.tables)
    modifies db
    ensures Valid(db.tables)
    ensures db.tables == InsertAssignment(old(db.tables), empId, posId, rate)
    ensures a == Assignment(old(db.tables).nextAssignmentId, empId, posId, rate)
  {
    InsertAssignmentEffect(db.tables, empId, posId, rate);
    a := Assignment(db.tables.nextAssignmentId, empId, posId, rate);
    db.tables := InsertAssignment(db.tables, empId, posId, rate);
  }

  // ---------------------------------------------------------------------------
  // getMonthlyReport
  // ---------------------------------------------------------------------------

  /** A report row: exactly the seven projected columns. */
  datatype ReportRow = ReportRow(
    departmentName: string, fullName: string, empId: string, dateWork: Date,
    checkIn: Option<Time>, checkOut: Option<Time>, positionTitle: string)

  /** `a.emp_id = t.emp_id AND a.pos_id = t.pos_id` */
  function Links(empId: string, posId: string): Assignment -> bool {
    (a: Assignment) => a.empId == empId && a.posId == posId
  }

  /** How many assignments link the employee to the position (each yields one joined row). */
  function AssignmentCount(asg: seq<Assignment>, empId: string, posId: string): (n: nat)
    ensures n > 0 <==> exists a :: a in asg && a.empId == empId && a.posId == posId
    ensures n == |Filter(asg, Links(empId, posId))|
    decreases |asg|
  {
    if asg == [] then 0
    else
      assert forall b :: b in asg <==> b == asg[0] || b in asg[1..];
      (if asg[0].empId == empId && asg[0].posId == posId then 1 else 0) + AssignmentCount(asg[1..], empId, posId)
  }

  /** The projected row of a timesheet whose employee, position and department all resolve. */
  function ProjectRow(t: Tables, s: Timesheet): Option<ReportRow> {
    match FindEmployee(t.employees, s.empId)
    case None => None
    case Some(e) =>
      match FindPosition(t.positions, s.posId)
      case None => None
      case Some(p) =>
        match FindDepartment(t.departments, p.departmentGuid)
        case None => None
        case Some(d) => Some(ReportRow(d.name, e.fullName, e.empId, s.dateWork, s.checkIn, s.checkOut, p.title))
  }

  function Copies(x: ReportRow, n: nat): (r: seq<ReportRow>)
    ensures forall y :: y in r <==> n > 0 && y == x
    ensures |r| == n && forall y :: multiset(r)[y] == if y == x then n else 0
  {
    if n == 0 then [] else [x] + Copies(x, n - 1)
  }

  /** The inner joins of the report, row by row of `rows`. */
  function JoinRows(t: Tables, rows: seq<Timesheet>): (r: seq<ReportRow>)
    ensures forall x :: x in r <==>
      exists s :: s in rows && AssignmentCount(t.assignments, s.empId, s.posId) > 0 && ProjectRow(t, s) == Some(x)
    decreases |rows|
  {
    if rows == [] then []
    else
      var s := rows[0];
      var rest := JoinRows(t, rows[1..]);
      assert forall u :: u in rows <==> u == s || u in rows[1..];
      match ProjectRow(t, s)
      case None => rest
      case Some(x) => Copies(x, AssignmentCount(t.assignments, s.empId, s.posId)) + rest
  }

  /** The timesheets of the month, as the `WHERE` clause selects them. */
  function InMonthOf(month: Month): Timesheet -> bool {
    (s: Timesheet) => InMonth(s.dateWork, month)
  }

  /**
   * How often the join yields `x`: for each timesheet of the month that
   * projects to `x`, one row per assignment linking its employee and position.
   */
  ghost function ReportCount(t: Tables, ts: seq<Timesheet>, month: Month, x: ReportRow): nat
    decreases |ts|
  {
    if ts == [] then 0
    else
      var s := ts[0];
      (if InMonth(s.dateWork, month) && ProjectRow(t, s) == Some(x) then |Filter(t.assignments, Links(s.empId, s.posId))| else 0)
      + ReportCount(t, ts[1..], month, x)
  }

  lemma {:induction false} JoinRowsCount(t: Tables, ts: seq<Timesheet>, month: Month, x: ReportRow)
    ensures multiset(JoinRows(t, Filter(ts, InMonthOf(month))))[x] == ReportCount(t, ts, month, x)
    decreases |ts|
  {
    if ts != [] {
      JoinRowsCount(t, ts[1..], month, x);
      var s, rest := ts[0], Filter(ts[1..], InMonthOf(month));
      if InMonth(s.dateWork, month) {
        assert Filter(ts, InMonthOf(month)) == [s] + rest;
        JoinRowsCons(t, s, rest, x);
      } else {
        assert Filter(ts, InMonthOf(month)) == rest;
      }
    }
  }

  /** A timesheet in front of the joined rows adds its projection once per linking assignment. */
  lemma JoinRowsCons(t: Tables, s: Timesheet, rest: seq<Timesheet>, x: ReportRow)
    ensures multiset(JoinRows(t, [s] + rest))[x] ==
      (if ProjectRow(t, s) == Some(x) then |Filter(t.assignments, Links(s.empId, s.posId))| else 0)
      + multiset(JoinRows(t, rest))[x]
  {
    var rows := [s] + rest;
    assert rows[0] == s && rows[1..] == rest;
    match ProjectRow(t, s)
    case None =>
    case Some(y) =>
      var c := Copies(y, AssignmentCount(t.assignments, s.empId, s.posId));
      assert JoinRows(t, rows) == c + JoinRows(t, rest);
  }

  /** `ORDER BY d.name, e.full_name, t.date_work` */
  predicate ReportOrder(a: ReportRow, b: ReportRow) {
    || StrLt(a.departmentName, b.departmentName)
    || (a.departmentName == b.departmentName &&
         (|| StrLt(a.fullName, b.fullName)
          || (a.fullName == b.fullName && DateLe(a.dateWork, b.dateWork))))
  }

  lemma ReportOrderIsTotalPreorder()
    ensures TotalPreorder(ReportOrder)
  {
    forall a, b ensures ReportOrder(a, b) || ReportOrder(b, a) {
      StrLtTrichotomy(a.departmentName, b.departmentName);
      StrLtTrichotomy(a.fullName, b.fullName);
      DateLtTrichotomy(a.dateWork, b.dateWork);
    }
    forall a, b, c | ReportOrder(a, b) && ReportOrder(b, c) ensures ReportOrder(a, c) {
      if StrLt(a.departmentName, b.departmentName) && StrLt(b.departmentName, c.departmentName) {
        StrLtTransitive(a.departmentName, b.departmentName, c.departmentName);
      }
      if StrLt(a.fullName, b.fullName) && StrLt(b.fullName, c.fullName) {
        StrLtTransitive(a.fullName, b.fullName, c.fullName);
      }
      if DateLt(a.dateWork, b.dateWork) && DateLt(b.dateWork, c.dateWork) {
        DateLtTransitive(a.dateWork, b.dateWork, c.dateWork);
      }
    }
  }

  /**
   * `getMonthlyReport`: the timesheets dated in the month's half-open range
   * that join an assignment of the same (employee, position), a position
   * and its department, projected and ordered by department, name, date.
   */
  function MonthlyReport(t: Tables, month: Month): (r: seq<ReportRow>)
    ensures forall x :: x in r <==>
      exists s :: s in t.timesheets && InMonth(s.dateWork, month)
        && AssignmentCount(t.assignments, s.empId, s.posId) > 0 && ProjectRow(t, s) == Some(x)
    ensures forall x :: x in r ==> InMonth(x.dateWork, month)
    ensures forall x :: multiset(r)[x] == ReportCount(t, t.timesheets, month, x)
    ensures SortedBy(r, ReportOrder)
  {
    ReportOrderIsTotalPreorder();
    var rows := Filter(t.timesheets, InMonthOf(month));
    var r := Sort(JoinRows(t, rows), ReportOrder);
    forall x ensures multiset(r)[x] == ReportCount(t, t.timesheets, month, x) {
      JoinRowsCount(t, t.timesheets, month, x);
    }
    forall x | x in r ensures InMonth(x.dateWork, month) {
      var s :| s in rows && ProjectRow(t, s) == Some(x);
    }
    r
  }

  /**
   * The SQL join condition: a timesheet of the month, an assignment of the
   * same employee and position, that employee, that position and the
   * department its guid names, and the row projected from them.
   */
  predicate Joined(t: Tables, month: Month, x: ReportRow,
                   s: Timesheet, e: Employee, a: Assignment, p: Position, d: Department)
  {
    && s in t.timesheets && e in t.employees && a in t.assignments && p in t.positions && d in t.departments
    && e.empId == s.empId && a.empId == s.empId && a.posId == s.posId
    && p.posId == s.posId && p.departmentGuid == Some(d.guid)
    && InMonth(s.dateWork, month)
    && x == ReportRow(d.name, e.fullName, e.empId, s.dateWork, s.checkIn, s.checkOut, p.title)
  }

  lemma ReportRowHasJoin(t: Tables, month: Month, x: ReportRow)
    requires x in MonthlyReport(t, month)
    ensures exists s, e, a, p, d :: Joined(t, month, x, s, e, a, p, d)
  {
    var s :| s in t.timesheets && InMonth(s.dateWork, month)
      && AssignmentCount(t.assignments, s.empId, s.posId) > 0 && ProjectRow(t, s) == Some(x);
    var e := FindEmployee(t.employees, s.empId).value;
    var p := FindPosition(t.positions, s.posId).value;
    var d := FindDepartment(t.departments, p.departmentGuid).value;
    var a :| a in t.assignments && a.empId == s.empId && a.posId == s.posId;
    assert Joined(t, month, x, s, e, a, p, d);
  }

  lemma JoinGivesReportRow(t: Tables, month: Month, x: ReportRow,
                           s: Timesheet, e: Employee, a: Assignment, p: Position, d: Department)
    requires Valid(t)
    requires Joined(t, month, x, s, e, a, p, d)
    ensures x in MonthlyReport(t, month)
  {
    FindEmployeeUnique(t.employees, e);
    FindPositionUnique(t.positions, p);
    FindDepartmentUnique(t.departments, d);
    assert ProjectRow(t, s) == Some(x);
  }

  /**
   * On tables that keep their constraints, a row is in the report exactly
   * when the join condition holds for some timesheet, assignment,
   * employee, position and department.
   */
  lemma MonthlyReportJoin(t: Tables, month: Month, x: ReportRow)
    requires Valid(t)
    ensures x in MonthlyReport(t, month) <==> exists s, e, a, p, d :: Joined(t, month, x, s, e, a, p, d)
  {
    if x in MonthlyReport(t, month) {
      ReportRowHasJoin(t, month, x);
    }
    if exists s, e, a, p, d :: Joined(t, month, x, s, e, a, p, d) {
      var s, e, a, p, d :| Joined(t, month, x, s, e, a, p, d);
      JoinGivesReportRow(t, month, x, s, e, a, p, d);
    }
  }
}
