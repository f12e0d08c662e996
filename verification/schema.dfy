/**
 * The relational store the services work on: one row type per table, the
 * tables together, the uniqueness constraints of the data model, and the
 * lookups by business key that the queries' joins perform.
 */
module Schema {
  import opened Wrappers
  import opened Calendar

  /** A TIME value as the driver hands it over ("09:00:00"); compared only for equality. */
  type Time = string

  /** A rate (`total_rate`, `assigned_rate`): carried through, never computed on. */
  type Rate = real

  datatype Employee = Employee(
    empId: string, fullName: string, dateOfBirth: Date,
    username: string, passwordHash: string, role: string)

  datatype Department = Department(guid: string, name: string)

  datatype Position = Position(
    posId: string, title: string, totalRate: Rate, departmentGuid: Option<string>)

  /** A row of `employee_positions`; `id` is its serial surrogate key. */
  datatype Assignment = Assignment(id: nat, empId: string, posId: string, assignedRate: Rate)

  /** A row of `timesheets`; `id` is its serial surrogate key. */
  datatype Timesheet = Timesheet(
    id: nat, empId: string, posId: string, dateWork: Date,
    checkIn: Option<Time>, checkOut: Option<Time>)

  /** All tables, with the next value of each serial column. */
  datatype Tables = Tables(
    employees: seq<Employee>,
    departments: seq<Department>,
    positions: seq<Position>,
    assignments: seq<Assignment>, nextAssignmentId: nat,
    timesheets: seq<Timesheet>, nextTimesheetId: nat)

  function EmptyTables(): Tables {
    Tables([], [], [], [], 1, [], 1)
  }

  /** The (employee, position, date) triple a timesheet is unique on. */
  datatype RecordKey = RecordKey(empId: string, posId: string, dateWork: Date)

  function KeyOf(t: Timesheet): RecordKey {
    RecordKey(t.empId, t.posId, t.dateWork)
  }

  ghost predicate UniqueRecordKeys(ts: seq<Timesheet>) {
    forall i, j :: 0 <= i < j < |ts| ==> KeyOf(ts[i]) != KeyOf(ts[j])
  }

  /**
   * The constraints the store keeps: employees unique on emp_id and on
   * username, departments on guid, positions on pos_id, timesheets on their
   * key triple; serial ids distinct and below the next serial value.
   */
  ghost predicate Valid(t: Tables) {
    && (forall i, j :: 0 <= i < j < |t.employees| ==>
          t.employees[i].empId != t.employees[j].empId && t.employees[i].username != t.employees[j].username)
    && (forall i, j :: 0 <= i < j < |t.departments| ==> t.departments[i].guid != t.departments[j].guid)
    && (forall i, j :: 0 <= i < j < |t.positions| ==> t.positions[i].posId != t.positions[j].posId)
    && (forall i, j :: 0 <= i < j < |t.assignments| ==> t.assignments[i].id != t.assignments[j].id)
    && (forall i :: 0 <= i < |t.assignments| ==> t.assignments[i].id < t.nextAssignmentId)
    && UniqueRecordKeys(t.timesheets)
    && (forall i, j :: 0 <= i < j < |t.timesheets| ==> t.timesheets[i].id != t.timesheets[j].id)
    && (forall i :: 0 <= i < |t.timesheets| ==> t.timesheets[i].id < t.nextTimesheetId)
  }

  /** The store: its tables change in place under the services' statements. */
  class Database {
    var tables: Tables

    constructor ()
      ensures tables == EmptyTables() && Valid(tables)
    {
      tables := EmptyTables();
    }
  }

  // ---------------------------------------------------------------------------
  // Lookups by business key (the equality joins of the queries)
  // ---------------------------------------------------------------------------

  function FindEmployee(es: seq<Employee>, empId: string): (r: Option<Employee>)
    ensures r.Some? ==> r.value in es && r.value.empId == empId
    ensures r.None? ==> forall e :: e in es ==> e.empId != empId
  {
    if es == [] then None
    else if es[0].empId == empId then Some(es[0])
    else FindEmployee(es[1..], empId)
  }

  /** `SELECT ... FROM employees WHERE username = $1`, first row. */
  function FindByUsername(es: seq<Employee>, username: string): (r: Option<Employee>)
    ensures r.Some? ==> r.value in es && r.value.username == username
    ensures r.None? ==> forall e :: e in es ==> e.username != username
  {
    if es == [] then None
    else if es[0].username == username then Some(es[0])
    else FindByUsername(es[1..], username)
  }

  function FindPosition(ps: seq<Position>, posId: string): (r: Option<Position>)
    ensures r.Some? ==> r.value in ps && r.value.posId == posId
    ensures r.None? ==> forall p :: p in ps ==> p.posId != posId
  {
    if ps == [] then None
    else if ps[0].posId == posId then Some(ps[0])
    else FindPosition(ps[1..], posId)
  }

  /** The department a position's `department_guid` resolves to; a NULL guid resolves to none. */
  function FindDepartment(ds: seq<Department>, guid: Option<string>): (r: Option<Department>)
    ensures r.Some? ==> r.value in ds && guid == Some(r.value.guid)
    ensures r.None? ==> forall d :: d in ds ==> guid != Some(d.guid)
  {
    if guid.None? || ds == [] then None
    else if ds[0].guid == guid.value then Some(ds[0])
    else FindDepartment(ds[1..], guid)
  }

  /** Under a uniqueness constraint the row found is the only one with that key. */
  lemma FindEmployeeUnique(es: seq<Employee>, e: Employee)
    requires forall i, j :: 0 <= i < j < |es| ==> es[i].empId != es[j].empId
    requires e in es
    ensures FindEmployee(es, e.empId) == Some(e)
  {
    var r := FindEmployee(es, e.empId);
    var i :| 0 <= i < |es| && es[i] == e;
    var j :| 0 <= j < |es| && es[j] == r.value;
    assert i == j;
  }

  lemma FindPositionUnique(ps: seq<Position>, p: Position)
    requires forall i, j :: 0 <= i < j < |ps| ==> ps[i].posId != ps[j].posId
    requires p in ps
    ensures FindPosition(ps, p.posId) == Some(p)
  {
    var r := FindPosition(ps, p.posId);
    var i :| 0 <= i < |ps| && ps[i] == p;
    var j :| 0 <= j < |ps| && ps[j] == r.value;
    assert i == j;
  }

  lemma FindDepartmentUnique(ds: seq<Department>, d: Department)
    requires forall i, j :: 0 <= i < j < |ds| ==> ds[i].guid != ds[j].guid
    requires d in ds
    ensures FindDepartment(ds, Some(d.guid)) == Some(d)
  {
    var r := FindDepartment(ds, Some(d.guid));
    var i :| 0 <= i < |ds| && ds[i] == d;
    var j :| 0 <= j < |ds| && ds[j] == r.value;
    assert i == j;
  }
}
