/**
 * The worklog export (the `/worklogs` handler of backend/src/routes/export.js).
 * From the attendance rows and the assignment rows the two queries return,
 * it builds one block per employee with one post per assigned position and
 * the worklogs of that position.
 *
 * `BuildExport` runs the handler's three loops over local dictionaries and
 * is proved equal to `Export`, the same passes written as folds.
 * `ReferenceExport` says independently what the document holds (first and
 * last rows, first-appearance orders, filters), and `ExportMatchesReference`
 * proves the two agree. The properties are then proved about the export.
 */
module WorklogExport {
  import opened Wrappers
  import opened Calendar
  import opened Schema

  // ---------------------------------------------------------------------------
  // Input rows and output document
  // ---------------------------------------------------------------------------

  /** A row of the attendance query: a timesheet joined with its employee, assignment and position. */
  datatype AttendanceRow = AttendanceRow(
    empId: string, fullName: string, dateOfBirth: Date, departmentGuid: Option<string>,
    posId: string, assignedRate: Rate, dateWork: Date, checkIn: Option<Time>, checkOut: Option<Time>)

  /** A row of the assignment query: an assignment joined with its employee and position. */
  datatype AssignmentRow = AssignmentRow(
    empId: string, fullName: string, dateOfBirth: Date, departmentGuid: Option<string>,
    posId: string, assignedRate: Rate)

  /** The (employee, position) pair the handler groups by. */
  datatype Key = Key(empId: string, posId: string)

  function AttendanceKey(r: AttendanceRow): Key { Key(r.empId, r.posId) }
  function AssignmentKey(a: AssignmentRow): Key { Key(a.empId, a.posId) }

  datatype Worklog = Worklog(date: string, checkIn: Option<Time>, checkOut: Option<Time>)
  datatype Post = Post(guid: string, posId: string, rate: Rate, worklogs: seq<Worklog>)
  datatype EmployeeBlock = EmployeeBlock(fullName: string, dateOfBirth: string, posts: seq<Post>)

  /** `department_guid || 'unknown'`: a missing or empty guid becomes "unknown", so a GUID is never empty. */
  function GuidOr(guid: Option<string>): (r: string)
    ensures r != ""
    ensures r == "unknown" || guid == Some(r)
    ensures guid.Some? && guid.value != "" ==> r == guid.value
  {
    if guid.Some? && guid.value != "" then guid.value else "unknown"
  }

  /** The worklog a row contributes: its date in ru-RU form and its two times. */
  function WorklogOf(r: AttendanceRow): Worklog {
    Worklog(RuDate(r.dateWork), r.checkIn, r.checkOut)
  }

  /** The post the first attendance row of a key seeds, before any worklog. */
  function SeedPost(r: AttendanceRow): Post {
    Post(GuidOr(r.departmentGuid), r.posId, r.assignedRate, [])
  }

  /** The post of an assignment that no attendance row matches. */
  function AssignedPost(a: AssignmentRow): Post {
    Post(GuidOr(a.departmentGuid), a.posId, a.assignedRate, [])
  }

  predicate Distinct<T(==)>(s: seq<T>) {
    forall i, j :: 0 <= i < j < |s| ==> s[i] != s[j]
  }

  /** A non-empty sequence is its prefix followed by its last element. */
  lemma SplitLast<T>(s: seq<T>)
    requires s != []
    ensures s == s[..|s| - 1] + [s[|s| - 1]]
  {
  }

  /** Dropping the first element commutes with appending one at the end. */
  lemma TailOfAppend<T>(s: seq<T>, x: T)
    requires s != []
    ensures (s + [x])[1..] == s[1..] + [x]
  {
  }

  lemma DistinctTail<T>(s: seq<T>)
    requires Distinct(s) && s != []
    ensures Distinct(s[1..]) && s[0] !in s[1..]
  {
    var rest := s[1..];
    forall a, b | 0 <= a < b < |rest| ensures rest[a] != rest[b] { assert rest[a] == s[a + 1]; }
    forall m | 0 <= m < |rest| ensures rest[m] != s[0] { assert rest[m] == s[m + 1]; }
  }

  lemma DistinctConcat<T>(a: seq<T>, b: seq<T>)
    requires Distinct(a) && Distinct(b) && forall x :: x in a ==> x !in b
    ensures Distinct(a + b)
  {
    var all := a + b;
    forall i, j | 0 <= i < j < |all| ensures all[i] != all[j] {
      if j < |a| {
        assert all[i] == a[i] && all[j] == a[j];
      } else if i >= |a| {
        assert all[i] == b[i - |a|] && all[j] == b[j - |a|];
      } else {
        assert all[i] == a[i] && a[i] in a && all[j] == b[j - |a|] && b[j - |a|] in b;
      }
    }
  }

  // ---------------------------------------------------------------------------
  // A JavaScript object used as a dictionary: string keys in insertion order
  // ---------------------------------------------------------------------------

  datatype Dict<V> = Dict(keys: seq<string>, entries: map<string, V>)

  function EmptyDict<V>(): Dict<V> { Dict([], map[]) }

  /** Each key listed once, and exactly the keys that have an entry. */
  ghost predicate WellFormed<V>(d: Dict<V>) {
    Distinct(d.keys) && forall k :: k in d.entries <==> k in d.keys
  }

  /** `d[k] = v`: a new key goes last, an existing one keeps its place. */
  function Put<V>(d: Dict<V>, k: string, v: V): (r: Dict<V>)
    ensures WellFormed(d) ==> WellFormed(r) && k in r.keys
  {
    Dict(if k in d.entries then d.keys else d.keys + [k], d.entries[k := v])
  }

  function ValuesOf<V>(keys: seq<string>, entries: map<string, V>): (r: seq<V>)
    ensures (forall k :: k in keys ==> k in entries) ==>
      |r| == |keys| && forall i :: 0 <= i < |keys| ==> r[i] == entries[keys[i]]
    decreases |keys|
  {
    if keys == [] then []
    else (if keys[0] in entries then [entries[keys[0]]] else []) + ValuesOf(keys[1..], entries)
  }

  /** `Object.values(d)`, and the `for...in` walk, in insertion order. */
  function Values<V>(d: Dict<V>): seq<V> {
    ValuesOf(d.keys, d.entries)
  }

  // ---------------------------------------------------------------------------
  // The three passes as folds
  // ---------------------------------------------------------------------------

  /** One attendance row: seed the key's post if it has none, then append the row's worklog. */
  function GroupStep(groups: map<Key, Post>, r: AttendanceRow): map<Key, Post> {
    var k := AttendanceKey(r);
    var p := if k in groups then groups[k] else SeedPost(r);
    groups[k := p.(worklogs := p.worklogs + [WorklogOf(r)])]
  }

  /** `timesheetsByEmpAndPos` after the first loop (only `pos_info` is ever read back). */
  function Groups(rows: seq<AttendanceRow>): map<Key, Post>
    decreases |rows|
  {
    if rows == [] then map[] else GroupStep(Groups(rows[..|rows| - 1]), rows[|rows| - 1])
  }

  datatype EmployeeEntry = EmployeeEntry(fullName: string, dateOfBirth: string, posts: Dict<Post>)

  /** The post an assignment row stores: its key's group if there is one, else its own. */
  function PostFor(groups: map<Key, Post>, a: AssignmentRow): Post {
    if AssignmentKey(a) in groups then groups[AssignmentKey(a)] else AssignedPost(a)
  }

  function NewEntry(a: AssignmentRow): EmployeeEntry {
    EmployeeEntry(a.fullName, RuDate(a.dateOfBirth), EmptyDict())
  }

  /** One assignment row: create the employee's entry if new, then store the post under its pos_id. */
  function RosterStep(groups: map<Key, Post>, roster: Dict<EmployeeEntry>, a: AssignmentRow): Dict<EmployeeEntry> {
    var entry := if a.empId in roster.entries then roster.entries[a.empId] else NewEntry(a);
    Put(roster, a.empId, entry.(posts := Put(entry.posts, a.posId, PostFor(groups, a))))
  }

  /** `assignmentsByEmp` after the second loop. */
  function Roster(groups: map<Key, Post>, rows: seq<AssignmentRow>): (r: Dict<EmployeeEntry>)
    ensures WellFormed(r)
    decreases |rows|
  {
    if rows == [] then EmptyDict()
    else RosterStep(groups, Roster(groups, rows[..|rows| - 1]), rows[|rows| - 1])
  }

  function BlockOf(e: EmployeeEntry): EmployeeBlock {
    EmployeeBlock(e.fullName, e.dateOfBirth, Values(e.posts))
  }

  function Blocks(es: seq<EmployeeEntry>): (r: seq<EmployeeBlock>)
    ensures |r| == |es| && forall i :: 0 <= i < |es| ==> r[i] == BlockOf(es[i])
  {
    if es == [] then [] else [BlockOf(es[0])] + Blocks(es[1..])
  }

  /** `exportData.employees` */
  function Export(attendance: seq<AttendanceRow>, assignments: seq<AssignmentRow>): seq<EmployeeBlock> {
    Blocks(Values(Roster(Groups(attendance), assignments)))
  }

  // ---------------------------------------------------------------------------
  // The handler's loops
  // ---------------------------------------------------------------------------

  lemma PutTwice<V>(d: Dict<V>, k: string, v: V, w: V)
    ensures Put(Put(d, k, v), k, w) == Put(d, k, w)
  {
    assert d.entries[k := v][k := w] == d.entries[k := w];
  }

  /** Seeding a missing group and then appending the row's worklog is one group step. */
  lemma SeedThenAppend(groups: map<Key, Post>, r: AttendanceRow)
    ensures var k := AttendanceKey(r);
      var seeded := if k in groups then groups else groups[k := SeedPost(r)];
      seeded[k := seeded[k].(worklogs := seeded[k].worklogs + [WorklogOf(r)])] == GroupStep(groups, r)
  {
    var k := AttendanceKey(r);
    if k !in groups {
      assert groups[k := SeedPost(r)][k := SeedPost(r).(worklogs := [WorklogOf(r)])]
        == groups[k := SeedPost(r).(worklogs := [WorklogOf(r)])];
    }
  }

  lemma GroupsPrefix(rows: seq<AttendanceRow>, i: nat)
    requires i < |rows|
    ensures Groups(rows[..i + 1]) == GroupStep(Groups(rows[..i]), rows[i])
  {
    assert rows[..i + 1][..i] == rows[..i];
  }

  /** The first loop: group the attendance rows by (employee, position). */
  method GroupAttendance(attendance: seq<AttendanceRow>) returns (groups: map<Key, Post>)
    ensures groups == Groups(attendance)
  {
    groups := map[];
    for i := 0 to |attendance|
      invariant groups == Groups(attendance[..i])
    {
      var r := attendance[i];
      var k := AttendanceKey(r);
      ghost var before := groups;
      if k !in groups {
        groups := groups[k := SeedPost(r)];
      }
      groups := groups[k := groups[k].(worklogs := groups[k].worklogs + [WorklogOf(r)])];
      SeedThenAppend(before, r);
      GroupsPrefix(attendance, i);
    }
    assert attendance[..|attendance|] == attendance;
  }

  lemma RosterPrefix(groups: map<Key, Post>, rows: seq<AssignmentRow>, i: nat)
    requires i < |rows|
    ensures Roster(groups, rows[..i + 1]) == RosterStep(groups, Roster(groups, rows[..i]), rows[i])
  {
    assert rows[..i + 1][..i] == rows[..i];
  }

  /** The second loop: file each assignment's post under its employee. */
  method CollectAssignments(groups: map<Key, Post>, assignments: seq<AssignmentRow>)
    returns (roster: Dict<EmployeeEntry>)
    ensures roster == Roster(groups, assignments)
  {
    roster := EmptyDict();
    for i := 0 to |assignments|
      invariant roster == Roster(groups, assignments[..i])
    {
      var a := assignments[i];
      ghost var before := roster;
      if a.empId !in roster.entries {
        roster := Put(roster, a.empId, NewEntry(a));
      }
      var entry := roster.entries[a.empId];
      var post := if AssignmentKey(a) in groups then groups[AssignmentKey(a)] else AssignedPost(a);
      roster := Put(roster, a.empId, entry.(posts := Put(entry.posts, a.posId, post)));
      assert roster == RosterStep(groups, before, a) by {
        if a.empId !in before.entries {
          PutTwice(before, a.empId, NewEntry(a), entry.(posts := Put(entry.posts, a.posId, post)));
        }
      }
      RosterPrefix(groups, assignments, i);
    }
    assert assignments[..|assignments|] == assignments;
  }

  /** The third loop: one block per employee, in the dictionary's key order. */
  method EmitEmployees(roster: Dict<EmployeeEntry>) returns (employees: seq<EmployeeBlock>)
    requires WellFormed(roster)
    ensures employees == Blocks(Values(roster))
  {
    employees := [];
    for j := 0 to |roster.keys|
      invariant |employees| == j
      invariant forall m :: 0 <= m < j ==> employees[m] == BlockOf(roster.entries[roster.keys[m]])
    {
      employees := employees + [BlockOf(roster.entries[roster.keys[j]])];
    }
  }

  /** The aggregation of the `/worklogs` handler: its three loops in turn. */
  method BuildExport(attendance: seq<AttendanceRow>, assignments: seq<AssignmentRow>)
    returns (employees: seq<EmployeeBlock>)
    ensures employees == Export(attendance, assignments)
  {
    var groups := GroupAttendance(attendance);
    var roster := CollectAssignments(groups, assignments);
    employees := EmitEmployees(roster);
  }

  // ---------------------------------------------------------------------------
  // An independent statement of what the document holds
  // ---------------------------------------------------------------------------

  /** The elements of `s` in the order they first appear. */
  function Dedup(s: seq<string>): (r: seq<string>)
    ensures forall x :: x in r <==> x in s
    ensures Distinct(r)
    decreases |s|
  {
    if s == [] then []
    else
      var d := Dedup(s[..|s| - 1]);
      var x := s[|s| - 1];
      assert forall y :: y in s <==> y in s[..|s| - 1] || y == x;
      if x in d then d else d + [x]
  }

  /** The emp_id of each assignment row, in row order. */
  function EmployeeIds(rows: seq<AssignmentRow>): (r: seq<string>)
    ensures forall x :: x in r <==> exists a :: a in rows && a.empId == x
    decreases |rows|
  {
    if rows == [] then []
    else
      assert forall a :: a in rows <==> a in rows[..|rows| - 1] || a == rows[|rows| - 1];
      EmployeeIds(rows[..|rows| - 1]) + [rows[|rows| - 1].empId]
  }

  /** The pos_id of each assignment row of the employee, in row order. */
  function PostIds(rows: seq<AssignmentRow>, empId: string): (r: seq<string>)
    ensures forall x :: x in r <==> exists a :: a in rows && a.empId == empId && a.posId == x
    decreases |rows|
  {
    if rows == [] then []
    else
      var last := rows[|rows| - 1];
      assert forall a :: a in rows <==> a in rows[..|rows| - 1] || a == last;
      PostIds(rows[..|rows| - 1], empId) + (if last.empId == empId then [last.posId] else [])
  }

  /** The distinct employees of the assignment rows, in order of first appearance. */
  function EmployeeOrder(rows: seq<AssignmentRow>): seq<string> {
    Dedup(EmployeeIds(rows))
  }

  /** The distinct positions assigned to the employee, in order of first appearance. */
  function PostOrder(rows: seq<AssignmentRow>, empId: string): seq<string> {
    Dedup(PostIds(rows, empId))
  }

  /** Some assignment row is the employee's. */
  predicate IsAssigned(rows: seq<AssignmentRow>, empId: string) {
    exists a :: a in rows && a.empId == empId
  }

  /** The employee's first assignment row. */
  function FirstAssignment(rows: seq<AssignmentRow>, empId: string): (r: Option<AssignmentRow>)
    ensures r.Some? <==> IsAssigned(rows, empId)
    ensures r.Some? ==> r.value in rows && r.value.empId == empId
    decreases |rows|
  {
    if rows == [] then None
    else if rows[0].empId == empId then Some(rows[0])
    else
      assert forall a :: a in rows <==> a == rows[0] || a in rows[1..];
      FirstAssignment(rows[1..], empId)
  }

  /** The last assignment row of the key. */
  function LastAssignment(rows: seq<AssignmentRow>, k: Key): (r: Option<AssignmentRow>)
    ensures r.Some? <==> exists a :: a in rows && AssignmentKey(a) == k
    ensures r.Some? ==> r.value in rows && AssignmentKey(r.value) == k
    decreases |rows|
  {
    if rows == [] then None
    else
      var last := rows[|rows| - 1];
      assert forall a :: a in rows <==> a in rows[..|rows| - 1] || a == last;
      if AssignmentKey(last) == k then Some(last) else LastAssignment(rows[..|rows| - 1], k)
  }

  /** The first attendance row of the key. */
  function FirstAttendance(rows: seq<AttendanceRow>, k: Key): (r: Option<AttendanceRow>)
    ensures r.Some? <==> exists x :: x in rows && AttendanceKey(x) == k
    ensures r.Some? ==> r.value in rows && AttendanceKey(r.value) == k
    decreases |rows|
  {
    if rows == [] then None
    else if AttendanceKey(rows[0]) == k then Some(rows[0])
    else
      assert forall x :: x in rows <==> x == rows[0] || x in rows[1..];
      FirstAttendance(rows[1..], k)
  }

  /** The worklogs of the key's attendance rows, in row order. */
  function WorklogsFor(rows: seq<AttendanceRow>, k: Key): seq<Worklog>
    decreases |rows|
  {
    if rows == [] then []
    else (if AttendanceKey(rows[0]) == k then [WorklogOf(rows[0])] else []) + WorklogsFor(rows[1..], k)
  }

  /**
   * The post of a key whose last assignment row is `a`: seeded by the
   * key's first attendance row and holding all of the key's worklogs, or,
   * with no attendance, the assignment's own GUID and rate and no worklog.
   */
  function ReferencePost(attendance: seq<AttendanceRow>, a: AssignmentRow): Post {
    var k := AssignmentKey(a);
    match FirstAttendance(attendance, k)
    case Some(r) => Post(GuidOr(r.departmentGuid), r.posId, r.assignedRate, WorklogsFor(attendance, k))
    case None => AssignedPost(a)
  }

  function ReferencePosts(attendance: seq<AttendanceRow>, assignments: seq<AssignmentRow>,
                          empId: string, posIds: seq<string>): (r: seq<Post>)
    requires forall p :: p in posIds ==> LastAssignment(assignments, Key(empId, p)).Some?
    ensures |r| == |posIds|
    ensures forall j :: 0 <= j < |posIds| ==>
      r[j] == ReferencePost(attendance, LastAssignment(assignments, Key(empId, posIds[j])).value)
    decreases |posIds|
  {
    if posIds == [] then []
    else
      [ReferencePost(attendance, LastAssignment(assignments, Key(empId, posIds[0])).value)]
      + ReferencePosts(attendance, assignments, empId, posIds[1..])
  }

  /**
   * The block of an employee: name and birth date from the first
   * assignment row, one post per distinct assigned position.
   */
  function ReferenceBlock(attendance: seq<AttendanceRow>, assignments: seq<AssignmentRow>, empId: string): EmployeeBlock
    requires FirstAssignment(assignments, empId).Some?
  {
    var first := FirstAssignment(assignments, empId).value;
    PostOrderIsAssigned(assignments, empId);
    EmployeeBlock(first.fullName, RuDate(first.dateOfBirth),
      ReferencePosts(attendance, assignments, empId, PostOrder(assignments, empId)))
  }

  lemma PostOrderIsAssigned(assignments: seq<AssignmentRow>, empId: string)
    ensures forall p :: p in PostOrder(assignments, empId) ==> LastAssignment(assignments, Key(empId, p)).Some?
  {
    forall p | p in PostOrder(assignments, empId)
      ensures LastAssignment(assignments, Key(empId, p)).Some?
    {
      var a :| a in assignments && a.empId == empId && a.posId == p;
      assert AssignmentKey(a) == Key(empId, p);
    }
  }

  lemma EmployeeOrderIsAssigned(assignments: seq<AssignmentRow>)
    ensures forall e :: e in EmployeeOrder(assignments) ==> FirstAssignment(assignments, e).Some?
  {
  }

  /** One block per distinct employee of the assignment rows, in order of first appearance. */
  function ReferenceExport(attendance: seq<AttendanceRow>, assignments: seq<AssignmentRow>): seq<EmployeeBlock> {
    var order := EmployeeOrder(assignments);
    EmployeeOrderIsAssigned(assignments);
    seq(|order|, i requires 0 <= i < |order| => ReferenceBlock(attendance, assignments, order[i]))
  }

  // ---------------------------------------------------------------------------
  // The first pass against the reference
  // ---------------------------------------------------------------------------

  lemma {:induction false} FirstAttendanceAppend(rows: seq<AttendanceRow>, x: AttendanceRow, k: Key)
    ensures FirstAttendance(rows + [x], k) ==
      if FirstAttendance(rows, k).Some? then FirstAttendance(rows, k)
      else if AttendanceKey(x) == k then Some(x) else None
    decreases |rows|
  {
    if rows != [] {
      TailOfAppend(rows, x);
      FirstAttendanceAppend(rows[1..], x, k);
    }
  }

  lemma {:induction false} WorklogsForAppend(rows: seq<AttendanceRow>, x: AttendanceRow, k: Key)
    ensures WorklogsFor(rows + [x], k) ==
      WorklogsFor(rows, k) + (if AttendanceKey(x) == k then [WorklogOf(x)] else [])
    decreases |rows|
  {
    if rows == [] {
      assert [x][1..] == [];
    } else {
      var head := if AttendanceKey(rows[0]) == k then [WorklogOf(rows[0])] else [];
      TailOfAppend(rows, x);
      assert (rows + [x])[0] == rows[0];
      assert WorklogsFor(rows + [x], k) == head + WorklogsFor(rows[1..] + [x], k);
      WorklogsForAppend(rows[1..], x, k);
    }
  }

  /**
   * After the first pass a key has a group exactly when some attendance row
   * has it; the group was seeded by the key's first row (later rows only
   * append) and holds one worklog per row of the key, in row order.
   */
  lemma {:induction false} GroupsMatch(rows: seq<AttendanceRow>, k: Key)
    ensures k in Groups(rows) <==> FirstAttendance(rows, k).Some?
    ensures k in Groups(rows) ==>
      var first := FirstAttendance(rows, k).value;
      Groups(rows)[k] == Post(GuidOr(first.departmentGuid), first.posId, first.assignedRate, WorklogsFor(rows, k))
    decreases |rows|
  {
    if rows != [] {
      var init, x := rows[..|rows| - 1], rows[|rows| - 1];
      SplitLast(rows);
      GroupsMatch(init, k);
      FirstAttendanceAppend(init, x, k);
      WorklogsForAppend(init, x, k);
      var g := Groups(init);
      assert Groups(rows) == GroupStep(g, x);
      if AttendanceKey(x) != k {
        assert WorklogsFor(rows, k) == WorklogsFor(init, k) + [];
      } else if k !in g {
        NoAttendanceNoWorklogs(init, k);
        assert WorklogsFor(rows, k) == [WorklogOf(x)];
      }
    }
  }

  /** A key without attendance rows has no worklogs. */
  lemma {:induction false} NoAttendanceNoWorklogs(rows: seq<AttendanceRow>, k: Key)
    requires FirstAttendance(rows, k).None?
    ensures WorklogsFor(rows, k) == []
    decreases |rows|
  {
    if rows != [] {
      assert rows[0] in rows;
      NoAttendanceNoWorklogs(rows[1..], k);
    }
  }

  /** The post an assignment stores after the first pass is its reference post. */
  lemma PostForMatches(attendance: seq<AttendanceRow>, a: AssignmentRow)
    ensures PostFor(Groups(attendance), a) == ReferencePost(attendance, a)
  {
    GroupsMatch(attendance, AssignmentKey(a));
  }

  // ---------------------------------------------------------------------------
  // The second pass against the reference
  // ---------------------------------------------------------------------------

  /** An employee's entry after the rows `rows`: the reference name, date of birth and posts. */
  ghost predicate EntryMatches(groups: map<Key, Post>, rows: seq<AssignmentRow>, empId: string, entry: EmployeeEntry) {
    && FirstAssignment(rows, empId).Some?
    && entry.fullName == FirstAssignment(rows, empId).value.fullName
    && entry.dateOfBirth == RuDate(FirstAssignment(rows, empId).value.dateOfBirth)
    && WellFormed(entry.posts)
    && entry.posts.keys == PostOrder(rows, empId)
    && forall p :: p in entry.posts.entries ==>
         LastAssignment(rows, Key(empId, p)).Some? &&
         entry.posts.entries[p] == PostFor(groups, LastAssignment(rows, Key(empId, p)).value)
  }

  ghost predicate RosterMatches(groups: map<Key, Post>, rows: seq<AssignmentRow>, roster: Dict<EmployeeEntry>) {
    && WellFormed(roster)
    && roster.keys == EmployeeOrder(rows)
    && forall e :: e in roster.entries ==> EntryMatches(groups, rows, e, roster.entries[e])
  }

  lemma {:induction false} FirstAssignmentAppend(rows: seq<AssignmentRow>, x: AssignmentRow, empId: string)
    ensures FirstAssignment(rows + [x], empId) ==
      if FirstAssignment(rows, empId).Some? then FirstAssignment(rows, empId)
      else if x.empId == empId then Some(x) else None
    decreases |rows|
  {
    if rows != [] {
      TailOfAppend(rows, x);
      FirstAssignmentAppend(rows[1..], x, empId);
    }
  }

  lemma EmployeeOrderAppend(rows: seq<AssignmentRow>, x: AssignmentRow)
    ensures EmployeeOrder(rows + [x]) ==
      if x.empId in EmployeeOrder(rows) then EmployeeOrder(rows) else EmployeeOrder(rows) + [x.empId]
  {
    assert (rows + [x])[..|rows|] == rows;
    var ids := EmployeeIds(rows) + [x.empId];
    assert EmployeeIds(rows + [x]) == ids;
    assert ids[..|ids| - 1] == EmployeeIds(rows);
  }

  lemma PostOrderAppend(rows: seq<AssignmentRow>, x: AssignmentRow, empId: string)
    ensures x.empId != empId ==> PostOrder(rows + [x], empId) == PostOrder(rows, empId)
    ensures x.empId == empId ==>
      PostOrder(rows + [x], empId) ==
        if x.posId in PostOrder(rows, empId) then PostOrder(rows, empId) else PostOrder(rows, empId) + [x.posId]
  {
    assert (rows + [x])[..|rows|] == rows;
    assert (rows + [x])[|rows|] == x;
    if x.empId == empId {
      var ids := PostIds(rows, empId) + [x.posId];
      assert PostIds(rows + [x], empId) == ids;
      assert ids[..|ids| - 1] == PostIds(rows, empId);
    } else {
      assert PostIds(rows + [x], empId) == PostIds(rows, empId) + [];
      assert PostIds(rows, empId) + [] == PostIds(rows, empId);
    }
  }

  lemma LastAssignmentAppend(rows: seq<AssignmentRow>, x: AssignmentRow, k: Key)
    ensures LastAssignment(rows + [x], k) == if AssignmentKey(x) == k then Some(x) else LastAssignment(rows, k)
  {
    assert (rows + [x])[..|rows|] == rows;
  }

  /** An employee with no assignment row has no assigned position. */
  lemma {:induction false} UnassignedHasNoPosts(rows: seq<AssignmentRow>, empId: string)
    requires !IsAssigned(rows, empId)
    ensures PostIds(rows, empId) == [] && PostOrder(rows, empId) == []
    decreases |rows|
  {
    if rows != [] {
      var init := rows[..|rows| - 1];
      assert rows[|rows| - 1] in rows;
      assert forall a :: a in init ==> a in rows;
      UnassignedHasNoPosts(init, empId);
    }
  }

  /** An entry of another employee is untouched by the row and still matches. */
  lemma EntryOfOtherEmployee(groups: map<Key, Post>, rows: seq<AssignmentRow>, x: AssignmentRow,
                             empId: string, entry: EmployeeEntry)
    requires EntryMatches(groups, rows, empId, entry) && x.empId != empId
    ensures EntryMatches(groups, rows + [x], empId, entry)
  {
    FirstAssignmentAppend(rows, x, empId);
    PostOrderAppend(rows, x, empId);
    forall p | p in entry.posts.entries
      ensures LastAssignment(rows + [x], Key(empId, p)) == LastAssignment(rows, Key(empId, p))
    {
      LastAssignmentAppend(rows, x, Key(empId, p));
    }
  }

  /** The posts of the row's employee before the row: the reference's, or none for a new employee. */
  lemma PostsBeforeRow(groups: map<Key, Post>, rows: seq<AssignmentRow>, x: AssignmentRow, entry: EmployeeEntry)
    requires IsAssigned(rows, x.empId) ==> EntryMatches(groups, rows, x.empId, entry)
    requires !IsAssigned(rows, x.empId) ==> entry == NewEntry(x)
    ensures WellFormed(entry.posts) && entry.posts.keys == PostOrder(rows, x.empId)
    ensures forall p :: p in entry.posts.entries ==>
      LastAssignment(rows, Key(x.empId, p)).Some? &&
      entry.posts.entries[p] == PostFor(groups, LastAssignment(rows, Key(x.empId, p)).value)
  {
    if !IsAssigned(rows, x.empId) {
      UnassignedHasNoPosts(rows, x.empId);
    }
  }

  /** Storing the row's post keeps the posts in reference order, each stored by its key's last row. */
  lemma PostsAfterRow(groups: map<Key, Post>, rows: seq<AssignmentRow>, x: AssignmentRow, posts: Dict<Post>)
    requires WellFormed(posts) && posts.keys == PostOrder(rows, x.empId)
    requires forall p :: p in posts.entries ==>
      LastAssignment(rows, Key(x.empId, p)).Some? &&
      posts.entries[p] == PostFor(groups, LastAssignment(rows, Key(x.empId, p)).value)
    ensures var posts' := Put(posts, x.posId, PostFor(groups, x));
      && WellFormed(posts') && posts'.keys == PostOrder(rows + [x], x.empId)
      && forall p :: p in posts'.entries ==>
           LastAssignment(rows + [x], Key(x.empId, p)).Some? &&
           posts'.entries[p] == PostFor(groups, LastAssignment(rows + [x], Key(x.empId, p)).value)
  {
    var e := x.empId;
    PostOrderAppend(rows, x, e);
    var posts' := Put(posts, x.posId, PostFor(groups, x));
    forall p | p in posts'.entries
      ensures LastAssignment(rows + [x], Key(e, p)).Some?
      ensures posts'.entries[p] == PostFor(groups, LastAssignment(rows + [x], Key(e, p)).value)
    {
      LastAssignmentAppend(rows, x, Key(e, p));
    }
  }

  /** The entry of the row's employee after the row stores its post. */
  lemma EntryOfRowEmployee(groups: map<Key, Post>, rows: seq<AssignmentRow>, x: AssignmentRow,
                           entry: EmployeeEntry)
    requires IsAssigned(rows, x.empId) ==> EntryMatches(groups, rows, x.empId, entry)
    requires !IsAssigned(rows, x.empId) ==> entry == NewEntry(x)
    ensures EntryMatches(groups, rows + [x], x.empId, entry.(posts := Put(entry.posts, x.posId, PostFor(groups, x))))
  {
    FirstAssignmentAppend(rows, x, x.empId);
    PostsBeforeRow(groups, rows, x, entry);
    PostsAfterRow(groups, rows, x, entry.posts);
  }

  lemma RosterStepMatches(groups: map<Key, Post>, rows: seq<AssignmentRow>, x: AssignmentRow, roster: Dict<EmployeeEntry>)
    requires RosterMatches(groups, rows, roster)
    ensures RosterMatches(groups, rows + [x], RosterStep(groups, roster, x))
  {
    var e := x.empId;
    EmployeeOrderAppend(rows, x);
    assert e in roster.entries <==> IsAssigned(rows, e);
    var entry := if e in roster.entries then roster.entries[e] else NewEntry(x);
    EntryOfRowEmployee(groups, rows, x, entry);
    var r' := RosterStep(groups, roster, x);
    forall e' | e' in r'.entries
      ensures EntryMatches(groups, rows + [x], e', r'.entries[e'])
    {
      if e' != e {
        EntryOfOtherEmployee(groups, rows, x, e', roster.entries[e']);
      }
    }
  }

  /** After the second pass each employee's entry is the reference's, and the employees are in reference order. */
  lemma {:induction false} RosterMatchesReference(groups: map<Key, Post>, rows: seq<AssignmentRow>)
    ensures RosterMatches(groups, rows, Roster(groups, rows))
    decreases |rows|
  {
    if rows != [] {
      var init, x := rows[..|rows| - 1], rows[|rows| - 1];
      var before := Roster(groups, init);
      SplitLast(rows);
      RosterMatchesReference(groups, init);
      RosterStepMatches(groups, init, x, before);
    }
  }

  // ---------------------------------------------------------------------------
  // The export is the reference document
  // ---------------------------------------------------------------------------

  lemma BlockMatches(attendance: seq<AttendanceRow>, assignments: seq<AssignmentRow>, empId: string, entry: EmployeeEntry)
    requires EntryMatches(Groups(attendance), assignments, empId, entry)
    ensures BlockOf(entry) == ReferenceBlock(attendance, assignments, empId)
  {
    var posts := Values(entry.posts);
    var reference := ReferenceBlock(attendance, assignments, empId).posts;
    forall j | 0 <= j < |posts|
      ensures posts[j] == reference[j]
    {
      var p := entry.posts.keys[j];
      PostForMatches(attendance, LastAssignment(assignments, Key(empId, p)).value);
    }
  }

  /**
   * The handler's document is the reference one: a block per distinct
   * employee of the assignment rows in order of first appearance, named
   * after the employee's first assignment row; in it a post per distinct
   * assigned position in order of first appearance, whose fields come
   * from the key's first attendance row (with all of the key's worklogs)
   * or else from the key's last assignment row (with none).
   */
  lemma ExportMatchesReference(attendance: seq<AttendanceRow>, assignments: seq<AssignmentRow>)
    ensures Export(attendance, assignments) == ReferenceExport(attendance, assignments)
  {
    var groups := Groups(attendance);
    var roster := Roster(groups, assignments);
    var order := EmployeeOrder(assignments);
    ExportEntries(attendance, assignments);
    var mine := Export(attendance, assignments);
    var reference := ReferenceExport(attendance, assignments);
    forall i | 0 <= i < |mine|
      ensures mine[i] == reference[i]
    {
      BlockMatches(attendance, assignments, order[i], roster.entries[order[i]]);
    }
  }

  /** The document's blocks are the roster's entries in order of first appearance, each matching the reference. */
  lemma ExportEntries(attendance: seq<AttendanceRow>, assignments: seq<AssignmentRow>)
    ensures var roster := Roster(Groups(attendance), assignments);
      var order := EmployeeOrder(assignments);
      && |Export(attendance, assignments)| == |order|
      && forall i :: 0 <= i < |order| ==>
           && order[i] in roster.entries
           && EntryMatches(Groups(attendance), assignments, order[i], roster.entries[order[i]])
           && Export(attendance, assignments)[i] == BlockOf(roster.entries[order[i]])
  {
    RosterMatchesReference(Groups(attendance), assignments);
  }

  // ---------------------------------------------------------------------------
  // Properties of the document
  // ---------------------------------------------------------------------------

  /**
   * The document has exactly one block per distinct emp_id of the assignment
   * rows, in order of first appearance, and each block's name and date of
   * birth come from that employee's first assignment row.
   */
  lemma ExportBlocks(attendance: seq<AttendanceRow>, assignments: seq<AssignmentRow>)
    ensures |Export(attendance, assignments)| == |EmployeeOrder(assignments)|
    ensures Distinct(EmployeeOrder(assignments))
    ensures forall e :: e in EmployeeOrder(assignments) <==> IsAssigned(assignments, e)
    ensures forall i :: 0 <= i < |EmployeeOrder(assignments)| ==>
      var first := FirstAssignment(assignments, EmployeeOrder(assignments)[i]).value;
      && Export(attendance, assignments)[i].fullName == first.fullName
      && Export(attendance, assignments)[i].dateOfBirth == RuDate(first.dateOfBirth)
  {
    ExportMatchesReference(attendance, assignments);
  }

  /** Without assignment rows the document has no employee, whatever the attendance. */
  lemma NoAssignmentsNoEmployees(attendance: seq<AttendanceRow>)
    ensures Export(attendance, []) == []
  {
    ExportBlocks(attendance, []);
  }

  /**
   * The posts of the i-th block: one per distinct pos_id assigned to its
   * employee, in order of first appearance. Each post's key has an
   * assignment row, its GUID is never empty, and it holds every worklog of
   * its key in attendance order. With attendance it was seeded by the key's
   * first attendance row; without, it is the key's last assignment row's
   * post with no worklog (a repeated assignment overwrites the earlier one).
   */
  lemma ExportPost(attendance: seq<AttendanceRow>, assignments: seq<AssignmentRow>, i: nat, j: nat)
    requires i < |EmployeeOrder(assignments)|
    requires j < |PostOrder(assignments, EmployeeOrder(assignments)[i])|
    ensures i < |Export(attendance, assignments)|
    ensures |Export(attendance, assignments)[i].posts| == |PostOrder(assignments, EmployeeOrder(assignments)[i])|
    ensures
      var e := EmployeeOrder(assignments)[i];
      var k := Key(e, PostOrder(assignments, e)[j]);
      var post := Export(attendance, assignments)[i].posts[j];
      && post.posId == k.posId
      && post.guid != ""
      && post.worklogs == WorklogsFor(attendance, k)
      && LastAssignment(assignments, k).Some?
      && (FirstAttendance(attendance, k).Some? ==>
            && post.guid == GuidOr(FirstAttendance(attendance, k).value.departmentGuid)
            && post.rate == FirstAttendance(attendance, k).value.assignedRate)
      && (FirstAttendance(attendance, k).None? ==>
            post == AssignedPost(LastAssignment(assignments, k).value))
  {
    ExportMatchesReference(attendance, assignments);
    var e := EmployeeOrder(assignments)[i];
    var k := Key(e, PostOrder(assignments, e)[j]);
    PostOrderIsAssigned(assignments, e);
    if FirstAttendance(attendance, k).None? {
      NoAttendanceNoWorklogs(attendance, k);
    }
  }

  /** Every assignment row yields a post with its pos_id in the block of its emp_id. */
  lemma EveryAssignmentHasPost(attendance: seq<AttendanceRow>, assignments: seq<AssignmentRow>, a: AssignmentRow)
    requires a in assignments
    ensures exists i, j ::
      && 0 <= i < |EmployeeOrder(assignments)| && EmployeeOrder(assignments)[i] == a.empId
      && 0 <= j < |PostOrder(assignments, a.empId)| && PostOrder(assignments, a.empId)[j] == a.posId
      && i < |Export(attendance, assignments)| && j < |Export(attendance, assignments)[i].posts|
      && Export(attendance, assignments)[i].posts[j].posId == a.posId
  {
    ExportBlocks(attendance, assignments);
    var order := EmployeeOrder(assignments);
    assert a.empId in order;
    var i :| 0 <= i < |order| && order[i] == a.empId;
    var posts := PostOrder(assignments, a.empId);
    assert a.posId in posts;
    var j :| 0 <= j < |posts| && posts[j] == a.posId;
    ExportPost(attendance, assignments, i, j);
  }

  // ---------------------------------------------------------------------------
  // Counting worklogs
  // ---------------------------------------------------------------------------

  function PostWorklogs(posts: seq<Post>): nat
    decreases |posts|
  {
    if posts == [] then 0 else |posts[0].worklogs| + PostWorklogs(posts[1..])
  }

  /** The number of worklogs in a document. */
  function TotalWorklogs(blocks: seq<EmployeeBlock>): nat
    decreases |blocks|
  {
    if blocks == [] then 0 else PostWorklogs(blocks[0].posts) + TotalWorklogs(blocks[1..])
  }

  /** The number of attendance rows whose key is in `keys`. */
  function CountIn(rows: seq<AttendanceRow>, keys: set<Key>): (n: nat)
    ensures n <= |rows|
    decreases |rows|
  {
    if rows == [] then 0 else (if AttendanceKey(rows[0]) in keys then 1 else 0) + CountIn(rows[1..], keys)
  }

  /** The (emp_id, pos_id) pairs of the assignment rows. */
  ghost function AssignedKeys(assignments: seq<AssignmentRow>): set<Key> {
    set a | a in assignments :: AssignmentKey(a)
  }

  /** The worklogs the keys `ks` have in all. */
  function Load(ks: seq<Key>, rows: seq<AttendanceRow>): nat
    decreases |ks|
  {
    if ks == [] then 0 else |WorklogsFor(rows, ks[0])| + Load(ks[1..], rows)
  }

  lemma {:induction false} WorklogsForCount(rows: seq<AttendanceRow>, k: Key)
    ensures |WorklogsFor(rows, k)| == CountIn(rows, {k})
    decreases |rows|
  {
    if rows != [] { WorklogsForCount(rows[1..], k); }
  }

  lemma {:induction false} CountInSplit(rows: seq<AttendanceRow>, k: Key, keys: set<Key>)
    requires k !in keys
    ensures CountIn(rows, {k} + keys) == CountIn(rows, {k}) + CountIn(rows, keys)
    decreases |rows|
  {
    if rows != [] { CountInSplit(rows[1..], k, keys); }
  }

  lemma {:induction false} CountInNone(rows: seq<AttendanceRow>)
    ensures CountIn(rows, {}) == 0
    decreases |rows|
  {
    if rows != [] { CountInNone(rows[1..]); }
  }

  /** Distinct keys share out the rows they match. */
  lemma {:induction false} LoadCount(ks: seq<Key>, rows: seq<AttendanceRow>)
    requires Distinct(ks)
    ensures Load(ks, rows) == CountIn(rows, set k | k in ks)
    decreases |ks|
  {
    if ks == [] {
      assert (set k | k in ks) == {};
      CountInNone(rows);
    } else {
      var rest := ks[1..];
      DistinctTail(ks);
      LoadCount(rest, rows);
      assert (set k | k in ks) == {ks[0]} + (set k | k in rest) by {
        assert ks == [ks[0]] + rest;
      }
      CountInSplit(rows, ks[0], set k | k in rest);
      WorklogsForCount(rows, ks[0]);
    }
  }

  lemma {:induction false} LoadAppend(a: seq<Key>, b: seq<Key>, rows: seq<AttendanceRow>)
    ensures Load(a + b, rows) == Load(a, rows) + Load(b, rows)
    decreases |a|
  {
    if a == [] {
      assert a + b == b;
    } else {
      assert (a + b)[1..] == a[1..] + b;
      LoadAppend(a[1..], b, rows);
    }
  }

  /** The keys of one employee's positions. */
  function EmployeeKeys(empId: string, posIds: seq<string>): (r: seq<Key>)
    ensures |r| == |posIds| && forall j :: 0 <= j < |posIds| ==> r[j] == Key(empId, posIds[j])
  {
    seq(|posIds|, j requires 0 <= j < |posIds| => Key(empId, posIds[j]))
  }

  /** The keys of the employees' posts, employee by employee. */
  function KeysOf(assignments: seq<AssignmentRow>, order: seq<string>): (r: seq<Key>)
    ensures forall k :: k in r <==> k.empId in order && k.posId in PostOrder(assignments, k.empId)
    decreases |order|
  {
    if order == [] then []
    else
      var here := EmployeeKeys(order[0], PostOrder(assignments, order[0]));
      assert forall k :: k in here <==> k.empId == order[0] && k.posId in PostOrder(assignments, order[0]) by {
        forall k | k in here ensures k.empId == order[0] && k.posId in PostOrder(assignments, order[0]) {
          var j :| 0 <= j < |here| && here[j] == k;
        }
        forall k: Key | k.empId == order[0] && k.posId in PostOrder(assignments, order[0]) ensures k in here {
          var posIds := PostOrder(assignments, order[0]);
          var j :| 0 <= j < |posIds| && posIds[j] == k.posId;
          assert here[j] == k;
        }
      }
      assert forall x :: x in order <==> x == order[0] || x in order[1..] by {
        assert order == [order[0]] + order[1..];
      }
      here + KeysOf(assignments, order[1..])
  }

  lemma {:induction false} KeysOfDistinct(assignments: seq<AssignmentRow>, order: seq<string>)
    requires Distinct(order)
    ensures Distinct(KeysOf(assignments, order))
    decreases |order|
  {
    if order != [] {
      var e, rest := order[0], order[1..];
      DistinctTail(order);
      KeysOfDistinct(assignments, rest);
      var posIds := PostOrder(assignments, e);
      var here := EmployeeKeys(e, posIds);
      assert Distinct(here) by {
        forall a, b | 0 <= a < b < |here| ensures here[a] != here[b] {
          assert posIds[a] != posIds[b];
        }
      }
      assert KeysOf(assignments, order) == here + KeysOf(assignments, rest);
      DistinctConcat(here, KeysOf(assignments, rest));
    }
  }

  lemma AssignedKeysAreKeysOf(assignments: seq<AssignmentRow>)
    ensures (set k | k in KeysOf(assignments, EmployeeOrder(assignments))) == AssignedKeys(assignments)
  {
    var order := EmployeeOrder(assignments);
    forall k | k in AssignedKeys(assignments) ensures k in KeysOf(assignments, order) {
      var a :| a in assignments && AssignmentKey(a) == k;
      assert IsAssigned(assignments, a.empId);
    }
  }

  /** The worklogs of the posts of `posIds` are the worklogs of their keys. */
  lemma {:induction false} ReferencePostsLoad(attendance: seq<AttendanceRow>, assignments: seq<AssignmentRow>,
                                              empId: string, posIds: seq<string>)
    requires forall p :: p in posIds ==> LastAssignment(assignments, Key(empId, p)).Some?
    ensures PostWorklogs(ReferencePosts(attendance, assignments, empId, posIds)) == Load(EmployeeKeys(empId, posIds), attendance)
    decreases |posIds|
  {
    if posIds != [] {
      var k := Key(empId, posIds[0]);
      if FirstAttendance(attendance, k).None? {
        NoAttendanceNoWorklogs(attendance, k);
      }
      var posts := ReferencePosts(attendance, assignments, empId, posIds);
      assert posts[1..] == ReferencePosts(attendance, assignments, empId, posIds[1..]);
      assert EmployeeKeys(empId, posIds)[1..] == EmployeeKeys(empId, posIds[1..]);
      ReferencePostsLoad(attendance, assignments, empId, posIds[1..]);
    }
  }

  /** One employee's block holds the worklogs of all the employee's keys. */
  lemma BlockLoad(attendance: seq<AttendanceRow>, assignments: seq<AssignmentRow>, empId: string, block: EmployeeBlock)
    requires FirstAssignment(assignments, empId).Some? && block == ReferenceBlock(attendance, assignments, empId)
    ensures PostWorklogs(block.posts) == Load(EmployeeKeys(empId, PostOrder(assignments, empId)), attendance)
  {
    PostOrderIsAssigned(assignments, empId);
    ReferencePostsLoad(attendance, assignments, empId, PostOrder(assignments, empId));
  }

  /** The load of the keys of several employees is the first employee's plus the rest's. */
  lemma KeysOfLoad(attendance: seq<AttendanceRow>, assignments: seq<AssignmentRow>, order: seq<string>)
    requires order != []
    ensures Load(KeysOf(assignments, order), attendance)
      == Load(EmployeeKeys(order[0], PostOrder(assignments, order[0])), attendance)
       + Load(KeysOf(assignments, order[1..]), attendance)
  {
    LoadAppend(EmployeeKeys(order[0], PostOrder(assignments, order[0])), KeysOf(assignments, order[1..]), attendance);
  }

  /** The blocks of the employees `order` hold the worklogs of all their keys. */
  lemma {:induction false} ReferenceBlocksLoad(attendance: seq<AttendanceRow>, assignments: seq<AssignmentRow>,
                                               order: seq<string>, blocks: seq<EmployeeBlock>)
    requires forall e :: e in order ==> FirstAssignment(assignments, e).Some?
    requires |blocks| == |order|
    requires forall i :: 0 <= i < |order| ==> blocks[i] == ReferenceBlock(attendance, assignments, order[i])
    ensures TotalWorklogs(blocks) == Load(KeysOf(assignments, order), attendance)
    decreases |order|
  {
    if order != [] {
      DropFirstBlock(attendance, assignments, order, blocks);
      ReferenceBlocksLoad(attendance, assignments, order[1..], blocks[1..]);
      BlockLoad(attendance, assignments, order[0], blocks[0]);
      KeysOfLoad(attendance, assignments, order);
    }
  }

  /** The blocks after the first are the blocks of the employees after the first. */
  lemma DropFirstBlock(attendance: seq<AttendanceRow>, assignments: seq<AssignmentRow>,
                       order: seq<string>, blocks: seq<EmployeeBlock>)
    requires forall e :: e in order ==> FirstAssignment(assignments, e).Some?
    requires |blocks| == |order| && order != []
    requires forall i :: 0 <= i < |order| ==> blocks[i] == ReferenceBlock(attendance, assignments, order[i])
    ensures forall e :: e in order[1..] ==> FirstAssignment(assignments, e).Some?
    ensures |blocks[1..]| == |order[1..]|
    ensures forall i :: 0 <= i < |order[1..]| ==> blocks[1..][i] == ReferenceBlock(attendance, assignments, order[1..][i])
    ensures FirstAssignment(assignments, order[0]).Some? && blocks[0] == ReferenceBlock(attendance, assignments, order[0])
  {
    assert forall e :: e in order[1..] ==> e in order;
    forall i | 0 <= i < |order[1..]|
      ensures blocks[1..][i] == ReferenceBlock(attendance, assignments, order[1..][i])
    {
      assert blocks[1..][i] == blocks[i + 1] && order[1..][i] == order[i + 1];
    }
  }

  /**
   * The document holds exactly as many worklogs as there are attendance rows
   * whose (emp_id, pos_id) has an assignment row: every such row once, the
   * rows of unassigned keys never.
   */
  lemma WorklogCount(attendance: seq<AttendanceRow>, assignments: seq<AssignmentRow>)
    ensures TotalWorklogs(Export(attendance, assignments)) == CountIn(attendance, AssignedKeys(assignments))
  {
    ExportMatchesReference(attendance, assignments);
    var order := EmployeeOrder(assignments);
    EmployeeOrderIsAssigned(assignments);
    ReferenceBlocksLoad(attendance, assignments, order, ReferenceExport(attendance, assignments));
    KeysOfDistinct(assignments, order);
    LoadCount(KeysOf(assignments, order), attendance);
    AssignedKeysAreKeysOf(assignments);
  }

  lemma {:induction false} CountInAll(rows: seq<AttendanceRow>, keys: set<Key>)
    requires forall r :: r in rows ==> AttendanceKey(r) in keys
    ensures CountIn(rows, keys) == |rows|
    decreases |rows|
  {
    if rows != [] {
      assert rows[0] in rows;
      assert forall r :: r in rows[1..] ==> r in rows;
      CountInAll(rows[1..], keys);
    }
  }

  /** When every attendance row's key is assigned, every attendance row becomes exactly one worklog. */
  lemma EveryRowCovered(attendance: seq<AttendanceRow>, assignments: seq<AssignmentRow>)
    requires forall r :: r in attendance ==> exists a :: a in assignments && AssignmentKey(a) == AttendanceKey(r)
    ensures TotalWorklogs(Export(attendance, assignments)) == |attendance|
  {
    WorklogCount(attendance, assignments);
    CountInAll(attendance, AssignedKeys(assignments));
  }

  // ---------------------------------------------------------------------------
  // The handler's string key, as written
  // ---------------------------------------------------------------------------

  /** The handler's dictionary key `${emp_id}-${pos_id}`. */
  function StringKey(empId: string, posId: string): (r: string)
    ensures |r| == |empId| + 1 + |posId| && r[|empId|] == '-'
  {
    empId + "-" + posId
  }

  /** The first loop as written, on the string key. */
  function StringGroupStep(groups: map<string, Post>, r: AttendanceRow): map<string, Post> {
    var k := StringKey(r.empId, r.posId);
    var p := if k in groups then groups[k] else SeedPost(r);
    groups[k := p.(worklogs := p.worklogs + [WorklogOf(r)])]
  }

  function StringGroups(rows: seq<AttendanceRow>): map<string, Post>
    decreases |rows|
  {
    if rows == [] then map[] else StringGroupStep(StringGroups(rows[..|rows| - 1]), rows[|rows| - 1])
  }

  /**
   * The string key merges distinct (emp_id, pos_id) pairs: rows of
   * ("A-1", "2") and of ("A", "1-2") land in one group holding both
   * worklogs, whereas the pair key keeps one group with one worklog each.
   */
  lemma StringKeyMergesGroups(r1: AttendanceRow, r2: AttendanceRow)
    requires r1.empId == "A-1" && r1.posId == "2"
    requires r2.empId == "A" && r2.posId == "1-2"
    ensures AttendanceKey(r1) != AttendanceKey(r2)
    ensures StringKey(r1.empId, r1.posId) == StringKey(r2.empId, r2.posId) == "A-1-2"
    ensures StringGroups([r1, r2]).Keys == {"A-1-2"}
    ensures StringGroups([r1, r2])["A-1-2"].worklogs == [WorklogOf(r1), WorklogOf(r2)]
    ensures Groups([r1, r2]).Keys == {AttendanceKey(r1), AttendanceKey(r2)}
    ensures Groups([r1, r2])[AttendanceKey(r1)].worklogs == [WorklogOf(r1)]
    ensures Groups([r1, r2])[AttendanceKey(r2)].worklogs == [WorklogOf(r2)]
  {
    assert StringKey(r1.empId, r1.posId) == "A-1-2" == StringKey(r2.empId, r2.posId) by {
      assert "A-1" + "-" + "2" == "A-1-2";
      assert "A" + "-" + "1-2" == "A-1-2";
    }
    assert r1.empId != r2.empId by {
      assert |r1.empId| != |r2.empId|;
    }
    SharedStringKeyOneGroup(r1, r2);
    DistinctKeysTwoGroups(r1, r2);
  }

  /** Two rows with the same string key make one string-keyed group holding both worklogs. */
  lemma SharedStringKeyOneGroup(r1: AttendanceRow, r2: AttendanceRow)
    requires StringKey(r1.empId, r1.posId) == StringKey(r2.empId, r2.posId)
    ensures StringGroups([r1, r2]).Keys == {StringKey(r1.empId, r1.posId)}
    ensures StringGroups([r1, r2])[StringKey(r1.empId, r1.posId)].worklogs == [WorklogOf(r1), WorklogOf(r2)]
  {
    assert [r1, r2][..1] == [r1];
    assert [r1][..0] == [];
    var one := StringGroupStep(map[], r1);
    assert StringGroups([r1]) == one;
    assert SeedPost(r1).worklogs + [WorklogOf(r1)] == [WorklogOf(r1)];
    assert StringGroups([r1, r2]) == StringGroupStep(one, r2);
  }

  /** Two rows with different pair keys make two groups of one worklog each. */
  lemma DistinctKeysTwoGroups(r1: AttendanceRow, r2: AttendanceRow)
    requires AttendanceKey(r1) != AttendanceKey(r2)
    ensures Groups([r1, r2]).Keys == {AttendanceKey(r1), AttendanceKey(r2)}
    ensures Groups([r1, r2])[AttendanceKey(r1)].worklogs == [WorklogOf(r1)]
    ensures Groups([r1, r2])[AttendanceKey(r2)].worklogs == [WorklogOf(r2)]
  {
    assert [r1, r2][..1] == [r1];
    assert [r1][..0] == [];
    assert Groups([r1]) == GroupStep(map[], r1);
    assert Groups([r1, r2]) == GroupStep(Groups([r1]), r2);
  }

  /** Without '-' in emp_ids the string key is as good as the pair key. */
  lemma StringKeyInjective(e1: string, p1: string, e2: string, p2: string)
    requires '-' !in e1 && '-' !in e2
    requires StringKey(e1, p1) == StringKey(e2, p2)
    ensures e1 == e2 && p1 == p2
  {
    var s := StringKey(e1, p1);
    assert |e1| == |e2|;
    assert e1 == s[..|e1|] == e2;
    assert p1 == s[|e1| + 1..] == p2;
  }
}
