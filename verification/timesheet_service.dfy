/**
 * The attendance recorder (backend/src/services/timesheetService.js):
 * check-in upserts and check-out updates the record of one
 * (employee, position, date) key; the two reads filter an employee's
 * records by date or by month, join the position title and sort.
 */
module TimesheetService {
  import opened Wrappers
  import opened Text
  import opened Calendar
  import opened Query
  import opened Schema

  /** The message `updateCheckOut` throws when no record has the key. */
  const NotFoundMessage := "Timesheet record not found for check-out update"

  // ---------------------------------------------------------------------------
  // The keyed view of the table
  // ---------------------------------------------------------------------------

  /** `SELECT id FROM timesheets WHERE emp_id = $1 AND pos_id = $2 AND date_work = $3`. */
  function FindRecord(ts: seq<Timesheet>, k: RecordKey): (r: Option<nat>)
    ensures r.Some? ==> r.value < |ts| && KeyOf(ts[r.value]) == k
    ensures r.None? ==> forall i :: 0 <= i < |ts| ==> KeyOf(ts[i]) != k
    decreases |ts|
  {
    if ts == [] then None
    else if KeyOf(ts[0]) == k then Some(0)
    else match FindRecord(ts[1..], k)
      case Some(i) => Some(i + 1)
      case None => None
  }

  /** The record stored under a key, if any. */
  function Lookup(ts: seq<Timesheet>, k: RecordKey): Option<Timesheet> {
    match FindRecord(ts, k)
    case Some(i) => Some(ts[i])
    case None => None
  }

  lemma FoundIsOnlyMatch(ts: seq<Timesheet>, i: nat)
    requires UniqueRecordKeys(ts) && i < |ts|
    ensures FindRecord(ts, KeyOf(ts[i])) == Some(i)
  {
  }

  /** Replacing a record by one with the same key changes that key's entry only. */
  lemma LookupAfterReplace(ts: seq<Timesheet>, i: nat, rec: Timesheet)
    requires UniqueRecordKeys(ts) && i < |ts| && KeyOf(rec) == KeyOf(ts[i])
    ensures UniqueRecordKeys(ts[i := rec])
    ensures Lookup(ts[i := rec], KeyOf(rec)) == Some(rec)
    ensures forall k :: k != KeyOf(rec) ==> Lookup(ts[i := rec], k) == Lookup(ts, k)
  {
    var ts' := ts[i := rec];
    FoundIsOnlyMatch(ts', i);
    forall k | k != KeyOf(rec)
      ensures Lookup(ts', k) == Lookup(ts, k)
    {
      match FindRecord(ts, k)
      case Some(j) => FoundIsOnlyMatch(ts', j);
      case None =>
    }
  }

  /** Appending a record with a new key adds that key's entry only. */
  lemma LookupAfterAppend(ts: seq<Timesheet>, rec: Timesheet)
    requires UniqueRecordKeys(ts) && Lookup(ts, KeyOf(rec)).None?
    ensures UniqueRecordKeys(ts + [rec])
    ensures Lookup(ts + [rec], KeyOf(rec)) == Some(rec)
    ensures forall k :: k != KeyOf(rec) ==> Lookup(ts + [rec], k) == Lookup(ts, k)
  {
    var ts' := ts + [rec];
    FoundIsOnlyMatch(ts', |ts|);
    forall k | k != KeyOf(rec)
      ensures Lookup(ts', k) == Lookup(ts, k)
    {
      match FindRecord(ts, k)
      case Some(j) => FoundIsOnlyMatch(ts', j);
      case None =>
    }
  }

  // ---------------------------------------------------------------------------
  // Check-in and check-out on the tables
  // ---------------------------------------------------------------------------

  /**
   * The tables after `createCheckIn`: the record found under the key gets
   * the new check-in and a NULL check-out; without one, a record with the
   * next serial id is inserted.
   */
  function CheckIn(t: Tables, k: RecordKey, time: Time): Tables {
    match FindRecord(t.timesheets, k)
    case Some(i) =>
      t.(timesheets := t.timesheets[i := t.timesheets[i].(checkIn := Some(time), checkOut := None)])
    case None =>
      var rec := Timesheet(t.nextTimesheetId, k.empId, k.posId, k.dateWork, Some(time), None);
      t.(timesheets := t.timesheets + [rec], nextTimesheetId := t.nextTimesheetId + 1)
  }

  /** The tables after `updateCheckOut`, or the error it throws when no record has the key. */
  function CheckOut(t: Tables, k: RecordKey, time: Time): Result<Tables, string> {
    match FindRecord(t.timesheets, k)
    case Some(i) => Success(t.(timesheets := t.timesheets[i := t.timesheets[i].(checkOut := Some(time))]))
    case None => Failure(NotFoundMessage)
  }

  /**
   * Check-in leaves exactly one record under the key, with the given
   * check-in and no check-out; it inserts only when none existed (and then
   * with the next serial id), keeps the id of an existing one, and changes
   * no other key and no other table.
   */
  lemma CheckInEffect(t: Tables, k: RecordKey, time: Time)
    requires Valid(t)
    ensures var t' := CheckIn(t, k, time);
      && Valid(t')
      && Lookup(t'.timesheets, k).Some?
      && Lookup(t'.timesheets, k).value.checkIn == Some(time)
      && Lookup(t'.timesheets, k).value.checkOut == None
      && (Lookup(t.timesheets, k).Some? ==>
            |t'.timesheets| == |t.timesheets| && Lookup(t'.timesheets, k).value.id == Lookup(t.timesheets, k).value.id)
      && (Lookup(t.timesheets, k).None? ==>
            |t'.timesheets| == |t.timesheets| + 1 && Lookup(t'.timesheets, k).value.id == t.nextTimesheetId)
      && (forall k' :: k' != k ==> Lookup(t'.timesheets, k') == Lookup(t.timesheets, k'))
      && t'.(timesheets := t.timesheets, nextTimesheetId := t.nextTimesheetId) == t
  {
    var ts := t.timesheets;
    match FindRecord(ts, k)
    case Some(i) =>
      var rec := ts[i].(checkIn := Some(time), checkOut := None);
      LookupAfterReplace(ts, i, rec);
    case None =>
      var rec := Timesheet(t.nextTimesheetId, k.empId, k.posId, k.dateWork, Some(time), None);
      LookupAfterAppend(ts, rec);
  }

  /**
   * Two check-ins on one key leave one record: the count the first one
   * left, the second time as check-in, no check-out, the first one's id.
   */
  lemma RepeatedCheckIn(t: Tables, k: RecordKey, first: Time, second: Time)
    requires Valid(t)
    ensures var once := CheckIn(t, k, first);
      var twice := CheckIn(once, k, second);
      && |twice.timesheets| == |once.timesheets|
      && Lookup(twice.timesheets, k) == Some(Lookup(once.timesheets, k).value.(checkIn := Some(second)))
  {
    var once := CheckIn(t, k, first);
    CheckInEffect(t, k, first);
    CheckInEffect(once, k, second);
    var i := FindRecord(once.timesheets, k).value;
    LookupAfterReplace(once.timesheets, i, once.timesheets[i].(checkIn := Some(second), checkOut := None));
  }

  /**
   * Check-out on a missing key fails with the not-found message and
   * creates nothing; on an existing key it sets the check-out, keeps the
   * check-in and the id, and changes no other key and no other table.
   */
  lemma CheckOutEffect(t: Tables, k: RecordKey, time: Time)
    requires Valid(t)
    ensures CheckOut(t, k, time).Failure? <==> Lookup(t.timesheets, k).None?
    ensures CheckOut(t, k, time).Failure? ==> CheckOut(t, k, time).error == NotFoundMessage
    ensures CheckOut(t, k, time).Success? ==>
      var t' := CheckOut(t, k, time).value;
      && Valid(t')
      && Lookup(t'.timesheets, k) == Some(Lookup(t.timesheets, k).value.(checkOut := Some(time)))
      && |t'.timesheets| == |t.timesheets|
      && (forall k' :: k' != k ==> Lookup(t'.timesheets, k') == Lookup(t.timesheets, k'))
      && t'.(timesheets := t.timesheets) == t
  {
    match FindRecord(t.timesheets, k)
    case Some(i) =>
      LookupAfterReplace(t.timesheets, i, t.timesheets[i].(checkOut := Some(time)));
    case None =>
  }

  /** `createCheckIn`: looks the key up, then updates the record found or inserts one. */
  method CreateCheckIn(db: Database, empId: string, posId: string, dateWork: Date, time: Time)
    returns (rec: Timesheet)
    requires Valid(db.tables)
    modifies db
    ensures db.tables == CheckIn(old(db.tables), RecordKey(empId, posId, dateWork), time)
    ensures Valid(db.tables)
    ensures Lookup(db.tables.timesheets, RecordKey(empId, posId, dateWork)) == Some(rec)
  {
    var k := RecordKey(empId, posId, dateWork);
    CheckInEffect(db.tables, k, time);
    var ts := db.tables.timesheets;
    var existing := FindRecord(ts, k);
    if existing.Some? {
      var i := existing.value;
      rec := ts[i].(checkIn := Some(time), checkOut := None);
      db.tables := db.tables.(timesheets := ts[i := rec]);
    } else {
      rec := Timesheet(db.tables.nextTimesheetId, empId, posId, dateWork, Some(time), None);
      db.tables := db.tables.(timesheets := ts + [rec], nextTimesheetId := db.tables.nextTimesheetId + 1);
    }
  }

  /** `updateCheckOut`: updates the record of the key, or fails with the not-found message. */
  method UpdateCheckOut(db: Database, empId: string, posId: string, dateWork: Date, time: Time)
    returns (res: Result<Timesheet, string>)
    requires Valid(db.tables)
    modifies db
    ensures Valid(db.tables)
    ensures res.Failure? ==> db.tables == old(db.tables) && res.error == NotFoundMessage
    ensures res.Success? ==>
      && CheckOut(old(db.tables), RecordKey(empId, posId, dateWork), time) == Success(db.tables)
      && Lookup(db.tables.timesheets, RecordKey(empId, posId, dateWork)) == Some(res.value)
    ensures res.Failure? <==> CheckOut(old(db.tables), RecordKey(empId, posId, dateWork), time).Failure?
  {
    var k := RecordKey(empId, posId, dateWork);
    CheckOutEffect(db.tables, k, time);
    var ts := db.tables.timesheets;
    var found := FindRecord(ts, k);
    if found.None? {
      return Failure(NotFoundMessage);
    }
    var i := found.value;
    var rec := ts[i].(checkOut := Some(time));
    db.tables := db.tables.(timesheets := ts[i := rec]);
    res := Success(rec);
  }

  // ---------------------------------------------------------------------------
  // The two reads
  // ---------------------------------------------------------------------------

  /** A row of the reads: `t.*` and `p.title AS position_title`. */
  datatype TimesheetView = TimesheetView(record: Timesheet, positionTitle: string)

  /** The title of the position a pos_id joins to, if one does. */
  function TitleOf(ps: seq<Position>, posId: string): Option<string> {
    match FindPosition(ps, posId)
    case Some(p) => Some(p.title)
    case None => None
  }

  /** `JOIN positions p ON t.pos_id = p.pos_id`: rows without a position drop out. */
  function WithTitles(ts: seq<Timesheet>, ps: seq<Position>): (r: seq<TimesheetView>)
    ensures forall v :: v in r <==> v.record in ts && TitleOf(ps, v.record.posId) == Some(v.positionTitle)
    decreases |ts|
  {
    if ts == [] then []
    else
      var rest := WithTitles(ts[1..], ps);
      assert forall x :: x in ts <==> x == ts[0] || x in ts[1..];
      match TitleOf(ps, ts[0].posId)
      case Some(title) => [TimesheetView(ts[0], title)] + rest
      case None => rest
  }

  /** The join keeps each record with a position as often as it occurs, titled with that position. */
  lemma {:induction false} WithTitlesCount(ts: seq<Timesheet>, ps: seq<Position>)
    ensures forall v :: (multiset(WithTitles(ts, ps))[v] ==
      if TitleOf(ps, v.record.posId) == Some(v.positionTitle) then multiset(ts)[v.record] else 0)
    decreases |ts|
  {
    if ts != [] {
      WithTitlesCount(ts[1..], ps);
      assert ts == [ts[0]] + ts[1..];
    }
  }

  /** `ORDER BY t.pos_id` */
  predicate ByPosId(a: TimesheetView, b: TimesheetView) {
    StrLe(a.record.posId, b.record.posId)
  }

  /** `ORDER BY t.date_work, t.pos_id` */
  predicate ByDateThenPosId(a: TimesheetView, b: TimesheetView) {
    || DateLt(a.record.dateWork, b.record.dateWork)
    || (a.record.dateWork == b.record.dateWork && StrLe(a.record.posId, b.record.posId))
  }

  lemma ByPosIdIsTotalPreorder()
    ensures TotalPreorder(ByPosId)
  {
    forall a, b ensures ByPosId(a, b) || ByPosId(b, a) {
      StrLeTotal(a.record.posId, b.record.posId);
    }
    forall a, b, c | ByPosId(a, b) && ByPosId(b, c) ensures ByPosId(a, c) {
      StrLeTransitive(a.record.posId, b.record.posId, c.record.posId);
    }
  }

  lemma ByDateThenPosIdIsTotalPreorder()
    ensures TotalPreorder(ByDateThenPosId)
  {
    forall a, b ensures ByDateThenPosId(a, b) || ByDateThenPosId(b, a) {
      DateLtTrichotomy(a.record.dateWork, b.record.dateWork);
      StrLeTotal(a.record.posId, b.record.posId);
    }
    forall a, b, c | ByDateThenPosId(a, b) && ByDateThenPosId(b, c) ensures ByDateThenPosId(a, c) {
      var da, db, dc := a.record.dateWork, b.record.dateWork, c.record.dateWork;
      if DateLt(da, db) && DateLt(db, dc) { DateLtTransitive(da, db, dc); }
      if da == db && db == dc { StrLeTransitive(a.record.posId, b.record.posId, c.record.posId); }
    }
  }

  /**
   * `getTimesheetsByEmpAndDate`: exactly the employee's records of that date
   * whose position exists, each with its position title, ordered by pos_id.
   */
  function ByEmpAndDate(t: Tables, empId: string, date: Date): (r: seq<TimesheetView>)
    ensures forall v :: v in r <==>
      && v.record in t.timesheets && v.record.empId == empId && v.record.dateWork == date
      && TitleOf(t.positions, v.record.posId) == Some(v.positionTitle)
    ensures forall v :: (multiset(r)[v] ==
      if v.record.empId == empId && v.record.dateWork == date && TitleOf(t.positions, v.record.posId) == Some(v.positionTitle)
      then multiset(t.timesheets)[v.record] else 0)
    ensures SortedBy(r, ByPosId)
  {
    ByPosIdIsTotalPreorder();
    var rows := Filter(t.timesheets, (x: Timesheet) => x.empId == empId && x.dateWork == date);
    FilterCount(t.timesheets, (x: Timesheet) => x.empId == empId && x.dateWork == date);
    WithTitlesCount(rows, t.positions);
    Sort(WithTitles(rows, t.positions), ByPosId)
  }

  /**
   * `getTimesheetsByEmpAndMonth`: exactly the employee's records dated in
   * [first day of the month, first day of the next month) whose position
   * exists, with the position title, ordered by date then pos_id.
   */
  function ByEmpAndMonth(t: Tables, empId: string, month: Month): (r: seq<TimesheetView>)
    ensures forall v :: v in r <==>
      && v.record in t.timesheets && v.record.empId == empId && InMonth(v.record.dateWork, month)
      && TitleOf(t.positions, v.record.posId) == Some(v.positionTitle)
    ensures forall v :: (multiset(r)[v] ==
      if v.record.empId == empId && InMonth(v.record.dateWork, month) && TitleOf(t.positions, v.record.posId) == Some(v.positionTitle)
      then multiset(t.timesheets)[v.record] else 0)
    ensures SortedBy(r, ByDateThenPosId)
  {
    ByDateThenPosIdIsTotalPreorder();
    var rows := Filter(t.timesheets, (x: Timesheet) => x.empId == empId && InMonth(x.dateWork, month));
    FilterCount(t.timesheets, (x: Timesheet) => x.empId == empId && InMonth(x.dateWork, month));
    WithTitlesCount(rows, t.positions);
    Sort(WithTitles(rows, t.positions), ByDateThenPosId)
  }
}
