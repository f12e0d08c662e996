/**
 * The attendance routes (backend/src/routes/timesheet.js): each handler
 * checks the request fields, calls the service and maps its outcome to a
 * status code. A handler is a function of the request fields and of the
 * service's outcome.
 */
module TimesheetRoutes {
  import opened Wrappers
  import opened Text
  import opened Calendar
  import opened Query
  import opened Schema
  import opened Request
  import opened TimesheetService

  const CheckInRequired := "emp_id, pos_id, date_work, and check_in_time are required"
  const CheckOutRequired := "emp_id, pos_id, date_work, and check_out_time are required"
  const DateRouteRequired := "emp_id and date_work are required"
  const MonthRouteRequired := "emp_id and month are required"
  const MonthFormatError := "month must be in YYYY-MM format (e.g., 2025-01)"

  datatype CheckInBody = CheckInBody(empId: Json, posId: Json, dateWork: Json, checkInTime: Json)
  datatype CheckOutBody = CheckOutBody(empId: Json, posId: Json, dateWork: Json, checkOutTime: Json)

  predicate CheckInFieldsPresent(b: CheckInBody) {
    Truthy(b.empId) && Truthy(b.posId) && Truthy(b.dateWork) && Truthy(b.checkInTime)
  }

  predicate CheckOutFieldsPresent(b: CheckOutBody) {
    Truthy(b.empId) && Truthy(b.posId) && Truthy(b.dateWork) && Truthy(b.checkOutTime)
  }

  /**
   * `POST /check-in`: 400 when a field is missing, 201 with the record the
   * service returns, 500 when the service fails.
   */
  function CheckInReply(b: CheckInBody, outcome: Result<Timesheet, string>): (r: Reply<Timesheet>)
    ensures r.status == 400 <==> !CheckInFieldsPresent(b)
    ensures r.status == 201 <==> CheckInFieldsPresent(b) && outcome.Success?
    ensures r.status == 201 ==> r.body == Payload(outcome.value)
    ensures r.status != 201 ==> r.body.ErrorMessage?
    ensures r.status == 400 || r.status == 201 || r.status == 500
  {
    if !CheckInFieldsPresent(b) then Reply(400, ErrorMessage(CheckInRequired))
    else match outcome
      case Success(rec) => Reply(201, Payload(rec))
      case Failure(_) => Reply(500, ErrorMessage(InternalServerError))
  }

  /**
   * `PUT /check-out`: 400 when a field is missing, 200 with the updated
   * record, 404 with the service's message when it is exactly the
   * not-found message, 500 for any other failure.
   */
  function CheckOutReply(b: CheckOutBody, outcome: Result<Timesheet, string>): (r: Reply<Timesheet>)
    ensures r.status == 400 <==> !CheckOutFieldsPresent(b)
    ensures r.status == 200 <==> CheckOutFieldsPresent(b) && outcome.Success?
    ensures r.status == 200 ==> r.body == Payload(outcome.value)
    ensures r.status == 404 <==> CheckOutFieldsPresent(b) && outcome == Failure(NotFoundMessage)
    ensures r.status == 404 ==> r.body == ErrorMessage(NotFoundMessage)
    ensures r.status == 500 <==> CheckOutFieldsPresent(b) && outcome.Failure? && outcome.error != NotFoundMessage
  {
    if !CheckOutFieldsPresent(b) then Reply(400, ErrorMessage(CheckOutRequired))
    else match outcome
      case Success(rec) => Reply(200, Payload(rec))
      case Failure(message) =>
        if message == NotFoundMessage then Reply(404, ErrorMessage(message))
        else Reply(500, ErrorMessage(InternalServerError))
  }

  /**
   * A check-in request with every field answers 201 with the record that
   * the store then holds under the key: checked in at the given time, not
   * checked out.
   */
  lemma CheckInAnswersStoredRecord(t: Tables, b: CheckInBody, k: RecordKey, time: Time)
    requires Valid(t) && CheckInFieldsPresent(b)
    ensures var t' := CheckIn(t, k, time);
      && Lookup(t'.timesheets, k).Some?
      && var rec := Lookup(t'.timesheets, k).value;
      && CheckInReply(b, Success(rec)) == Reply(201, Payload(rec))
      && rec.checkIn == Some(time) && rec.checkOut == None
  {
    CheckInEffect(t, k, time);
  }

  /**
   * A check-out request with every field on a key the store does not hold
   * answers 404 with the not-found message, and the store is left as it was.
   */
  lemma CheckOutOfMissingRecordIs404(t: Tables, b: CheckOutBody, k: RecordKey, time: Time)
    requires Valid(t) && CheckOutFieldsPresent(b) && Lookup(t.timesheets, k).None?
    ensures CheckOut(t, k, time).Failure?
    ensures CheckOutReply(b, Failure(CheckOut(t, k, time).error)) == Reply(404, ErrorMessage(NotFoundMessage))
  {
    CheckOutEffect(t, k, time);
  }

  /**
   * `GET /emp/:emp_id/date/:date_work`: 400 for an empty parameter, 500
   * when the store cannot read the date (`readDate` is its cast of the
   * text to a date), otherwise 200 with the day's records.
   */
  function ByDateReply(t: Tables, empId: string, dateWork: string, readDate: string -> Option<Date>)
    : (r: Reply<seq<TimesheetView>>)
    ensures r.status == 400 <==> empId == "" || dateWork == ""
    ensures r.status == 500 <==> empId != "" && dateWork != "" && readDate(dateWork).None?
    ensures r.status == 200 <==> empId != "" && dateWork != "" && readDate(dateWork).Some?
    ensures r.status == 200 ==> r.body == Payload(ByEmpAndDate(t, empId, readDate(dateWork).value))
    ensures r.status == 200 ==>
      && SortedBy(r.body.value, ByPosId)
      && forall v :: v in r.body.value ==> v.record.empId == empId && v.record.dateWork == readDate(dateWork).value
  {
    if empId == "" || dateWork == "" then Reply(400, ErrorMessage(DateRouteRequired))
    else match readDate(dateWork)
      case None => Reply(500, ErrorMessage(InternalServerError))
      case Some(d) => Reply(200, Payload(ByEmpAndDate(t, empId, d)))
  }

  /**
   * `GET /emp/:emp_id/month/:month`: 400 for an empty parameter, 400 for a
   * month not of the form `^\d{4}-\d{2}$` (before any query), 500 when the
   * store cannot read `${month}-01` as a date, otherwise 200 with the
   * employee's records of that month.
   */
  function ByMonthReply(t: Tables, empId: string, month: string): (r: Reply<seq<TimesheetView>>)
    ensures r.status == 400 <==> empId == "" || month == "" || !MatchesMonthPattern(month)
    ensures r.status == 500 <==> empId != "" && MatchesMonthPattern(month) && ParseMonth(month).None?
    ensures r.status == 200 <==> empId != "" && MatchesMonthPattern(month) && ParseMonth(month).Some?
    ensures r.status == 200 ==> r.body == Payload(ByEmpAndMonth(t, empId, ParseMonth(month).value))
    ensures r.status == 200 ==>
      && SortedBy(r.body.value, ByDateThenPosId)
      && forall v :: v in r.body.value ==> v.record.empId == empId && InMonth(v.record.dateWork, ParseMonth(month).value)
  {
    if empId == "" || month == "" then Reply(400, ErrorMessage(MonthRouteRequired))
    else if !MatchesMonthPattern(month) then Reply(400, ErrorMessage(MonthFormatError))
    else match ParseMonth(month)
      case None => Reply(500, ErrorMessage(InternalServerError))
      case Some(m) => Reply(200, Payload(ByEmpAndMonth(t, empId, m)))
  }

  /** "2025-13" gets past the month guard and fails in the store: the route answers 500, not 400. */
  lemma Month13IsServerError(t: Tables, empId: string)
    requires empId != ""
    ensures ByMonthReply(t, empId, "2025-13").status == 500
  {
    Month13PassesGuard();
  }
}
