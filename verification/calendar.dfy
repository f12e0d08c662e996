/**
 * Calendar dates as the store keeps them (a DATE column), the month
 * parameter of the report routes, the half-open month range the queries
 * filter on, and the `ru-RU` day.month.year rendering of the export.
 */
module Calendar {
  import opened Wrappers
  import opened Text

  /** A DATE value: year, month 1..12, day of month. */
  datatype Date = Date(year: int, month: nat, day: nat)

  /** A month named by a `YYYY-MM` parameter. */
  datatype Month = Month(year: int, month: nat)

  predicate DateLt(a: Date, b: Date) {
    a.year < b.year || (a.year == b.year && (a.month < b.month || (a.month == b.month && a.day < b.day)))
  }

  predicate DateLe(a: Date, b: Date) {
    DateLt(a, b) || a == b
  }

  lemma DateLtTransitive(a: Date, b: Date, c: Date)
    requires DateLt(a, b) && DateLt(b, c)
    ensures DateLt(a, c)
  {
  }

  lemma DateLtTrichotomy(a: Date, b: Date)
    ensures DateLt(a, b) || a == b || DateLt(b, a)
  {
  }

  predicate WellFormedDate(d: Date) {
    1 <= d.month <= 12 && 1 <= d.day
  }

  /** `${month}-01` as a date. */
  function FirstDay(m: Month): Date {
    Date(m.year, m.month, 1)
  }

  /** `${month}-01` + interval '1 month': the first day of the following month. */
  function FirstDayOfNextMonth(m: Month): Date {
    if m.month == 12 then Date(m.year + 1, 1, 1) else Date(m.year, m.month + 1, 1)
  }

  /** The range filter of the month queries: `first <= date_work < next month's first`. */
  predicate InMonth(d: Date, m: Month) {
    DateLe(FirstDay(m), d) && DateLt(d, FirstDayOfNextMonth(m))
  }

  /** The half-open range holds exactly the dates of that calendar month. */
  lemma InMonthIff(d: Date, m: Month)
    requires WellFormedDate(d) && 1 <= m.month <= 12
    ensures InMonth(d, m) <==> d.year == m.year && d.month == m.month
  {
  }

  // ---------------------------------------------------------------------------
  // The `^\d{4}-\d{2}$` guard and the store's reading of `${month}-01`
  // ---------------------------------------------------------------------------

  /** `/^\d{4}-\d{2}$/.test(s)`: four ASCII digits, a dash, two ASCII digits, nothing else. */
  predicate MatchesMonthPattern(s: string) {
    |s| == 7 && AllDigits(s[..4]) && s[4] == '-' && AllDigits(s[5..])
  }

  /**
   * The month the store reads from `${s}-01`::date. The store refuses a
   * month number outside 1..12 and the year 0000 (it raises an error).
   */
  function ParseMonth(s: string): (r: Option<Month>)
    requires MatchesMonthPattern(s)
    ensures r.Some? ==> 1 <= r.value.month <= 12 && 1 <= r.value.year <= 9999
  {
    var y := DecimalValue(s[..4]);
    var m := DecimalValue(s[5..]);
    assert y < 10000 by { DecimalBound(s[..4]); }
    if 1 <= m <= 12 && y >= 1 then Some(Month(y, m)) else None
  }

  lemma {:induction false} DecimalBound(s: string)
    requires AllDigits(s)
    ensures DecimalValue(s) < Pow10(|s|)
    decreases |s|
  {
    if s != [] {
      DecimalBound(s[..|s| - 1]);
    }
  }

  /** `YYYY-MM` for a month, zero-padded. */
  function MonthText(m: Month): string
    requires 1 <= m.year <= 9999 && 1 <= m.month <= 12
  {
    PadStart(NatToString(m.year), 4, '0') + "-" + Pad2(m.month)
  }

  /** Every month written `YYYY-MM` passes the guard and is read back as itself. */
  lemma MonthTextRoundTrip(m: Month)
    requires 1 <= m.year <= 9999 && 1 <= m.month <= 12
    ensures MatchesMonthPattern(MonthText(m))
    ensures ParseMonth(MonthText(m)) == Some(m)
  {
    MonthTextFields(m);
  }

  lemma MonthTextFields(m: Month)
    requires 1 <= m.year <= 9999 && 1 <= m.month <= 12
    ensures var t := MonthText(m);
      MatchesMonthPattern(t) && DecimalValue(t[..4]) == m.year && DecimalValue(t[5..]) == m.month
  {
    Pow10Small();
    PaddedValue(m.year, 4);
    PaddedValue(m.month, 2);
    var ys, ms := PadStart(NatToString(m.year), 4, '0'), Pad2(m.month);
    var t := MonthText(m);
    assert t == ys + "-" + ms;
    MonthFields(ys, ms);
  }

  lemma Pow10Small()
    ensures Pow10(2) == 100 && Pow10(4) == 10000
  {
    assert Pow10(1) == 10 && Pow10(2) == 100 && Pow10(3) == 1000;
  }

  lemma MonthFields(ys: string, ms: string)
    requires |ys| == 4 && |ms| == 2
    ensures var t := ys + "-" + ms; |t| == 7 && t[..4] == ys && t[4] == '-' && t[5..] == ms
  {
  }

  /** "2025-13" passes the guard, yet the store cannot read it as a month. */
  lemma Month13PassesGuard()
    ensures MatchesMonthPattern("2025-13")
    ensures ParseMonth("2025-13") == None
  {
    var s := "2025-13";
    assert s[5..] == "13";
    assert "13"[..1] == "1";
    assert DecimalValue("13") == 13;
  }

  // ---------------------------------------------------------------------------
  // `new Date(d).toLocaleDateString('ru-RU')`
  // ---------------------------------------------------------------------------

  /** Day and month zero-padded to two digits, dot-separated, then the year. */
  function RuDate(d: Date): (r: string)
    ensures |r| >= 7
  {
    Pad2(d.day) + "." + Pad2(d.month) + "." + IntToString(d.year)
  }
}
