/** The admin page's `formatDate` helper (public/scripts/admin.js). */
module ClientFormat {
  import opened Text

  /**
   * What `formatDate` receives: a falsy value, a string `new Date` cannot
   * read, or one it reads as the local date with the given
   * `getFullYear()`, `getMonth()` (0-based) and `getDate()`.
   */
  datatype DateInput =
    | Falsy
    | InvalidDate
    | Parsed(fullYear: int, monthIndex: nat, date: nat)

  /** `${day}-${month}-${year}`, day and 1-based month padded to two digits. */
  function FormatDate(input: DateInput): (r: string)
    ensures r == "" <==> input.Falsy?
  {
    match input
    case Falsy => ""
    case InvalidDate => "NaN-NaN-NaN"
    case Parsed(year, monthIndex, date) =>
      Pad2(date) + "-" + Pad2(monthIndex + 1) + "-" + IntToString(year)
  }

  /**
   * The rendering of a date decodes back to it: two digits of day, a dash,
   * two digits of the 1-based month, a dash, then the year.
   */
  lemma FormatDateDecodes(year: int, monthIndex: nat, date: nat)
    requires monthIndex < 12 && 1 <= date <= 31
    ensures var r := FormatDate(Parsed(year, monthIndex, date));
      && |r| >= 7 && r[2] == '-' && r[5] == '-'
      && AllDigits(r[..2]) && DecimalValue(r[..2]) == date
      && AllDigits(r[3..5]) && DecimalValue(r[3..5]) == monthIndex + 1
      && r[6..] == IntToString(year)
  {
    assert Pow10(2) == 100 by { assert Pow10(1) == 10; }
    PaddedValue(date, 2);
    PaddedValue(monthIndex + 1, 2);
    var a, b, c := Pad2(date), Pad2(monthIndex + 1), IntToString(year);
    var r := FormatDate(Parsed(year, monthIndex, date));
    assert r == a + "-" + b + "-" + c;
    Fields(a, b, c, '-');
    assert r[..2] == a && r[3..5] == b;
  }

  /** Where the parts of `a-b-c` sit when `a` and `b` have two characters. */
  lemma Fields(a: string, b: string, c: string, sep: char)
    requires |a| == 2 && |b| == 2
    ensures var r := a + [sep] + b + [sep] + c;
      |r| == 6 + |c| && r[..2] == a && r[2] == sep && r[3..5] == b && r[5] == sep && r[6..] == c
  {
  }

  /** January (`getMonth()` = 0) renders as month "01". */
  lemma JanuaryIsOne(year: int, date: nat)
    requires 1 <= date <= 31
    ensures FormatDate(Parsed(year, 0, date))[3..5] == "01"
  {
    assert Pow10(2) == 100 by { assert Pow10(1) == 10; }
    PaddedValue(date, 2);
    assert NatToString(1) == "1";
    assert Pad2(1) == "01";
    var a, c := Pad2(date), IntToString(year);
    var r := FormatDate(Parsed(year, 0, date));
    assert r == a + "-" + "01" + "-" + c;
    Fields(a, "01", c, '-');
  }
}
