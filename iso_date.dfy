/** Calendar dates in the complete extended form YYYY-MM-DD of section 4.1.2.2 of
    ISO 8601:2004, as accepted by java.time.LocalDate.parse (the ISO_LOCAL_DATE
    formatter with the strict resolver, proleptic Gregorian calendar).

    This model accepts only years written with exactly four digits, 0000 to 9999.
    LocalDate.parse also accepts signed years ("-0001-01-01", "+10000-01-01"); those
    inputs are rejected here. */
module IsoDate {

  import opened Common

  datatype Date = Date(year: nat, month: nat, day: nat)

  predicate IsLeapYear(y: nat) {
    y % 4 == 0 && (y % 100 != 0 || y % 400 == 0)
  }

  /** Month.length(leapYear) */
  function DaysInMonth(y: nat, m: nat): (n: nat)
    requires 1 <= m <= 12
    ensures 28 <= n <= 31
    ensures m == 2 ==> (n == 29 <==> IsLeapYear(y))
  {
    if m == 2 then (if IsLeapYear(y) then 29 else 28)
    else if m == 4 || m == 6 || m == 9 || m == 11 then 30
    else 31
  }

  /** A date the strict resolver accepts (restricted to four-digit years). */
  predicate ValidDate(d: Date) {
    d.year <= 9999 && 1 <= d.month <= 12 && 1 <= d.day <= DaysInMonth(d.year, d.month)
  }

  predicate IsDigit(c: char) {
    '0' <= c <= '9'
  }

  function DigitValue(c: char): (v: nat)
    requires IsDigit(c)
    ensures v < 10
  {
    c as int - '0' as int
  }

  function DigitChar(v: nat): (c: char)
    requires v < 10
    ensures IsDigit(c) && DigitValue(c) == v
  {
    ('0' as int + v) as char
  }

  predicate AllDigits(s: string) {
    forall i :: 0 <= i < |s| ==> IsDigit(s[i])
  }

  /** The text has the shape DDDD-DD-DD. */
  predicate HasDateShape(s: string) {
    |s| == 10 && s[4] == '-' && s[7] == '-' &&
    AllDigits(s[..4]) && AllDigits(s[5..7]) && AllDigits(s[8..])
  }

  function Number2(a: char, b: char): nat
    requires IsDigit(a) && IsDigit(b)
  {
    10 * DigitValue(a) + DigitValue(b)
  }

  function Number4(a: char, b: char, c: char, d: char): nat
    requires IsDigit(a) && IsDigit(b) && IsDigit(c) && IsDigit(d)
  {
    1000 * DigitValue(a) + 100 * DigitValue(b) + 10 * DigitValue(c) + DigitValue(d)
  }

  /** LocalDate.parse: None stands for the DateTimeParseException it throws. */
  function ParseDate(s: string): (r: Option<Date>)
    ensures r.Some? ==> ValidDate(r.value) && HasDateShape(s)
    ensures !HasDateShape(s) ==> r.None?
  {
    if !HasDateShape(s) then None
    else
      assert IsDigit(s[0]) && IsDigit(s[1]) && IsDigit(s[2]) && IsDigit(s[3]) by {
        assert forall i :: 0 <= i < 4 ==> s[..4][i] == s[i];
      }
      assert IsDigit(s[5]) && IsDigit(s[6]) by {
        assert s[5..7][0] == s[5] && s[5..7][1] == s[6];
      }
      assert IsDigit(s[8]) && IsDigit(s[9]) by {
        assert s[8..][0] == s[8] && s[8..][1] == s[9];
      }
      var d := Date(Number4(s[0], s[1], s[2], s[3]), Number2(s[5], s[6]), Number2(s[8], s[9]));
      if ValidDate(d) then Some(d) else None
  }

  /** LocalDate.toString for a four-digit year: the canonical YYYY-MM-DD text. */
  function FormatDate(d: Date): (s: string)
    requires d.year <= 9999 && d.month <= 99 && d.day <= 99
    ensures HasDateShape(s)
  {
    var y1 := d.year / 10;
    var y2 := y1 / 10;
    [DigitChar(y2 / 10), DigitChar(y2 % 10), DigitChar(y1 % 10), DigitChar(d.year % 10), '-',
     DigitChar(d.month / 10), DigitChar(d.month % 10), '-',
     DigitChar(d.day / 10), DigitChar(d.day % 10)]
  }

  /** Quotient and remainder by ten are fixed by one decimal step. */
  lemma DivModTen(x: nat, q: nat, r: nat)
    requires r < 10 && x == 10 * q + r
    ensures x / 10 == q && x % 10 == r
  {
  }

  /** Every valid date is accepted in its canonical text form. */
  lemma ParseFormat(d: Date)
    requires ValidDate(d)
    ensures ParseDate(FormatDate(d)) == Some(d)
  {
    var s := FormatDate(d);
    var y1 := d.year / 10;
    var y2 := y1 / 10;
    assert d.year == 10 * y1 + d.year % 10;
    assert y1 == 10 * y2 + y1 % 10;
    assert y2 == 10 * (y2 / 10) + y2 % 10;
    assert Number4(s[0], s[1], s[2], s[3]) == d.year;
    assert d.month == 10 * (d.month / 10) + d.month % 10;
    assert Number2(s[5], s[6]) == d.month;
    assert d.day == 10 * (d.day / 10) + d.day % 10;
    assert Number2(s[8], s[9]) == d.day;
  }

  /** An accepted text is the canonical form of the date it denotes, so the
      validator accepts exactly one spelling per date. */
  lemma FormatParse(s: string)
    requires ParseDate(s).Some?
    ensures FormatDate(ParseDate(s).value) == s
  {
    var d := ParseDate(s).value;
    assert forall i :: 0 <= i < 4 ==> s[..4][i] == s[i];
    assert s[5..7][0] == s[5] && s[5..7][1] == s[6];
    assert s[8..][0] == s[8] && s[8..][1] == s[9];
    var a, b, c, e := DigitValue(s[0]), DigitValue(s[1]), DigitValue(s[2]), DigitValue(s[3]);
    assert d.year == 10 * (100 * a + 10 * b + c) + e;
    DivModTen(d.year, 100 * a + 10 * b + c, e);
    DivModTen(100 * a + 10 * b + c, 10 * a + b, c);
    DivModTen(10 * a + b, a, b);
    DivModTen(d.month, DigitValue(s[5]), DigitValue(s[6]));
    DivModTen(d.day, DigitValue(s[8]), DigitValue(s[9]));
    var t := FormatDate(d);
    assert forall i :: 0 <= i < 10 ==> t[i] == s[i];
  }

  /** The strict resolver's calendar rules, on sample inputs. */
  lemma StrictResolverSamples()
    ensures ParseDate("2024-01-15") == Some(Date(2024, 1, 15))
    ensures ParseDate("2024-02-29").Some?
    ensures ParseDate("2023-02-29").None?
    ensures ParseDate("2024-04-31").None?
    ensures ParseDate("1900-02-29").None?
    ensures ParseDate("2000-02-29").Some?
    ensures ParseDate("15-01-2024").None?
  {
  }
}
