// Calendar dates as the task types use them: ISO-8601 "yyyy-mm-dd" input
// (java.time.LocalDate.parse after a trim), ISO output (LocalDate.toString)
// for the save file, and the "MMM dd yyyy" display form.

module Dates {
  import opened Wrappers
  import opened JavaStrings

  datatype CalendarDate = CalendarDate(year: nat, month: nat, day: nat)

  /** Proleptic Gregorian leap years. */
  predicate IsLeap(y: nat)
  {
    y % 4 == 0 && (y % 100 != 0 || y % 400 == 0)
  }

  function DaysInMonth(y: nat, m: nat): (n: nat)
    ensures 28 <= n <= 31
    ensures n == 29 <==> m == 2 && IsLeap(y)
  {
    if m == 2 then (if IsLeap(y) then 29 else 28)
    else if m == 4 || m == 6 || m == 9 || m == 11 then 30
    else 31
  }

  /** A real day of a four-digit year. */
  predicate IsValid(d: CalendarDate)
  {
    d.year <= 9999 && 1 <= d.month <= 12 && 1 <= d.day <= DaysInMonth(d.year, d.month)
  }

  type Date = d: CalendarDate | IsValid(d) witness CalendarDate(1970, 1, 1)

  // ---------------------------------------------------------------- fixed-width digits

  function Pad2(n: nat): (r: string)
    requires n < 100
    ensures |r| == 2 && AllDigits(r)
    ensures DigitValue(r[0]) * 10 + DigitValue(r[1]) == n
  {
    [DigitChar(n / 10), DigitChar(n % 10)]
  }

  function Pad4(n: nat): (r: string)
    requires n < 10000
    ensures |r| == 4 && AllDigits(r)
    ensures Value4(r) == n
  {
    Digits4(n);
    [DigitChar(n / 1000), DigitChar(n / 100 % 10), DigitChar(n / 10 % 10), DigitChar(n % 10)]
  }

  lemma Digits4(n: nat)
    requires n < 10000
    ensures n / 1000 < 10
    ensures n == n / 1000 * 1000 + n / 100 % 10 * 100 + n / 10 % 10 * 10 + n % 10
  {
    var q1, q2, q3 := n / 10, n / 100, n / 1000;
    assert n == q1 * 10 + n % 10;
    assert q1 / 10 == q2;
    assert q1 == q2 * 10 + q1 % 10;
    assert q2 / 10 == q3;
    assert q2 == q3 * 10 + q2 % 10;
  }

  function Value2(s: string): nat
    requires |s| == 2 && AllDigits(s)
  {
    DigitValue(s[0]) * 10 + DigitValue(s[1])
  }

  function Value4(s: string): nat
    requires |s| == 4 && AllDigits(s)
  {
    DigitValue(s[0]) * 1000 + DigitValue(s[1]) * 100 + DigitValue(s[2]) * 10 + DigitValue(s[3])
  }

  /** Two digits are the only spelling of their value. */
  lemma Pad2Of(s: string)
    requires |s| == 2 && AllDigits(s)
    ensures Value2(s) < 100 && Pad2(Value2(s)) == s
  {
  }

  lemma Pad4Of(s: string)
    requires |s| == 4 && AllDigits(s)
    ensures Value4(s) < 10000 && Pad4(Value4(s)) == s
  {
    var n := Value4(s);
    var a, b, c, e := DigitValue(s[0]), DigitValue(s[1]), DigitValue(s[2]), DigitValue(s[3]);
    assert n == a * 1000 + b * 100 + c * 10 + e;
    assert n / 1000 == a;
    assert n / 100 == a * 10 + b;
    assert n / 10 == a * 100 + b * 10 + c;
    assert n / 100 % 10 == b;
    assert n / 10 % 10 == c;
    assert n % 10 == e;
    var p := Pad4(n);
    assert p[0] == s[0] && p[1] == s[1] && p[2] == s[2] && p[3] == s[3];
  }

  // ---------------------------------------------------------------- ISO form

  /** LocalDate.toString for a four-digit year: zero-padded "yyyy-mm-dd". */
  function Iso(d: Date): (r: string)
    ensures |r| == 10 && r[4] == '-' && r[7] == '-'
    ensures IsDigit(r[0]) && IsDigit(r[9])
  {
    Pad4(d.year) + "-" + Pad2(d.month) + "-" + Pad2(d.day)
  }

  /**
   * LocalDate.parse with the ISO_LOCAL_DATE format and strict resolution:
   * exactly four year digits, two month digits, two day digits, and a day
   * that exists in that month. Whatever it accepts is the ISO form of the
   * date it returns.
   */
  function ParseIso(s: string): (r: Option<Date>)
    ensures r.Some? ==> Iso(r.value) == s
  {
    if |s| == 10 && s[4] == '-' && s[7] == '-'
       && AllDigits(s[..4]) && AllDigits(s[5..7]) && AllDigits(s[8..])
    then
      var d := CalendarDate(Value4(s[..4]), Value2(s[5..7]), Value2(s[8..]));
      if IsValid(d) then
        Pad4Of(s[..4]);
        Pad2Of(s[5..7]);
        Pad2Of(s[8..]);
        assert s == s[..4] + "-" + s[5..7] + "-" + s[8..];
        Some(d)
      else None
    else None
  }

  /** Every date's ISO form parses back to that date. */
  lemma IsoRoundTrip(d: Date)
    ensures ParseIso(Iso(d)) == Some(d)
  {
    var s := Iso(d);
    assert s[..4] == Pad4(d.year);
    assert s[5..7] == Pad2(d.month);
    assert s[8..] == Pad2(d.day);
  }

  /** The ISO parser accepts a string exactly when it is the ISO form of some date. */
  lemma ParseIsoIff(s: string)
    ensures ParseIso(s).Some? <==> exists d: Date :: Iso(d) == s
  {
    if d: Date :| Iso(d) == s {
      IsoRoundTrip(d);
    }
  }

  /** DateParser.parseDate: surrounding spaces are trimmed before parsing. */
  function ParseDate(s: string): (r: Option<Date>)
    ensures r.Some? ==> Iso(r.value) == Trim(s)
  {
    ParseIso(Trim(s))
  }

  /** A saved date string, with or without padding, reads back as itself. */
  lemma ParseDatePadded(w1: string, d: Date, w2: string)
    requires AllTrimChars(w1) && AllTrimChars(w2)
    ensures ParseDate(w1 + Iso(d) + w2) == Some(d)
  {
    var s := Iso(d);
    assert !IsTrimChar(s[0]) && !IsTrimChar(s[|s| - 1]);
    TrimSurrounded(w1, s, w2);
    IsoRoundTrip(d);
  }

  lemma ParseDateIso(d: Date)
    ensures ParseDate(Iso(d)) == Some(d)
  {
    ParseDatePadded([], d, []);
    assert [] + Iso(d) + [] == Iso(d);
  }

  lemma IsoExample()
    ensures Iso(CalendarDate(2024, 5, 10)) == "2024-05-10"
  {
    assert Pad4(2024) == "2024";
    assert Pad2(5) == "05";
    assert Pad2(10) == "10";
  }

  // ---------------------------------------------------------------- display form

  function MonthAbbrev(m: nat): (r: string)
    requires 1 <= m <= 12
    ensures |r| == 3 && 'A' <= r[0] <= 'Z' && 'a' <= r[1] <= 'z' && 'a' <= r[2] <= 'z'
  {
    ["Jan", "Feb", "Mar", "Apr", "May", "Jun", "Jul", "Aug", "Sep", "Oct", "Nov", "Dec"][m - 1]
  }

  /** Reads a month abbreviation back; zero for anything else. */
  function MonthNumber(s: string): (m: nat)
    ensures m <= 12
  {
    if s == "Jan" then 1 else if s == "Feb" then 2 else if s == "Mar" then 3
    else if s == "Apr" then 4 else if s == "May" then 5 else if s == "Jun" then 6
    else if s == "Jul" then 7 else if s == "Aug" then 8 else if s == "Sep" then 9
    else if s == "Oct" then 10 else if s == "Nov" then 11 else if s == "Dec" then 12
    else 0
  }

  lemma MonthNumberOf(m: nat)
    requires 1 <= m <= 12
    ensures MonthNumber(MonthAbbrev(m)) == m
  {
  }

  /** Pattern letter 'y' is the year of era: proleptic year 0 is 1 BC. */
  function YearOfEra(y: nat): (r: nat)
    ensures 1 <= r && (y >= 1 ==> r == y)
  {
    if y == 0 then 1 else y
  }

  /** DateTimeFormatter "MMM dd yyyy" in an English locale. */
  function Display(d: Date): (r: string)
    ensures |r| == 11 && 'A' <= r[0] <= 'Z' && 'a' <= r[1] <= 'z' && 'a' <= r[2] <= 'z'
    ensures r[3] == ' ' && IsDigit(r[4]) && IsDigit(r[5]) && r[6] == ' '
    ensures AllDigits(r[7..])
  {
    MonthAbbrev(d.month) + " " + Pad2(d.day) + " " + Pad4(YearOfEra(d.year))
  }

  /** The display form loses nothing for years of the common era. */
  lemma DisplayInjective(a: Date, b: Date)
    requires a.year >= 1 && b.year >= 1
    requires Display(a) == Display(b)
    ensures a == b
  {
    var r := Display(a);
    assert r[..3] == MonthAbbrev(a.month) == MonthAbbrev(b.month);
    MonthNumberOf(a.month);
    MonthNumberOf(b.month);
    assert r[4..6] == Pad2(a.day) == Pad2(b.day);
    assert r[7..] == Pad4(a.year) == Pad4(b.year);
  }

  lemma DisplayExample()
    ensures Display(CalendarDate(2024, 3, 15)) == "Mar 15 2024"
  {
  }

  // ---------------------------------------------------------------- ordering

  /** LocalDate.isAfter: strictly later in the calendar. */
  predicate IsAfter(a: Date, b: Date)
  {
    a.year > b.year
    || (a.year == b.year && (a.month > b.month || (a.month == b.month && a.day > b.day)))
  }

  /** isAfter is a strict total order. */
  lemma IsAfterStrictTotal(a: Date, b: Date, c: Date)
    ensures !IsAfter(a, a)
    ensures IsAfter(a, b) ==> !IsAfter(b, a)
    ensures IsAfter(a, b) && IsAfter(b, c) ==> IsAfter(a, c)
    ensures a != b ==> IsAfter(a, b) || IsAfter(b, a)
  {
  }
}
