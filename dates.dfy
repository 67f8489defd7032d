/**
 * Calendar dates and the parse `datetime.strptime(p, "%Y-%m-%d").date()`
 * applied to the first ten characters of an article's `publishedAt`.
 */
module Dates {
  import opened Wrappers

  /** A value of Python's `datetime.date`. */
  datatype Date = Date(year: int, month: int, day: int)

  /** The Gregorian leap-year rule. */
  predicate IsLeapYear(y: int) {
    y % 4 == 0 && (y % 100 != 0 || y % 400 == 0)
  }

  /** The length of month `m` of year `y` in the Gregorian calendar. */
  function DaysInMonth(y: int, m: int): (n: int)
    requires 1 <= m <= 12
    ensures 28 <= n <= 31
    ensures m == 2 && IsLeapYear(y) ==> n == 29
    ensures m == 2 && !IsLeapYear(y) ==> n == 28
    ensures m in {4, 6, 9, 11} ==> n == 30
    ensures m in {1, 3, 5, 7, 8, 10, 12} ==> n == 31
  {
    if m == 2 then (if IsLeapYear(y) then 29 else 28)
    else if m == 4 || m == 6 || m == 9 || m == 11 then 30
    else 31
  }

  /** The dates `datetime.date` can represent: years 1 (MINYEAR) to 9999 (MAXYEAR). */
  predicate ValidDate(d: Date) {
    && 1 <= d.year <= 9999
    && 1 <= d.month <= 12
    && 1 <= d.day <= DaysInMonth(d.year, d.month)
  }

  predicate IsDigit(c: char) {
    '0' <= c <= '9'
  }

  function DigitValue(c: char): (v: int)
    requires IsDigit(c)
    ensures 0 <= v <= 9
  {
    c as int - '0' as int
  }

  function DigitChar(v: int): (c: char)
    requires 0 <= v <= 9
    ensures IsDigit(c) && DigitValue(c) == v
  {
    (v + '0' as int) as char
  }

  /** The `%Y` directive: exactly four digits. */
  function YearField(f: string): (r: Option<int>)
    ensures r.Some? <==> |f| == 4 && forall i :: 0 <= i < 4 ==> IsDigit(f[i])
    ensures r.Some? ==> 0 <= r.value <= 9999
  {
    if |f| == 4 && IsDigit(f[0]) && IsDigit(f[1]) && IsDigit(f[2]) && IsDigit(f[3]) then
      Some(1000 * DigitValue(f[0]) + 100 * DigitValue(f[1]) + 10 * DigitValue(f[2]) + DigitValue(f[3]))
    else
      None
  }

  /** The `%m` directive, whose pattern is `1[0-2]|0[1-9]|[1-9]`. */
  function MonthField(f: string): (r: Option<int>)
    ensures r.Some? ==> 1 <= r.value <= 12 && 1 <= |f| <= 2
  {
    if |f| == 1 && '1' <= f[0] <= '9' then Some(DigitValue(f[0]))
    else if |f| == 2 && f[0] == '1' && '0' <= f[1] <= '2' then Some(10 + DigitValue(f[1]))
    else if |f| == 2 && f[0] == '0' && '1' <= f[1] <= '9' then Some(DigitValue(f[1]))
    else None
  }

  /**
   * The `%d` directive, whose pattern is `3[01]|[12]\d|0[1-9]|[1-9]| [1-9]`:
   * a single digit may also be preceded by one space.
   */
  function DayField(f: string): (r: Option<int>)
    ensures r.Some? ==> 1 <= r.value <= 31 && 1 <= |f| <= 2
  {
    if |f| == 1 && '1' <= f[0] <= '9' then Some(DigitValue(f[0]))
    else if |f| == 2 && f[0] == '3' && '0' <= f[1] <= '1' then Some(30 + DigitValue(f[1]))
    else if |f| == 2 && '1' <= f[0] <= '2' && IsDigit(f[1]) then Some(10 * DigitValue(f[0]) + DigitValue(f[1]))
    else if |f| == 2 && f[0] == '0' && '1' <= f[1] <= '9' then Some(DigitValue(f[1]))
    else if |f| == 2 && f[0] == ' ' && '1' <= f[1] <= '9' then Some(DigitValue(f[1]))
    else None
  }

  /** The position of the first `c` in `s`. */
  function IndexOf(s: string, c: char): (r: Option<nat>)
    ensures r.Some? ==> r.value < |s| && s[r.value] == c && forall j :: 0 <= j < r.value ==> s[j] != c
    ensures r.None? ==> forall j :: 0 <= j < |s| ==> s[j] != c
  {
    if s == [] then None
    else if s[0] == c then Some(0)
    else match IndexOf(s[1..], c)
      case None => None
      case Some(k) => Some(k + 1)
  }

  /**
   * `datetime.strptime(s, "%Y-%m-%d").date()`, with `None` for the ValueError
   * it raises. The pattern is matched from the start and must consume all of
   * `s`; a month field holds no '-', so the month ends at the first '-' after
   * the year. The fields must then form a date `datetime.date` accepts.
   */
  function ParseDate(s: string): (r: Option<Date>)
    ensures r.Some? ==> ValidDate(r.value)
  {
    if |s| < 5 || s[4] != '-' then None
    else
      var rest := s[5..];
      match IndexOf(rest, '-')
      case None => None
      case Some(k) => FromFields(YearField(s[..4]), MonthField(rest[..k]), DayField(rest[k + 1..]))
  }

  /** The date the three fields name, if `datetime.date` accepts it. */
  function FromFields(year: Option<int>, month: Option<int>, day: Option<int>): (r: Option<Date>)
    requires month.Some? ==> 1 <= month.value <= 12
  {
    match (year, month, day)
    case (Some(y), Some(m), Some(d)) =>
      if 1 <= y && d <= DaysInMonth(y, m) then Some(Date(y, m, d)) else None
    case _ => None
  }

  /** A ten-character `YYYY-MM-DD`-shaped string is parsed field by field. */
  lemma ParseTenChars(s: string)
    requires |s| == 10 && s[4] == '-' && s[7] == '-' && s[5] != '-' && s[6] != '-'
    ensures ParseDate(s) == FromFields(YearField(s[..4]), MonthField(s[5..7]), DayField(s[8..]))
  {
    var rest := s[5..];
    assert rest[1..][1..] == rest[2..];
    assert IndexOf(rest, '-') == Some(2);
    assert rest[..2] == s[5..7] && rest[3..] == s[8..];
  }

  function Pad2(n: int): (s: string)
    requires 0 <= n <= 99
    ensures |s| == 2
  {
    [DigitChar(n / 10), DigitChar(n % 10)]
  }

  function Pad4(n: int): (s: string)
    requires 0 <= n <= 9999
    ensures |s| == 4
  {
    Pad2(n / 100) + Pad2(n % 100)
  }

  /** The ISO spelling `YYYY-MM-DD` of a date, as `date.isoformat()` writes it. */
  function Format(d: Date): (s: string)
    requires ValidDate(d)
    ensures |s| == 10 && s[4] == '-' && s[7] == '-'
  {
    Pad4(d.year) + "-" + Pad2(d.month) + "-" + Pad2(d.day)
  }

  lemma DivMod10(hi: int, lo: int)
    requires 0 <= lo < 10
    ensures (10 * hi + lo) / 10 == hi && (10 * hi + lo) % 10 == lo
  {
  }

  lemma DivMod100(hi: int, lo: int)
    requires 0 <= lo < 100
    ensures (100 * hi + lo) / 100 == hi && (100 * hi + lo) % 100 == lo
  {
  }

  lemma DigitRoundTrip(c: char)
    requires IsDigit(c)
    ensures DigitChar(DigitValue(c)) == c
  {
  }

  /** Two digits read as a number and written back with `Pad2` are the same two digits. */
  lemma Pad2Digits(c0: char, c1: char)
    requires IsDigit(c0) && IsDigit(c1)
    ensures Pad2(10 * DigitValue(c0) + DigitValue(c1)) == [c0, c1]
  {
    DivMod10(DigitValue(c0), DigitValue(c1));
    DigitRoundTrip(c0);
    DigitRoundTrip(c1);
  }

  lemma Pad2Value(n: int)
    requires 0 <= n <= 99
    ensures 10 * DigitValue(Pad2(n)[0]) + DigitValue(Pad2(n)[1]) == n
  {
  }

  lemma YearFieldPad4(y: int)
    requires 0 <= y <= 9999
    ensures YearField(Pad4(y)) == Some(y)
  {
    var hi, lo := y / 100, y % 100;
    assert y == 100 * hi + lo;
    Pad2Value(hi);
    Pad2Value(lo);
    var f := Pad4(y);
    assert f[..2] == Pad2(hi) && f[2..] == Pad2(lo);
    assert 1000 * DigitValue(f[0]) + 100 * DigitValue(f[1]) == 100 * hi;
  }

  /** Four digits read as a year and written back with `Pad4` are the same four digits. */
  lemma Pad4Digits(f: string)
    requires YearField(f).Some?
    ensures Pad4(YearField(f).value) == f
  {
    var hi := 10 * DigitValue(f[0]) + DigitValue(f[1]);
    var lo := 10 * DigitValue(f[2]) + DigitValue(f[3]);
    assert YearField(f).value == 100 * hi + lo;
    DivMod100(hi, lo);
    Pad2Digits(f[0], f[1]);
    Pad2Digits(f[2], f[3]);
  }

  /** Every ISO spelling of a valid date parses back to that date. */
  lemma ParseFormat(d: Date)
    requires ValidDate(d)
    ensures ParseDate(Format(d)) == Some(d)
  {
    var s := Format(d);
    YearFieldPad4(d.year);
    assert s[..4] == Pad4(d.year);
    var rest := s[5..];
    assert rest == Pad2(d.month) + "-" + Pad2(d.day);
    assert IndexOf(rest, '-') == Some(2);
    assert rest[..2] == Pad2(d.month);
    assert rest[3..] == Pad2(d.day);
  }

  /**
   * A ten-character prefix that parses is the ISO spelling of its date, except
   * that the day's leading zero may be written as a space.
   */
  lemma FormatParse(s: string)
    requires |s| == 10 && ParseDate(s).Some?
    ensures var d := ParseDate(s).value;
            Format(d) == if s[8] == ' ' then s[..8] + "0" + s[9..] else s
  {
    var d := ParseDate(s).value;
    var rest := s[5..];
    var k := IndexOf(rest, '-').value;
    assert |rest[..k]| + 1 + |rest[k + 1..]| == 5;
    assert k == 2;
    Pad4Digits(s[..4]);
    MonthFieldPad2(s[5..7]);
    var t := Format(d);
    if s[8] == ' ' {
      assert Pad2(d.day) == "0" + s[9..];
      assert t == s[..8] + "0" + s[9..];
    } else {
      DayFieldPad2(s[8..]);
      assert t == s;
    }
  }

  lemma MonthFieldPad2(f: string)
    requires |f| == 2 && MonthField(f).Some?
    ensures Pad2(MonthField(f).value) == f
  {
    Pad2Digits(f[0], f[1]);
  }

  lemma DayFieldPad2(f: string)
    requires |f| == 2 && f[0] != ' ' && DayField(f).Some?
    ensures Pad2(DayField(f).value) == f
  {
    Pad2Digits(f[0], f[1]);
  }
}
