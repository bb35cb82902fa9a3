/**
 * Calendar dates as the server scripts use them (Python's `datetime.date`):
 * validity, the proleptic Gregorian day number `toordinal()`, the ISO text form
 * `isoformat()`, and `datetime.strptime(s, "%Y-%m-%d")`.
 */
module Dates {
  import opened Wrappers

  datatype Date = Date(year: int, month: int, day: int)

  predicate IsLeap(y: int) {
    y % 4 == 0 && (y % 100 != 0 || y % 400 == 0)
  }

  function DaysInMonth(y: int, m: int): (n: int)
    requires 1 <= m <= 12
    ensures 28 <= n <= 31
  {
    if m == 2 then (if IsLeap(y) then 29 else 28)
    else if m == 4 || m == 6 || m == 9 || m == 11 then 30
    else 31
  }

  /** What `date(y, m, d)` accepts: years 1..9999, a real month and day. */
  predicate ValidDate(d: Date) {
    1 <= d.year <= 9999 && 1 <= d.month <= 12 && 1 <= d.day <= DaysInMonth(d.year, d.month)
  }

  /** Days in the months before `m` of a common year. */
  function DaysBeforeMonthCommon(m: int): int
    requires 1 <= m <= 12
  {
    [0, 31, 59, 90, 120, 151, 181, 212, 243, 273, 304, 334][m - 1]
  }

  function DaysBeforeYear(y: int): int
    requires y >= 1
  {
    var p := y - 1;
    p * 365 + p / 4 - p / 100 + p / 400
  }

  /** `date.toordinal()`: 1 for 0001-01-01. */
  function Ordinal(d: Date): (n: int)
    requires ValidDate(d)
    ensures n >= 1
  {
    DaysBeforeYear(d.year) + DaysBeforeMonthCommon(d.month)
    + (if d.month > 2 && IsLeap(d.year) then 1 else 0) + d.day
  }

  /** `(a - b).days` */
  function DaysBetween(a: Date, b: Date): int
    requires ValidDate(a) && ValidDate(b)
  {
    Ordinal(a) - Ordinal(b)
  }

  /** The calendar day after `d`. */
  function NextDay(d: Date): (e: Date)
    requires ValidDate(d)
    ensures e.year > d.year || (e.year == d.year && (e.month > d.month || (e.month == d.month && e.day == d.day + 1)))
  {
    if d.day < DaysInMonth(d.year, d.month) then Date(d.year, d.month, d.day + 1)
    else if d.month < 12 then Date(d.year, d.month + 1, 1)
    else Date(d.year + 1, 1, 1)
  }

  lemma DaysBeforeYearStep(y: int)
    requires y >= 1
    ensures DaysBeforeYear(y + 1) == DaysBeforeYear(y) + (if IsLeap(y) then 366 else 365)
  {
    var p := y - 1;
    assert y / 4 - p / 4 == if y % 4 == 0 then 1 else 0;
    assert y / 100 - p / 100 == if y % 100 == 0 then 1 else 0;
    assert y / 400 - p / 400 == if y % 400 == 0 then 1 else 0;
    assert y % 400 == 0 ==> y % 100 == 0;
    assert y % 100 == 0 ==> y % 4 == 0;
  }

  /** Consecutive calendar days have consecutive day numbers. */
  lemma OrdinalNextDay(d: Date)
    requires ValidDate(d) && d.year < 9999
    ensures ValidDate(NextDay(d))
    ensures Ordinal(NextDay(d)) == Ordinal(d) + 1
  {
    if d.day == DaysInMonth(d.year, d.month) && d.month == 12 {
      DaysBeforeYearStep(d.year);
    }
  }

  // ---------------------------------------------------------------------------
  // isoformat and strptime

  predicate IsAsciiDigit(c: char) {
    '0' <= c <= '9'
  }

  function DigitValue(c: char): int
    requires IsAsciiDigit(c)
  {
    c as int - '0' as int
  }

  function DigitChar(n: int): (c: char)
    requires 0 <= n <= 9
    ensures IsAsciiDigit(c) && DigitValue(c) == n
  {
    ('0' as int + n) as char
  }

  /** `n` written with exactly `width` digits, zero padded (`%0<width>d`). */
  function Padded(n: nat, width: nat): (s: string)
    ensures |s| == width && forall i :: 0 <= i < |s| ==> IsAsciiDigit(s[i])
  {
    if width == 0 then "" else Padded(n / 10, width - 1) + [DigitChar(n % 10)]
  }

  /** `date.isoformat()`: YYYY-MM-DD. */
  function IsoFormat(d: Date): (s: string)
    requires ValidDate(d)
    ensures |s| == 10 && s[4] == '-' && s[7] == '-'
    ensures forall i :: 0 <= i < 10 && i != 4 && i != 7 ==> IsAsciiDigit(s[i])
  {
    Padded(d.year, 4) + "-" + Padded(d.month, 2) + "-" + Padded(d.day, 2)
  }

  /** `%m`: the alternatives `1[0-2]`, `0[1-9]`, `[1-9]`, tried in that order.
      Returns the month and the number of characters it took. Trying them in
      order without backtracking gives the regex's result: an alternative that
      matched two characters leaves a digit next, which the `[1-9]` fallback
      would also leave, so falling back never lets the following `-` match. */
  function MatchMonth(s: string): (r: Option<(int, nat)>)
    ensures r.Some? ==> 1 <= r.value.0 <= 12 && 1 <= r.value.1 <= 2 && r.value.1 <= |s|
  {
    if |s| >= 2 && s[0] == '1' && '0' <= s[1] <= '2' then Some((10 + DigitValue(s[1]), 2))
    else if |s| >= 2 && s[0] == '0' && '1' <= s[1] <= '9' then Some((DigitValue(s[1]), 2))
    else if |s| >= 1 && '1' <= s[0] <= '9' then Some((DigitValue(s[0]), 1))
    else None
  }

  /** `%d`: the alternatives `3[01]`, `[12]\d`, `0[1-9]`, `[1-9]`, ` [1-9]`, tried
      in that order; `%d` ends the pattern, so the first that matches is the match. */
  function MatchDay(s: string): (r: Option<(int, nat)>)
    ensures r.Some? ==> 1 <= r.value.0 <= 31 && 1 <= r.value.1 <= 2 && r.value.1 <= |s|
  {
    if |s| >= 2 && s[0] == '3' && '0' <= s[1] <= '1' then Some((30 + DigitValue(s[1]), 2))
    else if |s| >= 2 && '1' <= s[0] <= '2' && IsAsciiDigit(s[1]) then Some((10 * DigitValue(s[0]) + DigitValue(s[1]), 2))
    else if |s| >= 2 && s[0] == '0' && '1' <= s[1] <= '9' then Some((DigitValue(s[1]), 2))
    else if |s| >= 1 && '1' <= s[0] <= '9' then Some((DigitValue(s[0]), 1))
    else if |s| >= 2 && s[0] == ' ' && '1' <= s[1] <= '9' then Some((DigitValue(s[1]), 2))
    else None
  }

  /** `datetime.strptime(s, "%Y-%m-%d").date()`, `None` where it raises
      `ValueError`: no match, unconverted data left over, or no such date. */
  function ParseIsoDate(s: string): (r: Option<Date>)
    ensures r.Some? ==> ValidDate(r.value)
  {
    if |s| < 5 || !(IsAsciiDigit(s[0]) && IsAsciiDigit(s[1]) && IsAsciiDigit(s[2]) && IsAsciiDigit(s[3])) || s[4] != '-' then None
    else
      var y := 1000 * DigitValue(s[0]) + 100 * DigitValue(s[1]) + 10 * DigitValue(s[2]) + DigitValue(s[3]);
      match MatchMonth(s[5..])
      case None => None
      case Some((m, ml)) =>
        var rest := s[5 + ml..];
        if |rest| == 0 || rest[0] != '-' then None
        else
          match MatchDay(rest[1..])
          case None => None
          case Some((d, dl)) =>
            if dl != |rest| - 1 then None   // "unconverted data remains"
            else if ValidDate(Date(y, m, d)) then Some(Date(y, m, d)) else None
  }

  lemma PaddedTwo(n: nat)
    requires n < 100
    ensures Padded(n, 2) == [DigitChar(n / 10), DigitChar(n % 10)]
  {
  }

  lemma PaddedFour(n: nat)
    requires n < 10000
    ensures var s := Padded(n, 4);
            1000 * DigitValue(s[0]) + 100 * DigitValue(s[1]) + 10 * DigitValue(s[2]) + DigitValue(s[3]) == n
  {
    var a := n / 10;
    var b := a / 10;
    var c := b / 10;
    assert Padded(n, 4) == Padded(a, 3) + [DigitChar(n % 10)];
    assert Padded(a, 3) == Padded(b, 2) + [DigitChar(a % 10)];
    PaddedTwo(b);
    assert c < 10;
    assert n == 10 * a + n % 10;
    assert a == 10 * b + a % 10;
    assert b == 10 * c + b % 10;
  }

  /** A year of this century is written starting with "20". */
  lemma IsoFormatCentury(d: Date)
    requires ValidDate(d) && 2000 <= d.year <= 2099
    ensures IsoFormat(d)[0] == '2' && IsoFormat(d)[1] == '0'
  {
    var a := d.year / 10;
    var b := a / 10;
    assert Padded(d.year, 4) == Padded(a, 3) + [DigitChar(d.year % 10)];
    assert Padded(a, 3) == Padded(b, 2) + [DigitChar(a % 10)];
    PaddedTwo(b);
    assert b / 10 == 2 && b % 10 == 0;
  }

  /** strptime reads back what isoformat writes. */
  lemma {:induction false} ParseIsoFormat(d: Date)
    requires ValidDate(d)
    ensures ParseIsoDate(IsoFormat(d)) == Some(d)
  {
    var s := IsoFormat(d);
    PaddedFour(d.year);
    PaddedTwo(d.month);
    PaddedTwo(d.day);
    assert s[..4] == Padded(d.year, 4);
    assert s[5..] == Padded(d.month, 2) + "-" + Padded(d.day, 2);
    assert MatchMonth(s[5..]) == Some((d.month, 2));
    assert s[7..] == "-" + Padded(d.day, 2);
    assert s[7..][1..] == Padded(d.day, 2);
  }
}
