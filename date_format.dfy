/**
 * Model of `datetime.strptime(s, "%Y-%m-%d")`, the check behind the ledger's
 * date column (the format string is `DATE_FMT` in app/config.py).
 *
 * CPython turns the format into a regular expression
 *   (\d\d\d\d)-(1[0-2]|0[1-9]|[1-9])-(3[01]|[12]\d|0[1-9]|[1-9]| [1-9])
 * which must consume the whole string, and then builds a `datetime.date`,
 * which rejects year 0 and a day past the end of the month.
 */
module DateFormat {
  import opened Wrappers

  const MinYear: int := 1
  const MaxYear: int := 9999

  datatype Date = Date(year: int, month: int, day: int)

  predicate IsDigit(c: char) { '0' <= c <= '9' }

  /** `%Y`: exactly four decimal digits. */
  predicate YearToken(t: string) {
    |t| == 4 && forall i :: 0 <= i < 4 ==> IsDigit(t[i])
  }

  /** `%m`: `1[0-2]`, `0[1-9]` or `[1-9]`. */
  predicate MonthToken(t: string) {
    || (|t| == 1 && '1' <= t[0] <= '9')
    || (|t| == 2 && t[0] == '0' && '1' <= t[1] <= '9')
    || (|t| == 2 && t[0] == '1' && '0' <= t[1] <= '2')
  }

  /** `%d`: `3[01]`, `[12]\d`, `0[1-9]`, `[1-9]` or a blank followed by `[1-9]`. */
  predicate DayToken(t: string) {
    || (|t| == 1 && '1' <= t[0] <= '9')
    || (|t| == 2 && t[0] == '3' && '0' <= t[1] <= '1')
    || (|t| == 2 && '1' <= t[0] <= '2' && IsDigit(t[1]))
    || (|t| == 2 && t[0] == '0' && '1' <= t[1] <= '9')
    || (|t| == 2 && t[0] == ' ' && '1' <= t[1] <= '9')
  }

  function DigitValue(c: char): nat {
    if IsDigit(c) then c as int - '0' as int else 0
  }

  /** Decimal value of a token; the blank that `%d` admits counts as a zero. */
  function Number(t: string): nat {
    if t == [] then 0 else Number(t[..|t| - 1]) * 10 + DigitValue(t[|t| - 1])
  }

  predicate IsLeap(y: int) {
    y % 4 == 0 && (y % 100 != 0 || y % 400 == 0)
  }

  function DaysInMonth(y: int, m: int): int {
    if m == 2 then (if IsLeap(y) then 29 else 28)
    else if m == 4 || m == 6 || m == 9 || m == 11 then 30
    else 31
  }

  /** A day that `datetime.date` accepts. */
  predicate ValidDate(d: Date) {
    && MinYear <= d.year <= MaxYear
    && 1 <= d.month <= 12
    && 1 <= d.day <= DaysInMonth(d.year, d.month)
  }

  lemma Number1(t: string)
    requires |t| == 1
    ensures Number(t) == DigitValue(t[0])
  {
    assert t[..0] == [];
  }

  lemma Number2(t: string)
    requires |t| == 2
    ensures Number(t) == DigitValue(t[0]) * 10 + DigitValue(t[1])
  {
    Number1(t[..1]);
  }

  lemma Number4(t: string)
    requires |t| == 4
    ensures Number(t) == ((DigitValue(t[0]) * 10 + DigitValue(t[1])) * 10 + DigitValue(t[2])) * 10 + DigitValue(t[3])
  {
    Number2(t[..2]);
    assert t[..3][..2] == t[..2];
  }

  lemma TokenValues(y: string, m: string, t: string)
    requires YearToken(y) && MonthToken(m) && DayToken(t)
    ensures Number(y) <= MaxYear
    ensures 1 <= Number(m) <= 12
    ensures 1 <= Number(t) <= 31
  {
    Number4(y);
    if |m| == 1 { Number1(m); } else { Number2(m); }
    if |t| == 1 { Number1(t); } else { Number2(t); }
  }

  /** Position of the `-` after the month token inside the text that follows the year. */
  function MonthLength(rest: string): nat {
    if |rest| >= 2 && rest[1] == '-' then 1
    else if |rest| >= 3 && rest[2] == '-' then 2
    else 0
  }

  /** `datetime.strptime(s, "%Y-%m-%d")`: the parsed day, or None where it raises ValueError. */
  function Parse(s: string): (r: Option<Date>)
    ensures r.Some? ==> ValidDate(r.value) && 8 <= |s| <= 10
  {
    if |s| < 5 || !YearToken(s[..4]) || s[4] != '-' then None
    else
      var rest := s[5..];
      var n := MonthLength(rest);
      if n == 0 then None
      else
        var m, t := rest[..n], rest[n + 1..];
        if !MonthToken(m) || !DayToken(t) then None
        else
          TokenValues(s[..4], m, t);
          var d := Date(Number(s[..4]), Number(m), Number(t));
          if d.year < MinYear || d.day > DaysInMonth(d.year, d.month) then None else Some(d)
  }

  /** Every string of the regular expression's shape parses, exactly when its numbers form a real day. */
  lemma ParseShape(y: string, m: string, t: string)
    requires YearToken(y) && MonthToken(m) && DayToken(t)
    ensures var d := Date(Number(y), Number(m), Number(t));
            Parse(y + "-" + m + "-" + t) == if ValidDate(d) then Some(d) else None
  {
    ShapeFields(y, m, t);
    TokenValues(y, m, t);
  }

  /** Where `Parse` finds the three fields of a string of that shape. */
  lemma ShapeFields(y: string, m: string, t: string)
    requires |y| == 4 && MonthToken(m)
    ensures var s := y + "-" + m + "-" + t;
            && |s| >= 5 && s[..4] == y && s[4] == '-'
            && MonthLength(s[5..]) == |m|
            && s[5..][..|m|] == m && s[5..][|m| + 1..] == t
  {
    var s := y + "-" + m + "-" + t;
    assert s[5..] == m + "-" + t;
  }

  /** Conversely, whatever parses has that shape: year, `-`, month token, `-`, day token. */
  lemma ParseOnlyShape(s: string)
    requires Parse(s).Some?
    ensures YearToken(s[..4])
    ensures exists m, t | MonthToken(m) && DayToken(t) :: s == s[..4] + "-" + m + "-" + t
  {
    var rest := s[5..];
    var n := MonthLength(rest);
    var m, t := rest[..n], rest[n + 1..];
    assert rest == m + "-" + t;
    assert s == s[..4] + "-" + rest;
  }

  function Digit(n: nat): char
    requires n < 10
  {
    ('0' as int + n) as char
  }

  /** Four zero-padded digits, as `%Y` writes a year. */
  function Format4(n: nat): string
    requires n <= 9999
  {
    [Digit(n / 1000), Digit(n / 100 % 10), Digit(n / 10 % 10), Digit(n % 10)]
  }

  function Format2(n: nat): string
    requires n <= 99
  {
    [Digit(n / 10), Digit(n % 10)]
  }

  /**
   * `strftime("%Y-%m-%d")`: ten characters, dashes at positions 4 and 7, and
   * three fields that are tokens of the parse and read back as the date.
   */
  function FormatDate(d: Date): (s: string)
    requires ValidDate(d)
    ensures |s| == 10 && s[4] == '-' && s[7] == '-'
    ensures YearToken(s[..4]) && MonthToken(s[5..7]) && DayToken(s[8..])
    ensures Number(s[..4]) == d.year && Number(s[5..7]) == d.month && Number(s[8..]) == d.day
  {
    var y, m, t := Format4(d.year), Format2(d.month), Format2(d.day);
    Format4Value(d.year);
    Format2Value(d.month);
    Format2Value(d.day);
    JoinedFields(y, m, t);
    y + "-" + m + "-" + t
  }

  /** Where the three fields of a formatted date sit. */
  lemma JoinedFields(y: string, m: string, t: string)
    requires |y| == 4 && |m| == 2 && |t| == 2
    ensures var s := y + "-" + m + "-" + t;
            && |s| == 10 && s[4] == '-' && s[7] == '-'
            && s[..4] == y && s[5..7] == m && s[8..] == t
  {
  }

  lemma DigitRoundTrip(n: nat)
    requires n < 10
    ensures IsDigit(Digit(n)) && DigitValue(Digit(n)) == n
  {
  }

  lemma Format4Value(n: nat)
    requires n <= 9999
    ensures YearToken(Format4(n)) && Number(Format4(n)) == n
  {
    var a, b, c, d := n / 1000, n / 100 % 10, n / 10 % 10, n % 10;
    DigitRoundTrip(a);
    DigitRoundTrip(b);
    DigitRoundTrip(c);
    DigitRoundTrip(d);
    Number4(Format4(n));
    var q1, q2 := n / 10, n / 100;
    assert n == q1 * 10 + d;
    assert q1 / 10 == q2;
    assert q1 == q2 * 10 + c;
    assert q2 / 10 == a;
    assert q2 == a * 10 + b;
  }

  lemma Format2Value(n: nat)
    requires n <= 99
    ensures Number(Format2(n)) == n
  {
    DigitRoundTrip(n / 10);
    DigitRoundTrip(n % 10);
    Number2(Format2(n));
  }

  /** Parsing the formatted form of a real day gives that day back. */
  lemma ParseFormatRoundTrip(d: Date)
    requires ValidDate(d)
    ensures Parse(FormatDate(d)) == Some(d)
  {
    Format4Value(d.year);
    Format2Value(d.month);
    Format2Value(d.day);
    ParseShape(Format4(d.year), Format2(d.month), Format2(d.day));
  }

  /** February 29th parses exactly in Gregorian leap years. */
  lemma LeapDay(y: string)
    requires YearToken(y)
    ensures Parse(y + "-02-29").Some? <==> Number(y) >= MinYear && IsLeap(Number(y))
  {
    assert y + "-02-29" == y + "-" + "02" + "-" + "29";
    Number2("02");
    Number2("29");
    ParseShape(y, "02", "29");
  }

  lemma RejectsMonth13()
    ensures Parse("2025-13-01") == None
  {
  }

  lemma RejectsFebruary30()
    ensures Parse("2024-02-30") == None
  {
    var y, m, t := "2024", "02", "30";
    Number4(y);
    Number2(m);
    Number2(t);
    assert Number(m) == 2 && Number(t) == 30;
    ParseShape(y, m, t);
    assert y + "-" + m + "-" + t == "2024-02-30";
  }

  lemma RejectsYearZero()
    ensures Parse("0000-01-01") == None
  {
    var y, m, t := "0000", "01", "01";
    Number4(y);
    assert Number(y) == 0;
    ParseShape(y, m, t);
    assert y + "-" + m + "-" + t == "0000-01-01";
  }

  lemma RejectsCommonLeapDay()
    ensures Parse("2023-02-29") == None
  {
    var y := "2023";
    Number4(y);
    assert Number(y) == 2023 && !IsLeap(2023);
    LeapDay(y);
    assert y + "-02-29" == "2023-02-29";
  }

  /** The regular expression also admits a one-digit month and day. */
  lemma AcceptsOneDigitFields()
    ensures Parse("2025-8-1") == Some(Date(2025, 8, 1))
  {
    var y, m, t := "2025", "8", "1";
    Number4(y);
    Number1(m);
    Number1(t);
    assert Date(Number(y), Number(m), Number(t)) == Date(2025, 8, 1);
    ParseShape(y, m, t);
    assert y + "-" + m + "-" + t == "2025-8-1";
  }

  /** ... and a day padded with a blank instead of a zero. */
  lemma AcceptsBlankPaddedDay()
    ensures Parse("2025-08- 1") == Some(Date(2025, 8, 1))
  {
    var y, m, t := "2025", "08", " 1";
    Number4(y);
    Number2(m);
    Number2(t);
    assert Date(Number(y), Number(m), Number(t)) == Date(2025, 8, 1);
    ParseShape(y, m, t);
    assert y + "-" + m + "-" + t == "2025-08- 1";
  }
}
