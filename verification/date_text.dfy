/** The text form of a birthday: parsing as `datetime.strptime(s, "%d.%m.%Y")`
    accepts it and formatting as `strftime("%d.%m.%Y")` renders it.

    Parsing follows the strptime patterns for the three directives, with ASCII
    digits only: a day is `3[01]|[12]d|0[1-9]|[1-9]| [1-9]`, a month is
    `1[0-2]|0[1-9]|[1-9]`, a year is exactly four digits, the fields are
    separated by '.', and nothing may follow the year. The parsed triple must
    then be a representable calendar date. */
module DateText {
  import opened Results
  import opened Text
  import opened Calendar

  /** Value of a two-character string of digits. */
  function TwoDigits(t: string): int
    requires |t| == 2 && IsDigit(t[0]) && IsDigit(t[1])
  {
    10 * DigitValue(t[0]) + DigitValue(t[1])
  }

  /** The `%d` field: 1..31 written with one digit, two digits, or a space and one digit. */
  function DayField(t: string): (r: Option<int>)
    ensures r.Some? ==> 1 <= r.value <= 31
  {
    if |t| == 1 && '1' <= t[0] <= '9' then Some(DigitValue(t[0]))
    else if |t| == 2 && t[0] == ' ' && '1' <= t[1] <= '9' then Some(DigitValue(t[1]))
    else if |t| == 2 && IsDigit(t[0]) && IsDigit(t[1]) && 1 <= TwoDigits(t) <= 31 then Some(TwoDigits(t))
    else None
  }

  /** The `%m` field: 1..12 written with one or two digits. */
  function MonthField(t: string): (r: Option<int>)
    ensures r.Some? ==> 1 <= r.value <= 12
  {
    if |t| == 1 && '1' <= t[0] <= '9' then Some(DigitValue(t[0]))
    else if |t| == 2 && IsDigit(t[0]) && IsDigit(t[1]) && 1 <= TwoDigits(t) <= 12 then Some(TwoDigits(t))
    else None
  }

  /** Value of a four-character string of digits. */
  function FourDigits(t: string): int
    requires |t| == 4 && AllDigits(t)
  {
    1000 * DigitValue(t[0]) + 100 * DigitValue(t[1]) + 10 * DigitValue(t[2]) + DigitValue(t[3])
  }

  /** The `%Y` field: exactly four digits. */
  function YearField(t: string): (r: Option<int>)
    ensures r.Some? ==> 0 <= r.value <= 9999
  {
    if |t| == 4 && AllDigits(t) then Some(FourDigits(t)) else None
  }

  /** `strptime(s, "%d.%m.%Y")`: the date `s` spells, or None where strptime raises ValueError. */
  function ParseDate(s: string): (r: Option<Date>)
    ensures r.Some? ==> ValidDate(r.value)
    ensures r.Some? ==> exists i, j :: 0 <= i < j < |s| && s[i] == '.' && s[j] == '.'
  {
    var i := IndexOf(s, '.');
    if i == |s| then None
    else
      var rest := s[i + 1..];
      var j := IndexOf(rest, '.');
      if j == |rest| then None
      else
        Assemble(DayField(s[..i]), MonthField(rest[..j]), YearField(rest[j + 1..]))
  }

  /** Builds the date from its three parsed fields; the calendar must accept it. */
  function Assemble(day: Option<int>, month: Option<int>, year: Option<int>): (r: Option<Date>)
    ensures r.Some? ==> ValidDate(r.value)
  {
    match (day, month, year)
    case (Some(d), Some(m), Some(y)) =>
      if ValidDate(Date(y, m, d)) then Some(Date(y, m, d)) else None
    case _ => None
  }

  /** A text with two dots, the first two fields free of dots, parses field by field. */
  lemma ParseFields(a: string, b: string, c: string)
    requires forall k :: 0 <= k < |a| ==> a[k] != '.'
    requires forall k :: 0 <= k < |b| ==> b[k] != '.'
    ensures ParseDate(a + "." + b + "." + c) == Assemble(DayField(a), MonthField(b), YearField(c))
  {
    var t := b + ['.'] + c;
    var s := a + ['.'] + t;
    assert a + "." + b + "." + c == s;
    SplitAtDot(a, t);
    SplitAtDot(b, c);
  }

  /** The first dot of `a + "." + t`, when `a` has none, splits it back into `a` and `t`. */
  lemma SplitAtDot(a: string, t: string)
    requires forall k :: 0 <= k < |a| ==> a[k] != '.'
    ensures var s := a + ['.'] + t;
      IndexOf(s, '.') == |a| && s[..|a|] == a && s[|a| + 1..] == t
  {
    IndexOfPrefix(a, '.', t);
    var s := a + ['.'] + t;
    assert s[..|a|] == a && s[|a| + 1..] == t;
  }

  /** Two digits, zero-padded. */
  function Pad2(n: int): (t: string)
    requires 0 <= n <= 99
    ensures |t| == 2 && IsDigit(t[0]) && IsDigit(t[1]) && TwoDigits(t) == n
  {
    [DigitChar(n / 10), DigitChar(n % 10)]
  }

  /** Four digits, zero-padded. */
  function Pad4(n: int): (t: string)
    requires 0 <= n <= 9999
    ensures |t| == 4 && AllDigits(t) && FourDigits(t) == n
  {
    var r1 := n % 1000;
    var r2 := r1 % 100;
    assert n == 1000 * (n / 1000) + r1;
    assert r1 == 100 * (r1 / 100) + r2;
    assert r2 == 10 * (r2 / 10) + r2 % 10;
    [DigitChar(n / 1000), DigitChar(r1 / 100), DigitChar(r2 / 10), DigitChar(r2 % 10)]
  }

  /** `strftime("%d.%m.%Y")` with every field zero-padded: two digits of day,
      two of month and four of year, separated by dots. */
  function FormatDate(d: Date): (s: string)
    requires ValidDate(d)
    ensures |s| == 10 && s[2] == '.' && s[5] == '.'
    ensures IsDigit(s[0]) && IsDigit(s[1]) && TwoDigits(s[..2]) == d.day
    ensures IsDigit(s[3]) && IsDigit(s[4]) && TwoDigits(s[3..5]) == d.month
    ensures AllDigits(s[6..]) && FourDigits(s[6..]) == d.year
  {
    Pad2(d.day) + "." + Pad2(d.month) + "." + Pad4(d.year)
  }

  /** Formatting a date and parsing the text back yields the same date. */
  lemma FormatParseRoundTrip(d: Date)
    requires ValidDate(d)
    ensures ParseDate(FormatDate(d)) == Some(d)
  {
    var dd, mm, yy := Pad2(d.day), Pad2(d.month), Pad4(d.year);
    ParseFields(dd, mm, yy);
    assert DayField(dd) == Some(d.day);
    assert MonthField(mm) == Some(d.month);
    assert YearField(yy) == Some(d.year);
  }

  /** The leap day parses in a leap year. */
  lemma LeapDayExample()
    ensures ParseDate("29.02.2024") == Some(Date(2024, 2, 29))
  {
    var s := "29.02.2024";
    assert s == "29" + "." + "02" + "." + "2024";
    ParseFields("29", "02", "2024");
    LeapDayFields();
  }

  lemma LeapDayFields()
    ensures Assemble(DayField("29"), MonthField("02"), YearField("2024")) == Some(Date(2024, 2, 29))
  {
    assert DayField("29") == Some(29);
    assert MonthField("02") == Some(2);
    assert YearField("2024") == Some(2024);
  }

  lemma ShortFields()
    ensures Assemble(DayField("1"), MonthField("6"), YearField("2024")) == Some(Date(2024, 6, 1))
  {
    assert DayField("1") == Some(1);
    assert MonthField("6") == Some(6);
    assert YearField("2024") == Some(2024);
  }

  /** The leap day is refused in a common year. */
  lemma CommonYearLeapDayExample()
    ensures ParseDate("29.02.2023") == None
  {
    var s := "29.02.2023";
    assert s == "29" + "." + "02" + "." + "2023";
    ParseFields("29", "02", "2023");
    CommonYearFields();
  }

  lemma CommonYearFields()
    ensures Assemble(DayField("29"), MonthField("02"), YearField("2023")) == None
  {
    assert DayField("29") == Some(29);
    assert MonthField("02") == Some(2);
    assert YearField("2023") == Some(2023);
    assert !IsLeap(2023);
  }

  /** A day the month does not have is refused. */
  lemma NonexistentDayExample()
    ensures ParseDate("31.04.2023") == None
  {
    var s := "31.04.2023";
    assert s == "31" + "." + "04" + "." + "2023";
    ParseFields("31", "04", "2023");
    NonexistentDayFields();
  }

  lemma NonexistentDayFields()
    ensures Assemble(DayField("31"), MonthField("04"), YearField("2023")) == None
  {
    assert DayField("31") == Some(31);
    assert MonthField("04") == Some(4);
    assert YearField("2023") == Some(2023);
  }

  /** Single-digit day and month fields are accepted. */
  lemma ShortFieldsExample()
    ensures ParseDate("1.6.2024") == Some(Date(2024, 6, 1))
  {
    var s := "1.6.2024";
    assert s == "1" + "." + "6" + "." + "2024";
    ParseFields("1", "6", "2024");
    ShortFields();
  }

  /** A two-digit year is refused. */
  lemma ShortYearExample()
    ensures ParseDate("15.06.24") == None
  {
    var s := "15.06.24";
    assert s == "15" + "." + "06" + "." + "24";
    ParseFields("15", "06", "24");
  }
}
