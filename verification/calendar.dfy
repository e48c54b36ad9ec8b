/** Calendar dates and times as plain records, and the strict `Y-m-d`
    validation of the alert command: a lenient parse (PHP's
    `date_create_from_format('Y-m-d', ...)`), which rolls out-of-range
    months and days over into the next ones, followed by a check that
    formatting the result back gives the input string. */
module Calendar {
  import opened Wrappers
  import opened Strings

  /** A PHP `DateTime`, reduced to its broken-down fields. */
  datatype DateTime = DateTime(year: int, month: int, day: int, hour: int, minute: int, second: int)

  /** The calendar-day part of a date-time. */
  datatype Ymd = Ymd(year: int, month: int, day: int)

  function DateOf(t: DateTime): Ymd {
    Ymd(t.year, t.month, t.day)
  }

  /** Proleptic Gregorian leap years. */
  predicate IsLeapYear(y: int) {
    y % 4 == 0 && (y % 100 != 0 || y % 400 == 0)
  }

  function DaysInMonth(y: int, m: int): (n: int)
    requires 1 <= m <= 12
    ensures 28 <= n <= 31
    ensures n == 29 <==> m == 2 && IsLeapYear(y)
  {
    if m == 2 then (if IsLeapYear(y) then 29 else 28)
    else if m == 4 || m == 6 || m == 9 || m == 11 then 30
    else 31
  }

  /** A real day of the Gregorian calendar. */
  predicate ValidYmd(d: Ymd) {
    1 <= d.month <= 12 && 1 <= d.day <= DaysInMonth(d.year, d.month)
  }

  /** Rolls a day count that lies outside its month into the neighbouring
      months: day 0 is the last day of the previous month, day 32 of a
      31-day month is the 1st of the next. */
  function RollDays(y: int, m: int, d: int): (r: Ymd)
    requires 1 <= m <= 12
    ensures ValidYmd(r)
    ensures ValidYmd(Ymd(y, m, d)) ==> r == Ymd(y, m, d)
    decreases if d < 1 then 1 else 0, if d < 1 then -d else d
  {
    if d < 1 then
      var py := if m == 1 then y - 1 else y;
      var pm := if m == 1 then 12 else m - 1;
      RollDays(py, pm, d + DaysInMonth(py, pm))
    else if d > DaysInMonth(y, m) then
      var ny := if m == 12 then y + 1 else y;
      var nm := if m == 12 then 1 else m + 1;
      RollDays(ny, nm, d - DaysInMonth(y, m))
    else Ymd(y, m, d)
  }

  /** The real date PHP makes of possibly out-of-range fields: months are
      rolled into years first, then days into months. */
  function Normalize(raw: Ymd): (r: Ymd)
    ensures ValidYmd(r)
    ensures ValidYmd(raw) ==> r == raw
  {
    var y := raw.year + (raw.month - 1) / 12;
    var m := (raw.month - 1) % 12 + 1;
    RollDays(y, m, raw.day)
  }

  /** The `Y` format: at least four digits, a minus sign before the year's
      magnitude for years before year 0. */
  function YearText(y: int): string {
    if y < 0 then "-" + PadZero(NatToString(-y), 4) else PadZero(NatToString(y), 4)
  }

  /** `format('Y-m-d')`: zero-padded year, month and day. */
  function FormatYmd(d: Ymd): string
    requires ValidYmd(d)
  {
    YearText(d.year) + "-" + PadZero(NatToString(d.month), 2) + "-" + PadZero(NatToString(d.day), 2)
  }

  /** The number of leading digits of `s`, reading at most `max`. */
  function LeadingDigits(s: string, max: nat): (k: nat)
    ensures k <= max && k <= |s|
    ensures AllDigits(s[..k])
    ensures k < max && k < |s| ==> !IsDigit(s[k])
  {
    if max == 0 || |s| == 0 || !IsDigit(s[0]) then 0
    else
      var k := 1 + LeadingDigits(s[1..], max - 1);
      assert s[..k] == [s[0]] + s[1..][..k - 1];
      k
  }

  /** Reads a number of one to `max` digits at the head of `s`; the rest of
      the string comes back with it. */
  function ReadNumber(s: string, max: nat): Option<(nat, string)> {
    var k := LeadingDigits(s, max);
    if k == 0 then None else Some((ValueOf(s[..k]), s[k..]))
  }

  /** Reads `-` followed by a one- or two-digit number. */
  function ReadDashNumber(s: string): Option<(nat, string)> {
    if |s| == 0 || s[0] != '-' then None else ReadNumber(s[1..], 2)
  }

  /** The fields read by the format `Y-m-d`: up to four year digits, up to
      two month digits, up to two day digits, literal dashes, and nothing
      after the day. The fields are not range-checked here. */
  function ParseYmd(s: string): Option<Ymd> {
    match ReadNumber(s, 4)
    case None => None
    case Some((y, r1)) =>
      match ReadDashNumber(r1)
      case None => None
      case Some((m, r2)) =>
        match ReadDashNumber(r2)
        case None => None
        case Some((d, r3)) =>
          if |r3| == 0 then Some(Ymd(y, m, d)) else None
  }

  /** `date_create_from_format('Y-m-d', s)`: `None` for text the format
      does not match; otherwise the normalised date, carrying the time of
      day of the clock reading `now` since the format sets no time. */
  function CreateFromFormat(s: string, now: DateTime): (r: Option<DateTime>)
    ensures r.Some? ==> ValidYmd(DateOf(r.value))
    ensures r.Some? ==> r.value.hour == now.hour && r.value.minute == now.minute && r.value.second == now.second
  {
    match ParseYmd(s)
    case None => None
    case Some(raw) =>
      var d := Normalize(raw);
      Some(DateTime(d.year, d.month, d.day, now.hour, now.minute, now.second))
  }

  /** The strict date check of the alert command: parse, then demand that
      formatting the parsed date reproduces the argument exactly. */
  function StrictDate(s: string, now: DateTime): (r: Option<DateTime>)
    ensures r.Some? ==> ValidYmd(DateOf(r.value))
  {
    var parsed := CreateFromFormat(s, now);
    if parsed.None? || FormatYmd(DateOf(parsed.value)) != s then None else parsed
  }

  /** `setTime(h, i)`: replaces the time of day, seconds become 0. */
  function SetTime(t: DateTime, h: int, i: int): (r: DateTime)
    ensures DateOf(r) == DateOf(t)
    ensures r.hour == h && r.minute == i && r.second == 0
  {
    t.(hour := h, minute := i, second := 0)
  }

  /** `setDate(y, m, d)`: the day is replaced and the time of day is kept.
      The record does not roll an out-of-range `d` over as PHP would; the
      alert command and the form only ever pass the day of a real date. */
  function SetDate(t: DateTime, d: Ymd): (r: DateTime)
    ensures DateOf(r) == d
    ensures r.hour == t.hour && r.minute == t.minute && r.second == t.second
  {
    DateTime(d.year, d.month, d.day, t.hour, t.minute, t.second)
  }

  // ---------------------------------------------------------------------
  // Shape of the canonical rendering

  lemma PaddedField(n: nat, width: nat)
    requires 1 <= width && n < Pow10(width)
    ensures |PadZero(NatToString(n), width)| == width
    ensures AllDigits(PadZero(NatToString(n), width))
    ensures ValueOf(PadZero(NatToString(n), width)) == n
  {
    NatToStringLength(n, width);
    ValueOfPadZero(NatToString(n), width);
    ValueOfNatToString(n);
  }

  lemma Pow10Values()
    ensures Pow10(2) == 100 && Pow10(4) == 10000
  {
    assert Pow10(1) == 10;
    assert Pow10(3) == 1000;
  }

  /** The positions of the three fields in `YYYY-MM-DD`. */
  lemma FieldSlices(a: string, b: string, c: string)
    requires |a| == 4 && |b| == 2 && |c| == 2
    ensures var s := a + "-" + b + "-" + c;
      |s| == 10 && s[..4] == a && s[4] == '-' && s[5..7] == b && s[7] == '-' && s[8..] == c
  {
  }

  /** A date of years 0 to 9999 renders as `DDDD-DD-DD`. */
  lemma FormatShape(d: Ymd)
    requires ValidYmd(d) && 0 <= d.year <= 9999
    ensures var s := FormatYmd(d);
      && |s| == 10 && s[4] == '-' && s[7] == '-'
      && AllDigits(s[..4]) && ValueOf(s[..4]) == d.year
      && AllDigits(s[5..7]) && ValueOf(s[5..7]) == d.month
      && AllDigits(s[8..]) && ValueOf(s[8..]) == d.day
  {
    Pow10Values();
    var ys := YearText(d.year);
    var ms := PadZero(NatToString(d.month), 2);
    var ds := PadZero(NatToString(d.day), 2);
    assert ys == PadZero(NatToString(d.year), 4);
    PaddedField(d.year, 4);
    PaddedField(d.month, 2);
    PaddedField(d.day, 2);
    FieldSlices(ys, ms, ds);
    assert FormatYmd(d) == ys + "-" + ms + "-" + ds;
  }

  lemma ReadWholeField(s: string, k: nat)
    requires 1 <= k <= |s| && AllDigits(s[..k])
    requires k == |s| || !IsDigit(s[k])
    ensures ReadNumber(s, k) == Some((ValueOf(s[..k]), s[k..]))
  {
  }

  /** Any string of the shape `DDDD-DD-DD` parses into its three numbers. */
  lemma ParseShape(s: string)
    requires |s| == 10 && s[4] == '-' && s[7] == '-'
    requires AllDigits(s[..4]) && AllDigits(s[5..7]) && AllDigits(s[8..])
    ensures ParseYmd(s) == Some(Ymd(ValueOf(s[..4]), ValueOf(s[5..7]), ValueOf(s[8..])))
  {
    ReadWholeField(s, 4);
    var r1 := s[4..];
    assert r1[1..] == s[5..];
    assert s[5..][..2] == s[5..7];
    ReadWholeField(s[5..], 2);
    var r2 := s[5..][2..];
    assert r2 == s[7..];
    assert r2[1..] == s[8..];
    ReadWholeField(s[8..], 2);
    assert s[8..][..2] == s[8..];
  }

  /** Parsing the canonical rendering of a date gives back its fields. */
  lemma ParseFormat(d: Ymd)
    requires ValidYmd(d) && 0 <= d.year <= 9999
    ensures ParseYmd(FormatYmd(d)) == Some(d)
  {
    FormatShape(d);
    ParseShape(FormatYmd(d));
  }

  /** A string the lenient parser reads never renders a year outside
      0..9999: such a year has a sign or a fifth digit where the parser
      wants the first dash. */
  lemma ParsedYearInRange(d: Ymd)
    requires ValidYmd(d)
    requires ParseYmd(FormatYmd(d)).Some?
    ensures 0 <= d.year <= 9999
  {
    if d.year > 9999 {
      NatToStringLength(d.year, 4);
    }
  }

  // ---------------------------------------------------------------------
  // The accepted strings are exactly the canonical renderings

  /** An accepted argument is the zero-padded `YYYY-MM-DD` rendering of
      the real date it was parsed into. */
  lemma AcceptedIsCanonical(s: string, now: DateTime)
    ensures StrictDate(s, now).Some? ==>
      var d := DateOf(StrictDate(s, now).value);
      ValidYmd(d) && 0 <= d.year <= 9999 && FormatYmd(d) == s
  {
    if StrictDate(s, now).Some? {
      ParsedYearInRange(DateOf(StrictDate(s, now).value));
    }
  }

  /** Every canonical rendering of a real date of years 0 to 9999 is
      accepted, and denotes that date. */
  lemma CanonicalIsAccepted(d: Ymd, now: DateTime)
    requires ValidYmd(d) && 0 <= d.year <= 9999
    ensures StrictDate(FormatYmd(d), now).Some?
    ensures DateOf(StrictDate(FormatYmd(d), now).value) == d
  {
    ParseFormat(d);
  }

  /** Accepted arguments are ten characters long. */
  lemma AcceptedLength(s: string, now: DateTime)
    ensures StrictDate(s, now).Some? ==> |s| == 10
  {
    if StrictDate(s, now).Some? {
      AcceptedIsCanonical(s, now);
      FormatShape(DateOf(StrictDate(s, now).value));
    }
  }

  lemma TwoDigitValue(s: string)
    requires |s| == 2 && AllDigits(s)
    ensures ValueOf(s) == 10 * DigitValue(s[0]) + DigitValue(s[1])
  {
    var h := s[..1];
    assert h[..0] == "";
    assert ValueOf(h) == DigitValue(s[0]);
  }

  /** A date whose day field the rollover changes fails the round trip. */
  lemma RolledDayRejected(s: string, now: DateTime, raw: Ymd)
    requires ParseYmd(s) == Some(raw)
    requires 0 <= Normalize(raw).year <= 9999
    requires |s| == 10 && AllDigits(s[8..]) && ValueOf(s[8..]) != Normalize(raw).day
    ensures StrictDate(s, now) == None
  {
    FormatShape(Normalize(raw));
  }

  lemma FebruaryThirtiethRolls()
    ensures Normalize(Ymd(2024, 2, 30)) == Ymd(2024, 3, 1)
  {
  }

  lemma ImpossibleDayFields()
    ensures ParseYmd("2024-02-30") == Some(Ymd(2024, 2, 30))
    ensures |"2024-02-30"| == 10 && AllDigits("2024-02-30"[8..]) && ValueOf("2024-02-30"[8..]) == 30
  {
    var s := "2024-02-30";
    assert ValueOf(s[5..7]) == 2 && ValueOf(s[8..]) == 30 by {
      TwoDigitValue(s[5..7]);
      TwoDigitValue(s[8..]);
    }
    assert ValueOf(s[..4]) == 2024 by {
      var y := s[..4];
      assert y == "2024" && y[..2] == "20" && y[2..] == "24";
      assert AllDigits(y);
      FourDigitValue(y);
      TwoDigitValue("20");
      TwoDigitValue("24");
    }
    ParseShape(s);
  }

  lemma FourDigitValue(s: string)
    requires |s| == 4 && AllDigits(s)
    ensures ValueOf(s) == 100 * ValueOf(s[..2]) + ValueOf(s[2..])
  {
    TwoDigitValue(s[..2]);
    TwoDigitValue(s[2..]);
    assert s[..3][..2] == s[..2];
  }

  /** "2024-02-30" has the right shape, but February has at most 29 days. */
  lemma RejectsImpossibleDay(now: DateTime)
    ensures StrictDate("2024-02-30", now) == None
  {
    ImpossibleDayFields();
    FebruaryThirtiethRolls();
    RolledDayRejected("2024-02-30", now, Ymd(2024, 2, 30));
  }

  /** "2024-3-5" names a real date but is not zero-padded. */
  lemma RejectsUnpadded(now: DateTime)
    ensures StrictDate("2024-3-5", now) == None
  {
    AcceptedLength("2024-3-5", now);
  }

  lemma YearTextExample()
    ensures YearText(2024) == "2024"
  {
    assert NatToString(2) == "2";
    assert NatToString(20) == "20";
    assert NatToString(202) == "202";
    assert NatToString(2024) == "2024";
  }

  lemma PadDigit(n: nat)
    requires n < 10
    ensures PadZero(NatToString(n), 2) == ['0', DigitChar(n)]
  {
  }

  lemma FormatExample()
    ensures FormatYmd(Ymd(2024, 3, 5)) == "2024-03-05"
  {
    YearTextExample();
    PadDigit(3);
    PadDigit(5);
    assert DigitChar(3) == '3' && DigitChar(5) == '5';
  }

  /** "2024-03-05" is accepted as the 5th of March 2024. */
  lemma AcceptsCanonical(now: DateTime)
    ensures StrictDate("2024-03-05", now).Some?
    ensures DateOf(StrictDate("2024-03-05", now).value) == Ymd(2024, 3, 5)
  {
    FormatExample();
    CanonicalIsAccepted(Ymd(2024, 3, 5), now);
  }
}
