/**
 * The timestamp layout of the archive, chrono's "%a %b %d %H:%M:%S %z %Y", as in
 * "Sat Mar 11 04:12:48 +0000 2023": reading it, writing it, and the UTC instant it denotes.
 *
 * The thirty characters fall into four pieces, read one after the other:
 *   "Sat Mar 11" (date, 10)  " 04:12:48" (clock, 9)  " +0000" (offset, 6)  " 2023" (year, 5)
 */
module TwitterDate {
  import opened Wrappers
  import opened Decimal
  import opened Calendar

  /** Why a timestamp string is rejected. */
  datatype DateError =
    | Malformed        // a separator, digit or name does not fit the layout, or the length is wrong
    | OutOfRange       // a field, or the offset, lies outside its range
    | WeekdayMismatch  // the weekday name disagrees with the date

  /** A UTC offset as written: sign, two-digit hours and two-digit minutes. */
  datatype Offset = Offset(negative: bool, hours: nat, minutes: nat)

  function OffsetSeconds(o: Offset): int {
    var magnitude := 3600 * o.hours + 60 * o.minutes;
    if o.negative then -magnitude else magnitude
  }

  /** Minutes below 60 and the whole offset strictly within one day, as a fixed offset must be. */
  predicate ValidOffset(o: Offset) {
    o.minutes < 60 && 3600 * o.hours + 60 * o.minutes < SecondsPerDay
  }

  /** The fields a timestamp string spells out: wall-clock date-time and offset. */
  datatype Stamp = Stamp(wall: DateTime, offset: Offset)

  const WeekdayNames: seq<string> := ["Mon", "Tue", "Wed", "Thu", "Fri", "Sat", "Sun"]
  const MonthNames: seq<string> :=
    ["Jan", "Feb", "Mar", "Apr", "May", "Jun", "Jul", "Aug", "Sep", "Oct", "Nov", "Dec"]

  /** Position of `s` in `names`, if it is there. */
  function IndexOf(names: seq<string>, s: string): (r: Option<nat>)
    ensures r.Some? ==> r.value < |names| && names[r.value] == s
    ensures r.None? ==> s !in names
  {
    if |names| == 0 then None
    else if names[0] == s then Some(0)
    else match IndexOf(names[1..], s)
      case None => None
      case Some(i) => Some(i + 1)
  }

  /** In a list without repeats, a name is found at its own position. */
  lemma {:induction false} IndexOfDistinct(names: seq<string>, i: nat)
    requires i < |names|
    requires forall a, b :: 0 <= a < b < |names| ==> names[a] != names[b]
    ensures IndexOf(names, names[i]) == Some(i)
  {
    if i > 0 {
      IndexOfDistinct(names[1..], i - 1);
    }
  }

  // ---------------------------------------------------------------------------
  // The four pieces
  // ---------------------------------------------------------------------------

  /** Weekday index, month index (0 = January) and day of "Www Mmm DD". */
  datatype DateFields = DateFields(weekday: nat, month: nat, day: nat)
  datatype ClockFields = ClockFields(hour: nat, minute: nat, second: nat)

  function ScanDate(p: string): (r: Option<DateFields>)
    requires |p| == 10
    ensures r.Some? ==> r.value.weekday < 7 && r.value.month < 12
  {
    var wd := IndexOf(WeekdayNames, p[..3]);
    var mo := IndexOf(MonthNames, p[4..7]);
    if p[3] != ' ' || p[7] != ' ' || !AllDigits(p[8..]) || wd.None? || mo.None? then None
    else Some(DateFields(wd.value, mo.value, Value(p[8..])))
  }

  function FormatDate(f: DateFields): string
    requires f.weekday < 7 && f.month < 12
  {
    WeekdayNames[f.weekday] + " " + MonthNames[f.month] + " " + Pad(f.day, 2)
  }

  function ScanClock(p: string): Option<ClockFields>
    requires |p| == 9
  {
    if p[0] != ' ' || p[3] != ':' || p[6] != ':' || !AllDigits(p[1..3]) || !AllDigits(p[4..6]) || !AllDigits(p[7..])
    then None
    else Some(ClockFields(Value(p[1..3]), Value(p[4..6]), Value(p[7..])))
  }

  function FormatClock(f: ClockFields): string {
    " " + Pad(f.hour, 2) + ":" + Pad(f.minute, 2) + ":" + Pad(f.second, 2)
  }

  function ScanOffset(p: string): Option<Offset>
    requires |p| == 6
  {
    if p[0] != ' ' || (p[1] != '+' && p[1] != '-') || !AllDigits(p[2..4]) || !AllDigits(p[4..]) then None
    else Some(Offset(p[1] == '-', Value(p[2..4]), Value(p[4..])))
  }

  function FormatOffset(o: Offset): string {
    " " + (if o.negative then "-" else "+") + Pad(o.hours, 2) + Pad(o.minutes, 2)
  }

  function ScanYear(p: string): (r: Option<nat>)
    requires |p| == 5
    ensures r.Some? ==> r.value <= 9999
  {
    if p[0] != ' ' || !AllDigits(p[1..]) then None
    else
      ValueBound(p[1..]);
      assert Pow10(4) == 10000;
      Some(Value(p[1..]))
  }

  function FormatYear(y: nat): string {
    " " + Pad(y, 4)
  }

  lemma WeekdayNamesDistinct()
    ensures forall i :: 0 <= i < |WeekdayNames| ==> |WeekdayNames[i]| == 3
    ensures forall a, b :: 0 <= a < b < |WeekdayNames| ==> WeekdayNames[a] != WeekdayNames[b]
  {
  }

  lemma MonthNamesDistinct()
    ensures forall i :: 0 <= i < |MonthNames| ==> |MonthNames[i]| == 3
    ensures forall a, b :: 0 <= a < b < |MonthNames| ==> MonthNames[a] != MonthNames[b]
  {
  }

  lemma WeekdayNameIndex(i: nat)
    requires i < 7
    ensures |WeekdayNames[i]| == 3 && IndexOf(WeekdayNames, WeekdayNames[i]) == Some(i)
  {
    WeekdayNamesDistinct();
    IndexOfDistinct(WeekdayNames, i);
  }

  lemma MonthNameIndex(i: nat)
    requires i < 12
    ensures |MonthNames[i]| == 3 && IndexOf(MonthNames, MonthNames[i]) == Some(i)
  {
    MonthNamesDistinct();
    IndexOfDistinct(MonthNames, i);
  }

  /** Where the three parts of "Www Mmm DD" sit. */
  lemma DateSlices(wd: string, mo: string, dd: string)
    requires |wd| == 3 && |mo| == 3 && |dd| == 2
    ensures var p := wd + " " + mo + " " + dd;
      && |p| == 10 && p[..3] == wd && p[3] == ' ' && p[4..7] == mo && p[7] == ' ' && p[8..] == dd
  {
  }

  lemma DatePiece(f: DateFields)
    requires f.weekday < 7 && f.month < 12 && f.day < 100
    ensures |FormatDate(f)| == 10 && ScanDate(FormatDate(f)) == Some(f)
  {
    assert Pow10(2) == 100;
    PadLength(f.day, 2);
    ValueOfPad(f.day, 2);
    WeekdayNameIndex(f.weekday);
    MonthNameIndex(f.month);
    DateSlices(WeekdayNames[f.weekday], MonthNames[f.month], Pad(f.day, 2));
  }

  lemma DatePieceBack(p: string)
    requires |p| == 10 && ScanDate(p).Some?
    ensures FormatDate(ScanDate(p).value) == p
  {
    PadOfValue(p[8..]);
    assert p == p[..3] + " " + p[4..7] + " " + p[8..];
  }

  lemma ClockPiece(f: ClockFields)
    requires f.hour < 100 && f.minute < 100 && f.second < 100
    ensures |FormatClock(f)| == 9 && ScanClock(FormatClock(f)) == Some(f)
  {
    assert Pow10(2) == 100;
    PadLength(f.hour, 2); PadLength(f.minute, 2); PadLength(f.second, 2);
    ValueOfPad(f.hour, 2); ValueOfPad(f.minute, 2); ValueOfPad(f.second, 2);
    var p := FormatClock(f);
    assert p[1..3] == Pad(f.hour, 2);
    assert p[4..6] == Pad(f.minute, 2);
    assert p[7..] == Pad(f.second, 2);
  }

  lemma ClockPieceBack(p: string)
    requires |p| == 9 && ScanClock(p).Some?
    ensures FormatClock(ScanClock(p).value) == p
  {
    PadOfValue(p[1..3]); PadOfValue(p[4..6]); PadOfValue(p[7..]);
    assert p == " " + p[1..3] + ":" + p[4..6] + ":" + p[7..];
  }

  lemma OffsetPiece(o: Offset)
    requires o.hours < 100 && o.minutes < 100
    ensures |FormatOffset(o)| == 6 && ScanOffset(FormatOffset(o)) == Some(o)
  {
    assert Pow10(2) == 100;
    PadLength(o.hours, 2); PadLength(o.minutes, 2);
    ValueOfPad(o.hours, 2); ValueOfPad(o.minutes, 2);
    var p := FormatOffset(o);
    assert p[2..4] == Pad(o.hours, 2);
    assert p[4..] == Pad(o.minutes, 2);
  }

  lemma OffsetPieceBack(p: string)
    requires |p| == 6 && ScanOffset(p).Some?
    ensures FormatOffset(ScanOffset(p).value) == p
  {
    PadOfValue(p[2..4]); PadOfValue(p[4..]);
    assert p == " " + [p[1]] + p[2..4] + p[4..];
  }

  lemma YearPiece(y: nat)
    requires y <= 9999
    ensures |FormatYear(y)| == 5 && ScanYear(FormatYear(y)) == Some(y)
  {
    assert Pow10(4) == 10000;
    PadLength(y, 4);
    ValueOfPad(y, 4);
    assert FormatYear(y)[1..] == Pad(y, 4);
  }

  lemma YearPieceBack(p: string)
    requires |p| == 5 && ScanYear(p).Some?
    ensures FormatYear(ScanYear(p).value) == p
  {
    PadOfValue(p[1..]);
    assert p == " " + p[1..];
  }

  // ---------------------------------------------------------------------------
  // The whole layout
  // ---------------------------------------------------------------------------

  /** What a string of the layout's shape spells out, before any range check. */
  datatype Fields = Fields(date: DateFields, clock: ClockFields, offset: Offset, year: nat)

  /** Splits a 30-character string into the four pieces; `None` when one does not fit its shape. */
  function ScanFields(s: string): (r: Option<Fields>)
    requires |s| == 30
    ensures r.Some? ==> r.value.date.weekday < 7 && r.value.date.month < 12 && r.value.year <= 9999
  {
    var date := ScanDate(s[..10]);
    var clock := ScanClock(s[10..19]);
    var offset := ScanOffset(s[19..25]);
    var year := ScanYear(s[25..]);
    if date.None? || clock.None? || offset.None? || year.None? then None
    else Some(Fields(date.value, clock.value, offset.value, year.value))
  }

  function RenderFields(f: Fields): string
    requires f.date.weekday < 7 && f.date.month < 12
  {
    FormatDate(f.date) + FormatClock(f.clock) + FormatOffset(f.offset) + FormatYear(f.year)
  }

  /** The wall clock the fields name (month indices count from 0). */
  function WallOf(f: Fields): DateTime {
    DateTime(f.year, f.date.month + 1, f.date.day, f.clock.hour, f.clock.minute, f.clock.second)
  }

  /**
   * The checks in chrono's order: the field ranges (offset minutes included), then the
   * weekday cross-check, then the offset's size of less than a day.
   */
  function CheckFields(f: Fields): (r: Result<Stamp, DateError>)
    ensures r.Success? <==> Valid(WallOf(f)) && ValidOffset(f.offset) && Weekday(WallOf(f)) == f.date.weekday
    ensures r.Success? ==> r.value == Stamp(WallOf(f), f.offset)
    ensures !Valid(WallOf(f)) || f.offset.minutes >= 60 ==> r == Failure(OutOfRange)
    ensures Valid(WallOf(f)) && f.offset.minutes < 60 && Weekday(WallOf(f)) != f.date.weekday ==>
      r == Failure(WeekdayMismatch)
    ensures Valid(WallOf(f)) && Weekday(WallOf(f)) == f.date.weekday && !ValidOffset(f.offset) ==>
      r == Failure(OutOfRange)
  {
    var wall := WallOf(f);
    if !Valid(wall) || f.offset.minutes >= 60 then Failure(OutOfRange)
    else if Weekday(wall) != f.date.weekday then Failure(WeekdayMismatch)
    else if !ValidOffset(f.offset) then Failure(OutOfRange)
    else Success(Stamp(wall, f.offset))
  }

  /**
   * Reads the fields of a timestamp string. Accepted are exactly the strings that fit the
   * layout, name an existing date and time with a weekday that agrees with it, and carry an
   * offset of less than a day with minutes below 60.
   */
  function ScanStamp(s: string): (r: Result<Stamp, DateError>)
    ensures r.Success? ==>
      && Valid(r.value.wall) && 0 <= r.value.wall.year <= 9999
      && ValidOffset(r.value.offset)
  {
    if |s| != 30 then Failure(Malformed)
    else match ScanFields(s)
      case None => Failure(Malformed)
      case Some(f) => CheckFields(f)
  }

  /** Fields whose numbers fit their digit counts are read back from their rendering. */
  lemma ScanOfRender(f: Fields)
    requires f.date.weekday < 7 && f.date.month < 12 && f.date.day < 100
    requires f.clock.hour < 100 && f.clock.minute < 100 && f.clock.second < 100
    requires f.offset.hours < 100 && f.offset.minutes < 100 && f.year <= 9999
    ensures |RenderFields(f)| == 30 && ScanFields(RenderFields(f)) == Some(f)
  {
    DatePiece(f.date);
    ClockPiece(f.clock);
    OffsetPiece(f.offset);
    YearPiece(f.year);
    var a, b, c, d := FormatDate(f.date), FormatClock(f.clock), FormatOffset(f.offset), FormatYear(f.year);
    var s := a + b + c + d;
    assert s[..10] == a && s[10..19] == b && s[19..25] == c && s[25..] == d;
  }

  /** A string of the layout's shape is the rendering of its fields. */
  lemma RenderOfScan(s: string)
    requires |s| == 30 && ScanFields(s).Some?
    ensures RenderFields(ScanFields(s).value) == s
  {
    DatePieceBack(s[..10]);
    ClockPieceBack(s[10..19]);
    OffsetPieceBack(s[19..25]);
    YearPieceBack(s[25..]);
    assert s == s[..10] + s[10..19] + s[19..25] + s[25..];
  }

  /** The fields a stamp is written with; the weekday is computed from the date. */
  function FieldsOf(st: Stamp): (f: Fields)
    requires Valid(st.wall) && st.wall.year >= 0
    ensures f.date.weekday < 7 && f.date.month < 12
  {
    var w := st.wall;
    Fields(DateFields(Weekday(w), w.month - 1, w.day), ClockFields(w.hour, w.minute, w.second), st.offset, w.year)
  }

  /** Writes a stamp in the layout. */
  function FormatStamp(st: Stamp): string
    requires Valid(st.wall) && st.wall.year >= 0
  {
    RenderFields(FieldsOf(st))
  }

  /** Every stamp the layout can express is read back from its rendering. */
  lemma ScanOfFormat(st: Stamp)
    requires Valid(st.wall) && 0 <= st.wall.year <= 9999 && ValidOffset(st.offset)
    ensures ScanStamp(FormatStamp(st)) == Success(st)
  {
    ScanOfRender(FieldsOf(st));
  }

  /** Every accepted string is the rendering of the stamp read from it: nothing is skipped or ignored. */
  lemma FormatOfScan(s: string)
    requires ScanStamp(s).Success?
    ensures FormatStamp(ScanStamp(s).value) == s
  {
    RenderOfScan(s);
  }

  /** Which error a string of the layout's shape draws is decided by its fields alone. */
  lemma ScanOfRenderedFields(f: Fields)
    requires f.date.weekday < 7 && f.date.month < 12 && f.date.day < 100
    requires f.clock.hour < 100 && f.clock.minute < 100 && f.clock.second < 100
    requires f.offset.hours < 100 && f.offset.minutes < 100 && f.year <= 9999
    ensures ScanStamp(RenderFields(f)) == CheckFields(f)
  {
    ScanOfRender(f);
  }

  /** A month abbreviation outside the table is rejected, whatever the rest says. */
  lemma UnknownMonthRejected(s: string)
    requires |s| == 30 && s[4..7] !in MonthNames
    ensures ScanStamp(s) == Failure(Malformed)
  {
    assert s[..10][4..7] == s[4..7];
  }

  /** A weekday abbreviation outside the table is rejected, whatever the rest says. */
  lemma UnknownWeekdayRejected(s: string)
    requires |s| == 30 && s[..3] !in WeekdayNames
    ensures ScanStamp(s) == Failure(Malformed)
  {
    assert s[..10][..3] == s[..3];
  }

  /**
   * `parse_twitter_date`: the instant a timestamp string denotes, in UTC. Its wall clock is
   * the written one moved back by the written offset.
   */
  function ParseTwitterDate(s: string): (r: Result<DateTime, DateError>)
    ensures r.Success? <==> ScanStamp(s).Success?
    ensures r.Failure? ==> r.error == ScanStamp(s).error
    ensures r.Success? ==>
      && Valid(r.value)
      && Seconds(r.value) == Seconds(ScanStamp(s).value.wall) - OffsetSeconds(ScanStamp(s).value.offset)
  {
    match ScanStamp(s)
    case Failure(e) => Failure(e)
    case Success(st) => Success(Shift(st.wall, -OffsetSeconds(st.offset)))
  }

  /** Parsing a rendered stamp gives its wall clock minus its offset. */
  lemma ParseOfFormat(st: Stamp)
    requires Valid(st.wall) && 0 <= st.wall.year <= 9999 && ValidOffset(st.offset)
    ensures ParseTwitterDate(FormatStamp(st)).Success?
    ensures Seconds(ParseTwitterDate(FormatStamp(st)).value) == Seconds(st.wall) - OffsetSeconds(st.offset)
  {
    ScanOfFormat(st);
  }

  /** The record a parse yields is the only valid one denoting its instant. */
  lemma ParseDeterminesRecord(s: string, t: DateTime)
    requires ScanStamp(s).Success? && Valid(t)
    requires Seconds(t) == Seconds(ScanStamp(s).value.wall) - OffsetSeconds(ScanStamp(s).value.offset)
    ensures ParseTwitterDate(s) == Success(t)
  {
    SecondsInjective(t, ParseTwitterDate(s).value);
  }

  /** With offset "+0000" the UTC record is the written one. */
  lemma ParseAtZeroOffset(s: string)
    requires ScanStamp(s).Success? && OffsetSeconds(ScanStamp(s).value.offset) == 0
    ensures ParseTwitterDate(s) == Success(ScanStamp(s).value.wall)
  {
    ParseDeterminesRecord(s, ScanStamp(s).value.wall);
  }

  /** The pieces shared by the examples below. */
  lemma ExamplePieces()
    ensures FormatDate(DateFields(5, 2, 11)) == "Sat Mar 11"
    ensures FormatOffset(Offset(false, 0, 0)) == " +0000"
    ensures FormatYear(2023) == " 2023"
  {
    PadTwo(11);
    PadTwo(0);
    assert Pad(2023, 4) == Pad(202, 3) + "3";
    assert Pad(202, 3) == Pad(20, 2) + "2";
    PadTwo(20);
  }

  lemma ClockExample(hour: nat)
    requires hour == 4 || hour == 24
    ensures FormatClock(ClockFields(hour, 12, 48)) == " " + Pad(hour, 2) + ":12:48"
    ensures Pad(4, 2) == "04" && Pad(24, 2) == "24"
  {
    PadTwo(4);
    PadTwo(24);
    PadTwo(12);
    PadTwo(48);
  }

  /** The rendering of 2023-03-11 04:12:48 at offset +0000. */
  lemma ExampleRendering(st: Stamp)
    requires st == Stamp(DateTime(2023, 3, 11, 4, 12, 48), Offset(false, 0, 0))
    ensures FormatStamp(st) == "Sat Mar 11 04:12:48 +0000 2023"
  {
    WeekdayExample(st.wall);
    var f := Fields(DateFields(5, 2, 11), ClockFields(4, 12, 48), Offset(false, 0, 0), 2023);
    assert FieldsOf(st) == f;
    ExamplePieces();
    ClockExample(4);
    ExampleText();
    assert RenderFields(f) == "Sat Mar 11" + " 04:12:48" + " +0000" + " 2023";
  }

  lemma ExampleText()
    ensures "Sat Mar 11 04:12:48 +0000 2023" == "Sat Mar 11" + " 04:12:48" + " +0000" + " 2023"
  {
  }

  /** 2023-03-11 was a Saturday. */
  lemma WeekdayExample(t: DateTime)
    requires t == DateTime(2023, 3, 11, 4, 12, 48)
    ensures Weekday(t) == 5
  {
    assert DaysBeforeYear(2023) == 19358;
    assert DaysBeforeMonth(2023, 3) == 59;
    assert DayNumber(t) == 19427;
  }

  lemma ParseExample(s: string)
    requires s == "Sat Mar 11 04:12:48 +0000 2023"
    ensures ParseTwitterDate(s) == Success(DateTime(2023, 3, 11, 4, 12, 48))
  {
    var st := Stamp(DateTime(2023, 3, 11, 4, 12, 48), Offset(false, 0, 0));
    ExampleRendering(st);
    ScanOfFormat(st);
    ParseAtZeroOffset(FormatStamp(st));
  }

  /** "Sat Mar 11 24:12:48 +0000 2023": hour 24. */
  lemma HourOutOfRangeRendering(f: Fields)
    requires f == Fields(DateFields(5, 2, 11), ClockFields(24, 12, 48), Offset(false, 0, 0), 2023)
    ensures RenderFields(f) == "Sat Mar 11 24:12:48 +0000 2023"
  {
    ExamplePieces();
    ClockExample(24);
  }

  lemma HourOutOfRangeExample(s: string)
    requires s == "Sat Mar 11 24:12:48 +0000 2023"
    ensures ParseTwitterDate(s) == Failure(OutOfRange)
  {
    var f := Fields(DateFields(5, 2, 11), ClockFields(24, 12, 48), Offset(false, 0, 0), 2023);
    HourOutOfRangeRendering(f);
    ScanOfRenderedFields(f);
  }

  /** "Fri Mar 11 04:12:48 +2400 2023": a wrong weekday is reported before a full-day offset. */
  lemma WeekdayBeforeOffsetRendering(f: Fields)
    requires f == Fields(DateFields(4, 2, 11), ClockFields(4, 12, 48), Offset(false, 24, 0), 2023)
    ensures RenderFields(f) == "Fri Mar 11 04:12:48 +2400 2023"
  {
    WeekdayBeforeOffsetPieces();
    ExamplePieces();
    ClockExample(4);
    WeekdayBeforeOffsetText();
    assert RenderFields(f) == "Fri Mar 11" + " 04:12:48" + " +2400" + " 2023";
  }

  lemma WeekdayBeforeOffsetPieces()
    ensures FormatDate(DateFields(4, 2, 11)) == "Fri Mar 11"
    ensures FormatOffset(Offset(false, 24, 0)) == " +2400"
  {
    PadTwo(11);
    PadTwo(24);
    PadTwo(0);
  }

  lemma WeekdayBeforeOffsetText()
    ensures "Fri Mar 11 04:12:48 +2400 2023" == "Fri Mar 11" + " 04:12:48" + " +2400" + " 2023"
  {
  }

  lemma WeekdayBeforeOffsetExample(s: string)
    requires s == "Fri Mar 11 04:12:48 +2400 2023"
    ensures ParseTwitterDate(s) == Failure(WeekdayMismatch)
  {
    var f := Fields(DateFields(4, 2, 11), ClockFields(4, 12, 48), Offset(false, 24, 0), 2023);
    WeekdayBeforeOffsetRendering(f);
    ScanOfRenderedFields(f);
    WeekdayExample(WallOf(f));
  }

  lemma MissingOffsetExample(s: string)
    requires s == "Sat Mar 11 04:12:48 2023"
    ensures ParseTwitterDate(s) == Failure(Malformed)
  {
  }

  lemma UnknownMonthExample(s: string)
    requires s == "Sat Foo 11 04:12:48 +0000 2023"
    ensures ParseTwitterDate(s) == Failure(Malformed)
  {
    UnknownMonthText();
    assert s[4..7] == "Foo";
    UnknownMonthRejected(s);
  }

  lemma UnknownMonthText()
    ensures "Sat Foo 11 04:12:48 +0000 2023" == "Sat " + "Foo" + " 11 04:12:48 +0000 2023"
  {
  }
}
