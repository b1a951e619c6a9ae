/**
 * Creation dates. A date is an integer record; `ValidDate` is what Python's `datetime`
 * constructor accepts. `Strptime` is `datetime.strptime` restricted to the three formats
 * the parser tries, following the field patterns of Python 2.7's `_strptime`:
 * `%m` is `1[0-2]|0[1-9]|[1-9]`, `%d` is `3[01]|[12]\d|0[1-9]|[1-9]| [1-9]`, `%Y` is four
 * digits, `%H` is `2[0-3]|[01]\d|\d`, `%M` is `[0-5]\d|\d`, a space in the format matches
 * one or more whitespace characters, and the whole value must be consumed.
 */
module Dates {
  import opened Options
  import opened Strings

  datatype Date = Date(year: int, month: int, day: int, hour: int, minute: int)

  predicate IsLeapYear(year: int) {
    year % 4 == 0 && (year % 100 != 0 || year % 400 == 0)
  }

  function DaysInMonth(year: int, month: int): int
    requires 1 <= month <= 12
  {
    if month == 2 then (if IsLeapYear(year) then 29 else 28)
    else if month == 4 || month == 6 || month == 9 || month == 11 then 30
    else 31
  }

  /** The dates `datetime(year, month, day, hour, minute)` accepts. */
  predicate ValidDate(d: Date) {
    && 1 <= d.year <= 9999
    && 1 <= d.month <= 12
    && 1 <= d.day <= DaysInMonth(d.year, d.month)
    && 0 <= d.hour <= 23
    && 0 <= d.minute <= 59
  }

  /** The formats the parser tries, in the order it tries them. */
  datatype Format =
    | MonthDayYearHourMinute        // "%m/%d/%Y %H:%M"
    | MonthDayYearHourMinuteEpoch   // "%m/%d/%Y %H:%M:%s"
    | MonthDayYear                  // "%m/%d/%Y"

  const CreationDateFormats: seq<Format> := [MonthDayYearHourMinute, MonthDayYearHourMinuteEpoch, MonthDayYear]

  predicate AllDigits(s: string) {
    forall k :: 0 <= k < |s| ==> IsDigit(s[k])
  }

  /** Decimal value of a string of digits. */
  function Decimal(s: string): nat
    requires AllDigits(s)
  {
    if s == [] then 0 else 10 * Decimal(s[..|s| - 1]) + (s[|s| - 1] as int - '0' as int)
  }

  predicate MonthField(s: string) {
    && AllDigits(s)
    && (|| (|s| == 2 && s[0] == '1' && '0' <= s[1] <= '2')
        || (|s| == 2 && s[0] == '0' && '1' <= s[1] <= '9')
        || (|s| == 1 && '1' <= s[0] <= '9'))
  }

  predicate DayField(s: string) {
    || (|s| == 2 && s[0] == '3' && '0' <= s[1] <= '1')
    || (|s| == 2 && '1' <= s[0] <= '2' && IsDigit(s[1]))
    || (|s| == 2 && s[0] == '0' && '1' <= s[1] <= '9')
    || (|s| == 1 && '1' <= s[0] <= '9')
    || (|s| == 2 && s[0] == ' ' && '1' <= s[1] <= '9')
  }

  predicate YearField(s: string) {
    |s| == 4 && AllDigits(s)
  }

  predicate HourField(s: string) {
    && AllDigits(s)
    && (|| (|s| == 2 && s[0] == '2' && '0' <= s[1] <= '3')
        || (|s| == 2 && '0' <= s[0] <= '1' && IsDigit(s[1]))
        || (|s| == 1 && IsDigit(s[0])))
  }

  predicate MinuteField(s: string) {
    && AllDigits(s)
    && (|| (|s| == 2 && '0' <= s[0] <= '5' && IsDigit(s[1]))
        || (|s| == 1 && IsDigit(s[0])))
  }

  /** `int()` of a day field, which may carry one leading space. */
  function DayValue(s: string): nat
    requires DayField(s)
  {
    if s[0] == ' ' then Decimal(s[1..]) else Decimal(s)
  }

  /** `s` cut at the first `c`, without the `c`. */
  function SplitAt(s: string, c: char): (r: Option<(string, string)>)
    ensures r.Some? ==> c !in r.value.0 && s == r.value.0 + [c] + r.value.1
    ensures r.None? ==> c !in s
  {
    match IndexOf(s, c)
    case None => None
    case Some(i) =>
      assert s == s[..i] + [c] + s[i + 1..];
      Some((s[..i], s[i + 1..]))
  }

  /** A `%m/%d/%Y` value made of the fields `ms`, `ds` and `ys`. */
  function MonthDayYearText(ms: string, ds: string, ys: string): string {
    ms + "/" + ds + "/" + ys
  }

  /** The ` %H:%M` part of the first format: the whitespace `ws`, then `hs` and `mis`. */
  function HourMinuteText(ws: string, hs: string, mis: string): string {
    ws + hs + ":" + mis
  }

  /** A `%m/%d/%Y %H:%M` value. */
  function MonthDayYearHourMinuteText(ms: string, ds: string, ys: string, ws: string, hs: string, mis: string): string {
    MonthDayYearText(ms, ds, ys) + HourMinuteText(ws, hs, mis)
  }

  lemma MonthDayYearTextSplit(ms: string, ds: string, ys: string, tail: string)
    ensures MonthDayYearText(ms, ds, ys) + tail == ms + ['/'] + (ds + ['/'] + (ys + tail))
  {
  }

  lemma HourMinuteTextSplit(ws: string, hs: string, mis: string)
    ensures HourMinuteText(ws, hs, mis) == ws + (hs + [':'] + mis)
  {
  }

  /** What a space of the format matches: one or more whitespace characters. */
  predicate Blank(ws: string) {
    ws != [] && forall k :: 0 <= k < |ws| ==> IsSpace(ws[k])
  }

  /**
   * The common prefix `%m/%d/%Y`: the month, day and year fields, and the text after the
   * year. Month and day contain no `/`, so each ends at the next `/`.
   */
  function MonthDayYearFields(v: string): (r: Option<(string, string, string, string)>)
    ensures r.Some? ==> MonthField(r.value.0) && DayField(r.value.1) && YearField(r.value.2)
    ensures r.Some? ==> v == MonthDayYearText(r.value.0, r.value.1, r.value.2) + r.value.3
  {
    match SplitAt(v, '/')
    case None => None
    case Some((ms, r1)) =>
      if !MonthField(ms) then None
      else match SplitAt(r1, '/')
        case None => None
        case Some((ds, r2)) =>
          if !DayField(ds) || |r2| < 4 || !YearField(r2[..4]) then None
          else
            assert r2 == r2[..4] + r2[4..];
            MonthDayYearTextSplit(ms, ds, r2[..4], r2[4..]);
            Some((ms, ds, r2[..4], r2[4..]))
  }

  /** `datetime(...)` raises `ValueError` for a date outside the calendar. */
  function Checked(d: Date): (r: Option<Date>)
    ensures r.Some? ==> ValidDate(r.value) && r.value == d
    ensures ValidDate(d) ==> r == Some(d)
  {
    if ValidDate(d) then Some(d) else None
  }

  /** The date the fields stand for, with the time given separately. */
  function FieldsDate(ms: string, ds: string, ys: string, hour: int, minute: int): Date
    requires MonthField(ms) && DayField(ds) && YearField(ys)
  {
    Date(Decimal(ys), Decimal(ms), DayValue(ds), hour, minute)
  }

  /** `strptime(v, "%m/%d/%Y")`. */
  function ParseMonthDayYear(v: string): (r: Option<Date>)
    ensures r.Some? ==> ValidDate(r.value)
  {
    match MonthDayYearFields(v)
    case None => None
    case Some((ms, ds, ys, rest)) => if rest == "" then Checked(FieldsDate(ms, ds, ys, 0, 0)) else None
  }

  /** The ` %H:%M` tail of the first format: whitespace, an hour up to the first `:`, a minute. */
  function HourMinuteFields(rest: string): (r: Option<(string, string, string)>)
    ensures r.Some? ==> Blank(r.value.0) && HourField(r.value.1) && MinuteField(r.value.2)
    ensures r.Some? ==> rest == HourMinuteText(r.value.0, r.value.1, r.value.2)
  {
    var w := LeadingSpaces(rest);
    if w == 0 then None
    else match SplitAt(rest[w..], ':')
      case None => None
      case Some((hs, ms)) =>
        if HourField(hs) && MinuteField(ms) then
          assert rest == rest[..w] + (hs + [':'] + ms);
          HourMinuteTextSplit(rest[..w], hs, ms);
          Some((rest[..w], hs, ms))
        else None
  }

  /** `strptime(v, "%m/%d/%Y %H:%M")`. */
  function ParseMonthDayYearHourMinute(v: string): (r: Option<Date>)
    ensures r.Some? ==> ValidDate(r.value)
  {
    match MonthDayYearFields(v)
    case None => None
    case Some((ms, ds, ys, rest)) =>
      match HourMinuteFields(rest)
      case None => None
      case Some((_, hs, mis)) => Checked(FieldsDate(ms, ds, ys, Decimal(hs), Decimal(mis)))
  }

  /** `datetime.strptime(v, format)`; `None` stands for the `ValueError` it raises. */
  function Strptime(v: string, format: Format): (r: Option<Date>)
    ensures r.Some? ==> ValidDate(r.value)
    ensures format == MonthDayYearHourMinuteEpoch ==> r.None?
  {
    match format
    case MonthDayYear => ParseMonthDayYear(v)
    case MonthDayYearHourMinute => ParseMonthDayYearHourMinute(v)
    // `%s` is not a directive `_strptime` knows: it raises ValueError for every value.
    case MonthDayYearHourMinuteEpoch => None
  }

  /** The first success in a list of outcomes. */
  function FirstSome(results: seq<Option<Date>>): (r: Option<Date>)
    ensures r.None? <==> forall k :: 0 <= k < |results| ==> results[k].None?
    ensures r.Some? ==> r in results
    ensures forall k :: && 0 <= k < |results| && results[k].Some?
                        && (forall j :: 0 <= j < k ==> results[j].None?)
                        ==> r == results[k]
  {
    if results == [] then None
    else if results[0].Some? then results[0]
    else
      var rest := results[1..];
      assert forall k :: 0 <= k < |rest| ==> rest[k] == results[k + 1];
      FirstSome(rest)
  }

  /**
   * The first format of `formats` under which `v` parses: `None` exactly when every format
   * fails, and otherwise the date of the first format that succeeds.
   */
  function FirstParse(v: string, formats: seq<Format>): (r: Option<Date>)
    ensures r.Some? ==> ValidDate(r.value)
    ensures r.None? <==> forall k :: 0 <= k < |formats| ==> Strptime(v, formats[k]).None?
    ensures forall k :: && 0 <= k < |formats| && Strptime(v, formats[k]).Some?
                        && (forall j :: 0 <= j < k ==> Strptime(v, formats[j]).None?)
                        ==> r == Strptime(v, formats[k])
  {
    var attempts := Attempts(v, formats);
    assert forall k :: 0 <= k < |formats| ==> attempts[k] == Strptime(v, formats[k]);
    FirstSome(attempts)
  }

  /** The outcome of `strptime` under each format in turn. */
  function Attempts(v: string, formats: seq<Format>): (r: seq<Option<Date>>)
    ensures |r| == |formats|
    ensures forall k :: 0 <= k < |r| ==> r[k] == Strptime(v, formats[k])
  {
    if formats == [] then [] else [Strptime(v, formats[0])] + Attempts(v, formats[1..])
  }

  // ----- The zero-padded spelling "MM/DD/YYYY HH:MM" of the first format -----

  function DigitChar(n: nat): char
    requires n < 10
  {
    ('0' as int + n) as char
  }

  function Pad2(n: nat): string
    requires n < 100
  {
    [DigitChar(n / 10), DigitChar(n % 10)]
  }

  function Pad4(n: nat): string
    requires n < 10000
  {
    Pad2(n / 100) + Pad2(n % 100)
  }

  /** A valid date written as `%m/%d/%Y %H:%M` with every field zero-padded. */
  function FormatDate(d: Date): string
    requires ValidDate(d)
  {
    Pad2(d.month) + "/" + Pad2(d.day) + "/" + Pad4(d.year) + " " + Pad2(d.hour) + ":" + Pad2(d.minute)
  }

  /** A number below 100 written without a leading zero. */
  function Unpadded(n: nat): string
    requires n < 100
  {
    if n < 10 then [DigitChar(n)] else Pad2(n)
  }

  /** A valid date written as `%m/%d/%Y %H:%M` with no leading zeros, as in `8/13/2012 9:05`. */
  function FormatDateUnpadded(d: Date): string
    requires ValidDate(d)
  {
    MonthDayYearHourMinuteText(Unpadded(d.month), Unpadded(d.day), Pad4(d.year), " ", Unpadded(d.hour), Unpadded(d.minute))
  }

  /** A valid day written as `%m/%d/%Y`, zero-padded. */
  function FormatDay(d: Date): string
    requires ValidDate(d)
  {
    MonthDayYearText(Pad2(d.month), Pad2(d.day), Pad4(d.year))
  }

  /** A formatted date starts with a digit and is made of digits, `/`, ` ` and `:` only. */
  lemma FormatDateCharacters(d: Date)
    requires ValidDate(d)
    ensures var s := FormatDate(d);
            && s != [] && IsDigit(s[0])
            && forall k :: 0 <= k < |s| ==> IsDigit(s[k]) || s[k] in "/ :"
  {
    var s := FormatDate(d);
    assert s[0] == DigitChar(d.month / 10);
    forall k | 0 <= k < |s|
      ensures IsDigit(s[k]) || s[k] in "/ :"
    {
    }
  }

  lemma DecimalPad2(n: nat)
    requires n < 100
    ensures AllDigits(Pad2(n)) && Decimal(Pad2(n)) == n
  {
    var s := Pad2(n);
    assert s[..1] == [DigitChar(n / 10)];
    assert s[..1][..0] == [];
    assert Decimal(s[..1]) == n / 10;
    assert Decimal(s) == 10 * (n / 10) + n % 10;
  }

  lemma DecimalPad4(n: nat)
    requires n < 10000
    ensures AllDigits(Pad4(n)) && Decimal(Pad4(n)) == n
  {
    var s := Pad4(n);
    var hi, lo := n / 100, n % 100;
    DecimalPad2(hi);
    assert s[..3] == Pad2(hi) + [DigitChar(lo / 10)];
    assert s[..3][..2] == Pad2(hi);
  }

  lemma PaddedFields(d: Date)
    requires ValidDate(d)
    ensures MonthField(Pad2(d.month)) && DayField(Pad2(d.day)) && YearField(Pad4(d.year))
    ensures HourField(Pad2(d.hour)) && MinuteField(Pad2(d.minute))
    ensures Decimal(Pad2(d.month)) == d.month && DayValue(Pad2(d.day)) == d.day
    ensures Decimal(Pad4(d.year)) == d.year
    ensures Decimal(Pad2(d.hour)) == d.hour && Decimal(Pad2(d.minute)) == d.minute
  {
    PaddedMonthDay(d.month, d.day);
    DecimalPad4(d.year);
    PaddedHourMinute(d.hour, d.minute);
  }

  lemma PaddedMonthDay(month: int, day: int)
    requires 1 <= month <= 12 && 1 <= day <= 31
    ensures MonthField(Pad2(month)) && DayField(Pad2(day))
    ensures Decimal(Pad2(month)) == month && DayValue(Pad2(day)) == day
  {
    DecimalPad2(month);
    DecimalPad2(day);
  }

  lemma PaddedHourMinute(hour: int, minute: int)
    requires 0 <= hour <= 23 && 0 <= minute <= 59
    ensures HourField(Pad2(hour)) && MinuteField(Pad2(minute))
    ensures Decimal(Pad2(hour)) == hour && Decimal(Pad2(minute)) == minute
  {
    DecimalPad2(hour);
    DecimalPad2(minute);
  }

  /**
   * Every valid date, written zero-padded in the first format, is read back exactly by the
   * first format: the parser accepts everything the `%m/%d/%Y %H:%M` spelling can produce.
   */
  lemma FormatDateRoundTrip(d: Date)
    requires ValidDate(d)
    ensures Strptime(FormatDate(d), MonthDayYearHourMinute) == Some(d)
  {
    var ms, ds, ys, hs, mis := Pad2(d.month), Pad2(d.day), Pad4(d.year), Pad2(d.hour), Pad2(d.minute);
    PaddedFields(d);
    assert FormatDate(d) == MonthDayYearHourMinuteText(ms, ds, ys, " ", hs, mis);
    StrptimeMonthDayYearHourMinuteOf(ms, ds, ys, " ", hs, mis);
  }

  lemma DecimalUnpadded(n: nat)
    requires n < 100
    ensures AllDigits(Unpadded(n)) && Decimal(Unpadded(n)) == n
  {
    if n < 10 {
      assert Unpadded(n)[..0] == [];
    } else {
      DecimalPad2(n);
    }
  }

  lemma UnpaddedFields(d: Date)
    requires ValidDate(d)
    ensures MonthField(Unpadded(d.month)) && DayField(Unpadded(d.day))
    ensures HourField(Unpadded(d.hour)) && MinuteField(Unpadded(d.minute))
    ensures Decimal(Unpadded(d.month)) == d.month && DayValue(Unpadded(d.day)) == d.day
    ensures Decimal(Unpadded(d.hour)) == d.hour && Decimal(Unpadded(d.minute)) == d.minute
  {
    UnpaddedMonthDay(d.month, d.day);
    UnpaddedHourMinute(d.hour, d.minute);
  }

  lemma UnpaddedMonthDay(month: int, day: int)
    requires 1 <= month <= 12 && 1 <= day <= 31
    ensures MonthField(Unpadded(month)) && DayField(Unpadded(day))
    ensures Decimal(Unpadded(month)) == month && DayValue(Unpadded(day)) == day
  {
    DecimalUnpadded(month);
    DecimalUnpadded(day);
  }

  lemma UnpaddedHourMinute(hour: int, minute: int)
    requires 0 <= hour <= 23 && 0 <= minute <= 59
    ensures HourField(Unpadded(hour)) && MinuteField(Unpadded(minute))
    ensures Decimal(Unpadded(hour)) == hour && Decimal(Unpadded(minute)) == minute
  {
    DecimalUnpadded(hour);
    DecimalUnpadded(minute);
  }

  /**
   * Leading zeros are optional: every valid date written without them in the first format
   * is read back exactly.
   */
  lemma FormatDateUnpaddedRoundTrip(d: Date)
    requires ValidDate(d)
    ensures Strptime(FormatDateUnpadded(d), MonthDayYearHourMinute) == Some(d)
  {
    PaddedFields(d);
    UnpaddedFields(d);
    StrptimeMonthDayYearHourMinuteOf(Unpadded(d.month), Unpadded(d.day), Pad4(d.year), " ", Unpadded(d.hour), Unpadded(d.minute));
  }

  /** Every valid day at midnight, written as `%m/%d/%Y`, is read back exactly by that format. */
  lemma FormatDayRoundTrip(d: Date)
    requires ValidDate(d) && d.hour == 0 && d.minute == 0
    ensures Strptime(FormatDay(d), MonthDayYear) == Some(d)
  {
    PaddedFields(d);
    StrptimeMonthDayYearOf(Pad2(d.month), Pad2(d.day), Pad4(d.year));
  }

  /** A `%m/%d/%Y` value has nothing after the year, so the first format rejects it. */
  lemma MonthDayYearTextIsNoTime(ms: string, ds: string, ys: string)
    requires MonthField(ms) && DayField(ds) && YearField(ys)
    ensures Strptime(MonthDayYearText(ms, ds, ys), MonthDayYearHourMinute).None?
  {
    MonthDayYearFieldsOf(ms, ds, ys, "");
    assert MonthDayYearText(ms, ds, ys) + "" == MonthDayYearText(ms, ds, ys);
  }

  // ----- What each format accepts, stated as a grammar -----

  /** `v` writes the calendar date `d` in the format `%m/%d/%Y`. */
  ghost predicate SpellsMonthDayYear(v: string, d: Date) {
    exists ms, ds, ys ::
      && v == MonthDayYearText(ms, ds, ys)
      && MonthField(ms) && DayField(ds) && YearField(ys)
      && d == FieldsDate(ms, ds, ys, 0, 0)
      && ValidDate(d)
  }

  /** `v` writes the calendar date and time `d` in the format `%m/%d/%Y %H:%M`. */
  ghost predicate SpellsMonthDayYearHourMinute(v: string, d: Date) {
    exists ms, ds, ys, ws, hs, mis ::
      && v == MonthDayYearHourMinuteText(ms, ds, ys, ws, hs, mis)
      && MonthField(ms) && DayField(ds) && YearField(ys)
      && Blank(ws) && HourField(hs) && MinuteField(mis)
      && d == FieldsDate(ms, ds, ys, Decimal(hs), Decimal(mis))
      && ValidDate(d)
  }

  /** Cutting at the first `c` of `a + [c] + b` gives `a` and `b` when `a` has no `c`. */
  lemma SplitAtFirst(a: string, c: char, b: string)
    requires c !in a
    ensures SplitAt(a + [c] + b, c) == Some((a, b))
  {
    IndexOfFirst(a, c, b);
    assert (a + [c] + b)[..|a|] == a && (a + [c] + b)[|a| + 1..] == b;
  }

  lemma MonthDayYearFieldsOf(ms: string, ds: string, ys: string, tail: string)
    requires MonthField(ms) && DayField(ds) && YearField(ys)
    ensures MonthDayYearFields(MonthDayYearText(ms, ds, ys) + tail) == Some((ms, ds, ys, tail))
  {
    var r2 := ys + tail;
    var r1 := ds + ['/'] + r2;
    assert '/' !in ms && '/' !in ds;
    MonthDayYearTextSplit(ms, ds, ys, tail);
    SplitAtFirst(ms, '/', r1);
    SplitAtFirst(ds, '/', r2);
    assert r2[..4] == ys && r2[4..] == tail;
  }

  lemma HourMinuteFieldsOf(ws: string, hs: string, mis: string)
    requires Blank(ws) && HourField(hs) && MinuteField(mis)
    ensures HourMinuteFields(HourMinuteText(ws, hs, mis)) == Some((ws, hs, mis))
  {
    var t := hs + [':'] + mis;
    HourMinuteTextSplit(ws, hs, mis);
    LeadingSpacesOf(ws, t);
    assert (ws + t)[|ws|..] == hs + [':'] + mis;
    assert (ws + t)[..|ws|] == ws;
    assert ':' !in hs;
    SplitAtFirst(hs, ':', mis);
  }

  /** Every `%m/%d/%Y` spelling parses to the date of its fields, when that date exists. */
  lemma StrptimeMonthDayYearOf(ms: string, ds: string, ys: string)
    requires MonthField(ms) && DayField(ds) && YearField(ys)
    ensures Strptime(MonthDayYearText(ms, ds, ys), MonthDayYear) == Checked(FieldsDate(ms, ds, ys, 0, 0))
  {
    MonthDayYearFieldsOf(ms, ds, ys, "");
    assert MonthDayYearText(ms, ds, ys) + "" == MonthDayYearText(ms, ds, ys);
  }

  /** Every `%m/%d/%Y %H:%M` spelling parses to the date of its fields, when that date exists. */
  lemma StrptimeMonthDayYearHourMinuteOf(ms: string, ds: string, ys: string, ws: string, hs: string, mis: string)
    requires MonthField(ms) && DayField(ds) && YearField(ys)
    requires Blank(ws) && HourField(hs) && MinuteField(mis)
    ensures Strptime(MonthDayYearHourMinuteText(ms, ds, ys, ws, hs, mis), MonthDayYearHourMinute)
            == Checked(FieldsDate(ms, ds, ys, Decimal(hs), Decimal(mis)))
  {
    MonthDayYearFieldsOf(ms, ds, ys, HourMinuteText(ws, hs, mis));
    HourMinuteFieldsOf(ws, hs, mis);
  }

  lemma ParsedMonthDayYearIsSpelled(v: string, d: Date)
    requires Strptime(v, MonthDayYear) == Some(d)
    ensures SpellsMonthDayYear(v, d)
  {
    var (ms, ds, ys, tail) := MonthDayYearFields(v).value;
    assert v == MonthDayYearText(ms, ds, ys) + [];
  }

  lemma ParsedMonthDayYearHourMinuteIsSpelled(v: string, d: Date)
    requires Strptime(v, MonthDayYearHourMinute) == Some(d)
    ensures SpellsMonthDayYearHourMinute(v, d)
  {
    var (ms, ds, ys, tail) := MonthDayYearFields(v).value;
    var (ws, hs, mis) := HourMinuteFields(tail).value;
    assert v == MonthDayYearHourMinuteText(ms, ds, ys, ws, hs, mis);
  }

  /** `strptime(v, "%m/%d/%Y")` gives `d` exactly when `v` writes `d` in that format. */
  lemma StrptimeMonthDayYearSpec(v: string, d: Date)
    ensures Strptime(v, MonthDayYear) == Some(d) <==> SpellsMonthDayYear(v, d)
  {
    if Strptime(v, MonthDayYear) == Some(d) {
      ParsedMonthDayYearIsSpelled(v, d);
    }
    if SpellsMonthDayYear(v, d) {
      var ms, ds, ys :| && v == MonthDayYearText(ms, ds, ys)
                        && MonthField(ms) && DayField(ds) && YearField(ys)
                        && d == FieldsDate(ms, ds, ys, 0, 0)
                        && ValidDate(d);
      StrptimeMonthDayYearOf(ms, ds, ys);
    }
  }

  /** `strptime(v, "%m/%d/%Y %H:%M")` gives `d` exactly when `v` writes `d` in that format. */
  lemma StrptimeMonthDayYearHourMinuteSpec(v: string, d: Date)
    ensures Strptime(v, MonthDayYearHourMinute) == Some(d) <==> SpellsMonthDayYearHourMinute(v, d)
  {
    if Strptime(v, MonthDayYearHourMinute) == Some(d) {
      ParsedMonthDayYearHourMinuteIsSpelled(v, d);
    }
    if SpellsMonthDayYearHourMinute(v, d) {
      var ms, ds, ys, ws, hs, mis :| && v == MonthDayYearHourMinuteText(ms, ds, ys, ws, hs, mis)
                                    && MonthField(ms) && DayField(ds) && YearField(ys)
                                    && Blank(ws) && HourField(hs) && MinuteField(mis)
                                    && d == FieldsDate(ms, ds, ys, Decimal(hs), Decimal(mis))
                                    && ValidDate(d);
      StrptimeMonthDayYearHourMinuteOf(ms, ds, ys, ws, hs, mis);
    }
  }
}
