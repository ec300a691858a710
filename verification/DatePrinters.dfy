/** What Date's own printers write, the parser reads back. */
module DatePrinters {
  import opened Common
  import opened DateTokens
  import opened DateParser
  import opened DateRanges
  import opened DateIso
  import opened DateText
  import opened DateRoundTrips

  // ----- the ISO format -----

  ghost predicate YearFits(signed: bool, year: int) {
    if signed then -1_000_000 < year < 1_000_000 else 0 <= year < 10_000
  }

  /** The numbers have the digits the format gives them, in range or not. */
  ghost predicate Writable(f: Fields) {
    && -1 <= f.month < 99 && 0 <= f.day < 100 && 0 <= f.hour < 100 && 0 <= f.min < 100 && 0 <= f.sec < 100
    && 0 <= f.ms < 1000
  }

  /** A day of a month, and a time up to 23:59:59.999 or 24:00:00.000. */
  ghost predicate InCalendar(f: Fields) {
    && 0 <= f.month <= 11 && 1 <= f.day <= 31
    && ((f.hour <= 23 && f.min <= 59 && f.sec <= 59) || (f.hour == 24 && f.min == 0 && f.sec == 0 && f.ms == 0))
  }

  /** A date-time with every part written out. */
  ghost function FullForm(signed: bool, f: Fields, z: ZoneForm): (form: IsoForm)
    requires Writable(f)
  {
    IsoForm(signed, f.year, [f.month + 1, f.day],
      Some(TimeForm(f.hour, f.min, Some(f.sec), Some(Number(f.ms, 3)), z)))
  }

  ghost predicate ZoneInRange(z: ZoneForm) {
    && (z.Colon? ==> z.hour <= 24 && z.min <= 59)
    && (z.Packed? ==> z.hhmm / 100 <= 24 && z.hhmm % 100 <= 59)
  }

  /** The offset a zone stands for, in seconds; without a zone the time is local. */
  ghost function ZoneSeconds(z: ZoneForm): (n: int) {
    match z
    case NoZone => INT_MAX
    case Zulu => 0
    case Colon(minus, h, m) => (if minus then -1 else 1) * (h * 3600 + m * 60)
    case Packed(minus, n) => (if minus then -1 else 1) * (n / 100 * 3600 + n % 100 * 60)
  }

  /** A zone is accepted if and only if its hours and minutes are in range. */
  lemma ZoneBack(z: ZoneForm)
    requires (z.Colon? ==> z.hour < INT_MAX) && (z.Packed? ==> z.hhmm < INT_MAX)
    ensures ZoneField(ZoneMeaning(z)) == if ZoneInRange(z) then Some(ZoneSeconds(z)) else None
  {
  }

  lemma {:induction false} ThreeDigits(ms: nat)
    requires ms <= 999
    ensures Millis(Number(ms, 3)) == Done(ms)
  {
    PowZero();
  }

  lemma IsoDayBack(year: int, month: int, day: int)
    ensures DayFields([year, month, day], INT_MAX, true) ==
      if 1 <= month <= 12 && 1 <= day <= 31 then Some(Day(year, month - 1, day)) else None
  {
  }

  ghost predicate ZoneWritable(z: ZoneForm) {
    (z.Colon? ==> z.hour < 100 && z.min < 100) && (z.Packed? ==> z.hhmm < 10_000)
  }

  /** A full date-time means exactly its own fields and offset, and is rejected if and only if one is out of range. */
  lemma {:induction false} FullMeaning(signed: bool, f: Fields, z: ZoneForm)
    requires Writable(f) && YearFits(signed, f.year) && ZoneWritable(z)
    ensures FormOk(FullForm(signed, f, z))
    ensures Meaning(FullForm(signed, f, z)) ==
      if InCalendar(f) && ZoneInRange(z) then Done(f.(zone := ZoneSeconds(z))) else Invalid
  {
    ZoneBack(z);
    ThreeDigits(f.ms);
    IsoDayBack(f.year, f.month + 1, f.day);
    hide Millis, ZoneField, ZoneMeaning, ZoneSeconds, DayFields, ZoneInRange;
    assert [f.year] + [f.month + 1, f.day] == [f.year, f.month + 1, f.day];
  }

  /** Printing any date-time and parsing the text returns its fields and its offset, or rejects what is out of range. */
  lemma {:induction false} DateTimeRoundTrip(signed: bool, f: Fields, z: ZoneForm)
    requires Writable(f) && YearFits(signed, f.year) && ZoneWritable(z)
    ensures FormOk(FullForm(signed, f, z))
    ensures var ts := Tokens(IsoText(FullForm(signed, f, z), Pad(f.ms, 3)));
      && |ts| > 0
      && ParseTokens(ts) == if InCalendar(f) && ZoneInRange(z) then Done(f.(zone := ZoneSeconds(z))) else Invalid
  {
    FullMeaning(signed, f, z);
    Widths();
    PadToken(f.ms, 3);
    hide Tokens, Meaning, ParseTokens, IsoText, Pad, Pow10, NumberToken, AllDigits, InCalendar, ZoneInRange;
    IsoRoundTrip(FullForm(signed, f, z), Pad(f.ms, 3));
  }

  /** A date without a time is midnight in UTC; a missing month or day is the first. */
  lemma {:induction false} DateRoundTrip(signed: bool, year: int, date: seq<nat>)
    requires YearFits(signed, year) && |date| <= 2
    requires (|date| > 0 ==> 1 <= date[0] <= 12) && (|date| > 1 ==> 1 <= date[1] <= 31)
    ensures FormOk(IsoForm(signed, year, date, None))
    ensures var ts := Tokens(IsoText(IsoForm(signed, year, date, None), ""));
      |ts| > 0 && ParseTokens(ts) == Done(Fields(year, At(date, 0, 1) - 1, At(date, 1, 1), 0, 0, 0, 0, 0))
  {
    hide Tokens, Meaning, ParseTokens, IsoText, FormOk, DateRoundTrips.Fits, At;
    var form := IsoForm(signed, year, date, None);
    DateFits(form);
    DateMeaning(form);
    IsoRoundTrip(form, "");
  }

  lemma {:induction false} DateFits(f: IsoForm)
    requires YearFits(f.signed, f.year) && |f.date| <= 2 && f.time.None?
    requires (|f.date| > 0 ==> 1 <= f.date[0] <= 12) && (|f.date| > 1 ==> 1 <= f.date[1] <= 31)
    ensures FormOk(f) && Fits(f, "")
  {
  }

  lemma {:induction false} DateMeaning(f: IsoForm)
    requires FormOk(f) && f.time.None?
    requires (|f.date| > 0 ==> 1 <= f.date[0] <= 12) && (|f.date| > 1 ==> 1 <= f.date[1] <= 31)
    ensures Meaning(f) == Done(Fields(f.year, At(f.date, 0, 1) - 1, At(f.date, 1, 1), 0, 0, 0, 0, 0))
  {
    var day := [f.year] + f.date;
    assert At(day, 0, 1) == f.year && At(day, 1, 1) == At(f.date, 0, 1) && At(day, 2, 1) == At(f.date, 1, 1);
    hide At, FormOk;
    NoTimeIsValid();
  }

  lemma NoTimeIsValid()
    ensures TimeIsValid([]) && forall i: nat :: At([], i, 0) == 0
  {
  }

  // ----- toISOString -----

  /** Four digits, or a sign and six digits. */
  function IsoYear(year: int): (s: string) {
    var y := ToCString(year);
    if y[0] == '-' then Padded(y, 6) else if |y| > 4 then "+" + Padded(y, 6) else Padded(y, 4)
  }

  function Text2(n: nat): (s: string) { Padded(ToCString(n), 2) }

  lemma {:induction false} Text2Pad(n: nat)
    ensures Text2(n) == Pad(n, 2)
  {
    PaddedNumber(n, 2);
  }

  function IsoTimeOf(f: Fields): (s: string)
    requires FieldsOk(f)
  {
    Text2(f.hour) + (":" + (Text2(f.min) + (":" + (Text2(f.sec) + ("." + (Padded(ToCString(f.ms), 3) + ("Z" + "")))))))
  }

  function ToISOString(f: Fields): (s: string)
    requires FieldsOk(f)
  {
    IsoYear(f.year) + ("-" + (Text2(f.month + 1) + ("-" + (Text2(f.day) + ("T" + IsoTimeOf(f))))))
  }

  lemma {:induction false} IsoYearIs(year: int)
    requires -1_000_000 < year < 1_000_000
    ensures IsoYear(year) == if year < 0 then "-" + Pad(-year, 6) else if year > 9999 then "+" + Pad(year, 6) else Pad(year, 4)
  {
    Widths();
    PaddedNumber(year, 6);
    PaddedNumber(year, 4);
    hide Pad, Padded, Pow10;
    if year < 0 {
      assert ToCString(year)[0] == '-';
    } else {
      DigitsLength(year, 4);
      assert IsDigit(Digits(year)[0]);
    }
  }

  lemma {:induction false} IsoYearText(year: int, tail: string)
    requires -1_000_000 < year < 1_000_000
    ensures IsoYear(year) + tail == YearText(year < 0 || year > 9999, year, tail)
  {
    hide IsoYear, Pad;
    IsoYearIs(year);
    if year < 0 { Joined("-", Pad(-year, 6), tail); } else { Joined("+", Pad(year, 6), tail); }
  }

  lemma {:induction false} IsoTimeText(f: Fields)
    requires FieldsOk(f)
    ensures IsoTimeOf(f) == ClockText(TimeForm(f.hour, f.min, Some(f.sec), Some(Number(f.ms, 3)), Zulu), Pad(f.ms, 3), "Z" + "")
  {
    Text2Pad(f.hour);
    Text2Pad(f.min);
    Text2Pad(f.sec);
    PaddedNumber(f.ms, 3);
    hide Pad, Padded, ToCString, Text2;
  }

  lemma {:induction false} IsoDateText(f: Fields, tail: string)
    requires FieldsOk(f) && -1_000_000 < f.year < 1_000_000
    ensures IsoYear(f.year) + ("-" + (Text2(f.month + 1) + ("-" + (Text2(f.day) + tail))))
      == YearText(f.year < 0 || f.year > 9999, f.year, DatesText([f.month + 1, f.day], tail))
  {
    Text2Pad(f.month + 1);
    Text2Pad(f.day);
    hide Pad, Padded, ToCString, Text2, IsoYear, YearText;
    IsoYearText(f.year, DatesText([f.month + 1, f.day], tail));
  }

  lemma {:induction false} ToISOStringText(f: Fields)
    requires FieldsOk(f) && -1_000_000 < f.year < 1_000_000
    ensures FormOk(FullForm(f.year < 0 || f.year > 9999, f, Zulu))
    ensures ToISOString(f) == IsoText(FullForm(f.year < 0 || f.year > 9999, f, Zulu), Pad(f.ms, 3))
  {
    hide Pad, Text2, IsoYear, YearText, DatesText, ClockText, IsoTimeOf;
    IsoTimeText(f);
    IsoDateText(f, "T" + IsoTimeOf(f));
  }

  /** Date.parse undoes toISOString for every date a time value can stand for, and more. */
  lemma {:induction false} ToISOStringRoundTrip(f: Fields)
    requires FieldsOk(f) && -1_000_000 < f.year < 1_000_000
    ensures var ts := Tokens(ToISOString(f)); |ts| > 0 && ParseTokens(ts) == Done(f.(zone := 0))
  {
    hide Tokens, ParseTokens, ToISOString, IsoText, Pad;
    ToISOStringText(f);
    DateTimeRoundTrip(f.year < 0 || f.year > 9999, f, Zulu);
  }
}
