/** The texts of toString and toUTCString, which take the legacy path. */
module DateLegacy {
  import opened Common
  import opened DateTokens
  import opened DateParser
  import opened DateRanges
  import opened DateIso
  import opened DateText
  import opened DateRoundTrips
  import opened DatePrinters
  import opened LegacySteps

  const WEEKDAY_NAMES: seq<string> := ["Sun", "Mon", "Tue", "Wed", "Thu", "Fri", "Sat"]
  const MONTH_NAMES: seq<string> :=
    ["Jan", "Feb", "Mar", "Apr", "May", "Jun", "Jul", "Aug", "Sep", "Oct", "Nov", "Dec"]

  const WEEKDAYS: seq<string> := ["sun", "mon", "tue", "wed", "thu", "fri", "sat"]

  lemma {:induction false} NoMonth(w: string)
    requires |w| == 3 && w[0] != 'j' && w[0] != 'o'
    requires w[2] == 'n' || w[2] == 'e' || w[2] == 'd' || w[2] == 'u' || w[2] == 'i' || w[2] == 't'
    ensures w !in MONTHS
  {
    forall j | 0 <= j < |MONTHS| ensures MONTHS[j] != w {}
  }

  lemma {:induction false} WeekdayWord(d: nat)
    requires d < 7
    ensures |WEEKDAYS[d]| == 3 && WordToken(WEEKDAYS[d]) == InvalidWord
  {
    NoMonth(WEEKDAYS[d]);
  }

  // ----- the texts -----

  function OffsetText(localMin: int): (s: string) {
    var n := if localMin < 0 then -localMin else localMin;
    SignText(localMin < 0) + (Text2(n / 60) + Text2(n % 60))
  }

  function ClockGMT(f: Fields, tail: string): (s: string)
    requires FieldsOk(f)
  {
    Text2(f.hour) + (":" + (Text2(f.min) + (":" + (Text2(f.sec) + (" " + ("GMT" + tail))))))
  }

  function YearClock(f: Fields, tail: string): (s: string)
    requires FieldsOk(f)
  {
    Padded(ToCString(f.year), 4) + (" " + ClockGMT(f, tail))
  }

  function ToString(f: Fields, weekday: nat, localMin: int): (s: string)
    requires FieldsOk(f) && weekday < 7
  {
    WEEKDAY_NAMES[weekday] + (" " + (MONTH_NAMES[f.month] + (" " + (Text2(f.day) + (" " + YearClock(f, OffsetText(localMin)))))))
  }

  function ToUTCString(f: Fields, weekday: nat): (s: string)
    requires FieldsOk(f) && weekday < 7
  {
    WEEKDAY_NAMES[weekday] + ("," + (" " + (Text2(f.day) + (" " + (MONTH_NAMES[f.month] + (" " + YearClock(f, "")))))))
  }

  // ----- their tokens -----

  ghost function OffsetUnits(localMin: int): (ts: seq<DateUnit>) {
    var n := if localMin < 0 then -localMin else localMin;
    Cons(SignUnit(localMin < 0), Cons(Number(n / 60 * 100 + n % 60, 4), [StringEnd]))
  }

  ghost function ClockGMTUnits(f: Fields, tail: seq<DateUnit>): (ts: seq<DateUnit>)
    requires FieldsOk(f)
    ensures |ts| > 0
  {
    Cons(Number(f.hour, 2), Cons(Symbol(':'), Cons(Number(f.min, 2), Cons(Symbol(':'), Cons(Number(f.sec, 2),
      Cons(Space, Cons(TimeZoneWord(true), tail)))))))
  }

  ghost function SignedYear(year: int, tail: seq<DateUnit>): (ts: seq<DateUnit>)
    ensures |ts| > 0
  {
    if year < 0 then Cons(Symbol('-'), Cons(Number(-year, |Pad(-year, 4)|), tail)) else Cons(Number(year, |Pad(year, 4)|), tail)
  }

  lemma {:induction false} FourDigits(h: nat, m: nat)
    requires h < 100 && m < 100
    ensures var ds := Pad(h, 2) + Pad(m, 2); AllDigits(ds) && NumberToken(ds) == Number(h * 100 + m, 4)
  {
    Widths();
    PadValue(h, 2);
    PadValue(m, 2);
    hide Pad, Pow10, Decimal, NumberToken;
    JoinDigits(Pad(h, 2), Pad(m, 2));
    SmallNumber(Pad(h, 2) + Pad(m, 2));
  }

  lemma {:induction false} ScanHourMinute(h: nat, m: nat)
    requires h < 100 && m < 100
    ensures Tokens(Text2(h) + Text2(m)) == Cons(Number(h * 100 + m, 4), [StringEnd])
  {
    Text2Pad(h);
    Text2Pad(m);
    hide Pad, Text2, Tokens, Cons, AllDigits, NumberToken, TokenList;
    FourDigits(h, m);
    var ds := Text2(h) + Text2(m);
    assert ds + "" == ds;
    ScanNumber(ds, "");
    ScanEnd();
  }

  lemma {:induction false} ScanOffset(localMin: int)
    requires -1500 < localMin < 1500
    ensures Tokens(OffsetText(localMin)) == OffsetUnits(localMin) && !IsAlpha(First(OffsetText(localMin)))
  {
    hide Text2, Tokens, Cons, TokenList;
    var n := if localMin < 0 then -localMin else localMin;
    ScanHourMinute(n / 60, n % 60);
    ScanSymbol(if localMin < 0 then '-' else '+', Text2(n / 60) + Text2(n % 60));
  }

  lemma {:induction false} ScanClockGMT(f: Fields, tail: string)
    requires FieldsOk(f) && !IsAlpha(First(tail))
    ensures Tokens(ClockGMT(f, tail)) == ClockGMTUnits(f, Tokens(tail))
  {
    Text2Pad(f.hour);
    Text2Pad(f.min);
    Text2Pad(f.sec);
    Widths();
    GMTWord();
    hide Pad, Text2, Tokens, Pow10, Cons, WordToken, TokenList;
    var g := " " + ("GMT" + tail);
    ScanWord("GMT", tail, "gmt");
    ScanBlank(' ', "GMT" + tail);
    ScanPad(f.sec, 2, g);
    ScanSymbol(':', Pad(f.sec, 2) + g);
    ScanPad(f.min, 2, ":" + (Pad(f.sec, 2) + g));
    ScanSymbol(':', Pad(f.min, 2) + (":" + (Pad(f.sec, 2) + g)));
    ScanPad(f.hour, 2, ":" + (Pad(f.min, 2) + (":" + (Pad(f.sec, 2) + g))));
  }

  lemma GMTWord()
    ensures WordToken("gmt") == TimeZoneWord(true)
  {
  }

  lemma {:induction false} SignedYearText(year: int, tail: string)
    ensures Padded(ToCString(year), 4) + tail == if year < 0 then "-" + (Pad(-year, 4) + tail) else Pad(year, 4) + tail
  {
    PaddedNumber(year, 4);
    hide Pad, Padded, ToCString;
    if year < 0 { Joined("-", Pad(-year, 4), tail); }
  }

  lemma {:induction false} ScanSignedYear(year: int, tail: string)
    requires -MAX_DECIMAL <= year <= MAX_DECIMAL && !IsDigit(First(tail))
    ensures Tokens(Padded(ToCString(year), 4) + tail) == SignedYear(year, Tokens(tail))
  {
    hide Pad, Padded, ToCString, Tokens, Cons, Pow10, TokenList;
    SignedYearText(year, tail);
    if year < 0 {
      ScanPad(-year, 4, tail);
      ScanSymbol('-', Pad(-year, 4) + tail);
    } else {
      ScanPad(year, 4, tail);
    }
  }

  lemma {:induction false} ScanYearClock(f: Fields, tail: string)
    requires FieldsOk(f) && !IsAlpha(First(tail)) && -MAX_DECIMAL <= f.year <= MAX_DECIMAL
    ensures Tokens(YearClock(f, tail)) == SignedYear(f.year, Cons(Space, ClockGMTUnits(f, Tokens(tail))))
  {
    ScanClockGMT(f, tail);
    hide Padded, ToCString, Tokens, Cons, ClockGMT, ClockGMTUnits, SignedYear, TokenList;
    ScanBlank(' ', ClockGMT(f, tail));
    ScanSignedYear(f.year, " " + ClockGMT(f, tail));
  }

  lemma {:induction false} ScanWeekday(weekday: nat, tail: string)
    requires weekday < 7 && !IsAlpha(First(tail))
    ensures Tokens(WEEKDAY_NAMES[weekday] + tail) == Cons(InvalidWord, Tokens(tail))
  {
    WeekdayWord(weekday);
    LowerWeekday(weekday);
    hide Tokens, Cons, WordToken, TokenList;
    ScanWord(WEEKDAY_NAMES[weekday], tail, WEEKDAYS[weekday]);
  }

  lemma LowerWeekday(d: nat)
    requires d < 7
    ensures var w, l := WEEKDAY_NAMES[d], WEEKDAYS[d];
      |w| == |l| == 3 && forall i :: 0 <= i < 3 ==> IsAlpha(w[i]) && l[i] == GetLower(w[i])
  {
  }

  lemma {:induction false} ScanMonth(m: nat, tail: string)
    requires m < 12 && !IsAlpha(First(tail))
    ensures Tokens(MONTH_NAMES[m] + tail) == Cons(Month(m + 1), Tokens(tail))
  {
    MonthWord(m);
    LowerMonth(m);
    hide Tokens, Cons, WordToken, TokenList;
    ScanWord(MONTH_NAMES[m], tail, MONTHS[m]);
  }

  lemma LowerMonth(m: nat)
    requires m < 12
    ensures var w, l := MONTH_NAMES[m], MONTHS[m];
      |w| == |l| == 3 && forall i :: 0 <= i < 3 ==> IsAlpha(w[i]) && l[i] == GetLower(w[i])
  {
  }

  // ----- reading them back -----

  function Absolute(n: int): (r: nat) { if n < 0 then -n else n }

  /** What the legacy path makes of the fields of a text that writes the year's digits after its sign. */
  ghost predicate ReadBack(p: Parse<Fields>, f: Fields, zone: int) {
    p.Done? && Windowed(Absolute(f.year), p.value.year) && p.value == f.(year := p.value.year, ms := 0, zone := zone)
  }

  lemma {:induction false} ReadYear(year: int, tail: seq<DateUnit>, st: State)
    requires |tail| > 0 && tail[0].Space? && st.time == [] && |st.day| < DAY_LEN && st.zone == LOCAL
    ensures Legacy(SignedYear(year, tail), st)
      == Legacy(tail, st.(day := st.day + [if year < 0 then -year else year], hasNumber := true))
  {
    hide Cons, Legacy, Pad, TokenList;
    if year < 0 {
      Skip(Symbol('-'), Cons(Number(-year, |Pad(-year, 4)|), tail), st);
      TakeDay(-year, |Pad(-year, 4)|, tail, st);
    } else {
      TakeDay(year, |Pad(year, 4)|, tail, st);
    }
  }

  lemma {:induction false} ReadClockGMT(f: Fields, tail: seq<DateUnit>, st: State)
    requires FieldsOk(f) && |tail| > 0 && st.time == []
    ensures Legacy(ClockGMTUnits(f, tail), st)
      == Legacy(tail, st.(time := [f.hour, f.min, f.sec], zone := UTC, hasNumber := true))
  {
    hide Cons, Legacy, TokenList;
    var g := Cons(Space, Cons(TimeZoneWord(true), tail));
    var s := Cons(Number(f.sec, 2), g);
    var st1 := st.(time := [f.hour], hasNumber := true);
    var st2 := st1.(time := [f.hour, f.min]);
    var st3 := st2.(time := [f.hour, f.min, f.sec]);
    TakeClock(f.hour, 2, Cons(Number(f.min, 2), Cons(Symbol(':'), s)), st);
    assert [] + [f.hour] == [f.hour];
    TakeClock(f.min, 2, s, st1);
    assert [f.hour] + [f.min] == [f.hour, f.min];
    TakeSecond(f.sec, 2, g, st2);
    assert [f.hour, f.min] + [f.sec] == [f.hour, f.min, f.sec];
    Skip(Space, Cons(TimeZoneWord(true), tail), st3);
    TakeUTC(true, tail, st3);
  }

  ghost function YearClockUnits(f: Fields, tail: seq<DateUnit>): (ts: seq<DateUnit>)
    requires FieldsOk(f)
    ensures |ts| > 0
  {
    SignedYear(f.year, Cons(Space, ClockGMTUnits(f, tail)))
  }

  /** What is collected once year and time have been read. */
  ghost function Collected(f: Fields, zone: Zone): (st: State) {
    State([f.day, if f.year < 0 then -f.year else f.year], f.month + 1, [f.hour, f.min, f.sec], zone, true)
  }

  lemma {:induction false} ReadYearClock(f: Fields, tail: seq<DateUnit>, st: State)
    requires FieldsOk(f) && |tail| > 0 && st == State([f.day], f.month + 1, [], LOCAL, true)
    ensures Legacy(YearClockUnits(f, tail), st) == Legacy(tail, Collected(f, UTC))
  {
    hide Cons, Legacy, SignedYear, ClockGMTUnits, TokenList;
    var y := if f.year < 0 then -f.year else f.year;
    var st1 := st.(day := [f.day, y]);
    assert [f.day] + [y] == [f.day, y];
    ReadYear(f.year, Cons(Space, ClockGMTUnits(f, tail)), st);
    Skip(Space, ClockGMTUnits(f, tail), st1);
    ReadClockGMT(f, tail, st1);
  }

  lemma {:induction false} CollectedFields(f: Fields, zone: Zone)
    requires FieldsOk(f) && ZoneField(zone).Some?
    ensures ReadBack(Finish(Collected(f, zone), false), f, ZoneField(zone).value)
  {
    hide ZoneField;
  }

  lemma NotIso(ts: seq<DateUnit>)
    requires |ts| > 0 && ts[0].InvalidWord?
    ensures IsoDatePart(ts) == IsoDate(false, [], ts)
  {
  }

  lemma {:induction false} LegacyFields(ts: seq<DateUnit>, f: Fields, zone: Zone)
    requires FieldsOk(f) && |ts| > 0 && ts[0].InvalidWord? && ZoneField(zone).Some?
    requires Legacy(ts, StartOf([])) == Done(Collected(f, zone))
    ensures ReadBack(ParseTokens(ts), f, ZoneField(zone).value)
  {
    hide Legacy, Finish, ZoneField, IsoDatePart, IsoTimePart, Collected;
    NotIso(ts);
    CollectedFields(f, zone);
  }

  // ----- toString -----

  ghost function NamesUnits(m: int, tail: seq<DateUnit>): (ts: seq<DateUnit>)
    ensures |ts| > 0 && ts[0].InvalidWord?
  {
    Cons(InvalidWord, Cons(Space, Cons(Month(m), Cons(Space, tail))))
  }

  ghost function DayYearUnits(f: Fields, tail: seq<DateUnit>): (ts: seq<DateUnit>)
    requires FieldsOk(f)
    ensures |ts| > 0
  {
    Cons(Number(f.day, 2), Cons(Space, YearClockUnits(f, tail)))
  }

  ghost function ToStringUnits(f: Fields, tail: seq<DateUnit>): (ts: seq<DateUnit>)
    requires FieldsOk(f)
    ensures |ts| > 0 && ts[0].InvalidWord?
  {
    NamesUnits(f.month + 1, DayYearUnits(f, tail))
  }

  lemma {:induction false} ScanDay(n: nat, tail: string)
    requires n < 100
    ensures Tokens(Text2(n) + (" " + tail)) == Cons(Number(n, 2), Cons(Space, Tokens(tail)))
  {
    Text2Pad(n);
    Widths();
    hide Tokens, Cons, Pad, Text2, Pow10, TokenList;
    ScanBlank(' ', tail);
    ScanPad(n, 2, " " + tail);
  }

  lemma {:induction false} ScanMonthName(m: nat, tail: string)
    requires m < 12
    ensures Tokens(MONTH_NAMES[m] + (" " + tail)) == Cons(Month(m + 1), Cons(Space, Tokens(tail)))
  {
    hide Tokens, Cons, TokenList;
    ScanBlank(' ', tail);
    ScanMonth(m, " " + tail);
  }

  lemma {:induction false} ScanToString(f: Fields, weekday: nat, localMin: int)
    requires FieldsOk(f) && weekday < 7 && -1500 < localMin < 1500 && -MAX_DECIMAL <= f.year <= MAX_DECIMAL
    ensures Tokens(ToString(f, weekday, localMin)) == ToStringUnits(f, OffsetUnits(localMin))
  {
    hide Tokens, Cons, Rest, Text2, YearClock, SignedYear, ClockGMTUnits, OffsetText, OffsetUnits, FieldsOk, TokenList;
    FieldsSmall(f);
    ScanOffset(localMin);
    var y := YearClock(f, OffsetText(localMin));
    ScanYearClock(f, OffsetText(localMin));
    var d := Text2(f.day) + (" " + y);
    ScanDay(f.day, y);
    var m := MONTH_NAMES[f.month] + (" " + d);
    ScanMonthName(f.month, d);
    ScanBlank(' ', m);
    ScanWeekday(weekday, " " + m);
  }

  lemma FieldsSmall(f: Fields)
    requires FieldsOk(f)
    ensures 0 <= f.month < 12 && 0 <= f.day < 100
  {
  }

  lemma {:induction false} ReadNames(m: int, tail: seq<DateUnit>, st: State)
    requires |tail| > 0 && !st.hasNumber
    ensures Legacy(NamesUnits(m, tail), st) == Legacy(tail, st.(month := m))
  {
    hide Cons, Rest, Legacy, IsUTC, TokenList;
    Skip(InvalidWord, Cons(Space, Cons(Month(m), Cons(Space, tail))), st);
    Skip(Space, Cons(Month(m), Cons(Space, tail)), st);
    TakeMonth(m, Cons(Space, tail), st);
    Skip(Space, tail, st.(month := m));
  }

  lemma {:induction false} ReadDayYear(f: Fields, tail: seq<DateUnit>, st: State)
    requires FieldsOk(f) && |tail| > 0 && st == State([], f.month + 1, [], LOCAL, false)
    ensures Legacy(DayYearUnits(f, tail), st) == Legacy(tail, Collected(f, UTC))
  {
    hide Cons, Rest, Legacy, YearClockUnits, Collected, IsUTC, TokenList;
    var y := YearClockUnits(f, tail);
    var st1 := State([f.day], f.month + 1, [], LOCAL, true);
    TakeFirstDay(f.day, Cons(Space, y), st);
    ReadYearClock(f, tail, st1);
    Skip(Space, y, st1);
  }

  lemma {:induction false} ReadToString(f: Fields, tail: seq<DateUnit>)
    requires FieldsOk(f) && |tail| > 0
    ensures Legacy(ToStringUnits(f, tail), StartOf([])) == Legacy(tail, Collected(f, UTC))
  {
    hide NamesUnits, DayYearUnits, Legacy, Collected, FieldsOk;
    var st, d := StartOf([]), DayYearUnits(f, tail);
    ReadNames(f.month + 1, d, st);
    ReadDayYear(f, tail, st.(month := f.month + 1));
  }

  ghost function OffsetZone(localMin: int): (z: Zone) {
    var n := if localMin < 0 then -localMin else localMin;
    Zone(if localMin < 0 then -1 else 1, n / 60, n % 60)
  }

  lemma {:induction false} ReadOffsetUnits(f: Fields, localMin: int)
    requires -1500 < localMin < 1500
    ensures Legacy(OffsetUnits(localMin), Collected(f, UTC)) == Done(Collected(f, OffsetZone(localMin)))
    ensures ZoneField(OffsetZone(localMin)) == Some(localMin * 60)
  {
    hide Cons, Legacy, TokenList;
    var n := if localMin < 0 then -localMin else localMin;
    TakeOffset(localMin < 0, n / 60 * 100 + n % 60, [StringEnd], Collected(f, UTC));
    TakeEnd(Collected(f, OffsetZone(localMin)));
  }

  /** Parsing what toString prints returns its fields to the second, but for the year. */
  lemma {:induction false} ToStringRead(f: Fields, weekday: nat, localMin: int)
    requires FieldsOk(f) && weekday < 7 && -1500 < localMin < 1500 && -MAX_DECIMAL <= f.year <= MAX_DECIMAL
    ensures var ts := Tokens(ToString(f, weekday, localMin));
      |ts| > 0 && ReadBack(ParseTokens(ts), f, localMin * 60)
  {
    hide Tokens, ToString, Legacy, YearClockUnits, ParseTokens, ReadBack, OffsetZone, ZoneField, Collected, Cons, Rest,
      FieldsOk, StartOf, TokenList;
    FieldsSmall(f);
    ScanToString(f, weekday, localMin);
    ReadOffsetUnits(f, localMin);
    ReadToString(f, OffsetUnits(localMin));
    LegacyFields(ToStringUnits(f, OffsetUnits(localMin)), f, OffsetZone(localMin));
  }

  // ----- toUTCString -----

  ghost function ToUTCStringUnits(f: Fields): (ts: seq<DateUnit>)
    requires FieldsOk(f)
    ensures |ts| > 0
  {
    Cons(InvalidWord, Cons(Unknown, Cons(Space, Cons(Number(f.day, 2), Cons(Space, Cons(Month(f.month + 1), Cons(Space,
      YearClockUnits(f, [StringEnd]))))))))
  }

  lemma {:induction false} ScanToUTCString(f: Fields, weekday: nat)
    requires FieldsOk(f) && weekday < 7 && -MAX_DECIMAL <= f.year <= MAX_DECIMAL
    ensures Tokens(ToUTCString(f, weekday)) == ToUTCStringUnits(f)
  {
    hide Tokens, Cons, Rest, Text2, YearClock, SignedYear, ClockGMTUnits, FieldsOk, TokenList;
    FieldsSmall(f);
    ScanEnd();
    var y := YearClock(f, "");
    ScanYearClock(f, "");
    var m := MONTH_NAMES[f.month] + (" " + y);
    ScanMonthName(f.month, y);
    var d := Text2(f.day) + (" " + m);
    ScanDay(f.day, m);
    ScanBlank(' ', d);
    ScanBlank(',', " " + d);
    ScanWeekday(weekday, "," + (" " + d));
  }

  lemma {:induction false} ReadToUTCString(f: Fields)
    requires FieldsOk(f)
    ensures Legacy(ToUTCStringUnits(f), StartOf([])) == Done(Collected(f, UTC))
  {
    hide Cons, Rest, Legacy, YearClockUnits, Collected, FieldsOk, IsUTC, TokenList;
    FieldsSmall(f);
    var st := StartOf([]);
    var st1 := st.(day := [f.day], hasNumber := true);
    var st2 := st1.(month := f.month + 1);
    ReadYearClock(f, [StringEnd], st2);
    TakeEnd(Collected(f, UTC));
    var y := YearClockUnits(f, [StringEnd]);
    var m := Cons(Month(f.month + 1), Cons(Space, y));
    var d := Cons(Number(f.day, 2), Cons(Space, m));
    Skip(InvalidWord, Cons(Unknown, Cons(Space, d)), st);
    Skip(Unknown, Cons(Space, d), st);
    Skip(Space, d, st);
    TakeFirstDay(f.day, Cons(Space, m), st);
    Skip(Space, m, st1);
    TakeMonth(f.month + 1, Cons(Space, y), st1);
    Skip(Space, y, st2);
  }

  /** Parsing what toUTCString prints returns its fields to the second, but for the year. */
  lemma {:induction false} ToUTCStringRead(f: Fields, weekday: nat)
    requires FieldsOk(f) && weekday < 7 && -MAX_DECIMAL <= f.year <= MAX_DECIMAL
    ensures var ts := Tokens(ToUTCString(f, weekday));
      |ts| > 0 && ReadBack(ParseTokens(ts), f, 0)
  {
    hide Tokens, ToUTCString, Legacy, YearClockUnits, ParseTokens, ReadBack, Collected, Cons, Rest, FieldsOk, StartOf, TokenList;
    FieldsSmall(f);
    ScanToUTCString(f, weekday);
    ReadToUTCString(f);
    LegacyFields(ToUTCStringUnits(f), f, UTC);
  }

  lemma WindowKeeps(year: int)
    ensures forall y :: Windowed(Absolute(year), y) ==> (y == year <==> year >= 100)
  {
  }

  /** Both texts round trip, to the second, if and only if the year is at least 100. */
  lemma {:induction false} LegacyRoundTrip(f: Fields, weekday: nat, localMin: int)
    requires FieldsOk(f) && weekday < 7 && -1500 < localMin < 1500 && -MAX_DECIMAL <= f.year <= MAX_DECIMAL
    ensures var ts := Tokens(ToString(f, weekday, localMin));
      |ts| > 0 && (ParseTokens(ts) == Done(f.(ms := 0, zone := localMin * 60)) <==> f.year >= 100)
    ensures var ts := Tokens(ToUTCString(f, weekday));
      |ts| > 0 && (ParseTokens(ts) == Done(f.(ms := 0, zone := 0)) <==> f.year >= 100)
  {
    hide Tokens, ToString, ToUTCString, ParseTokens;
    ToStringRead(f, weekday, localMin);
    ToUTCStringRead(f, weekday);
    WindowKeeps(f.year);
  }
}
