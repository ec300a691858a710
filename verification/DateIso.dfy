/** The ISO date-time format as a grammar: the parser accepts exactly the texts the grammar generates. */
module DateIso {
  import opened Common
  import opened DateTokens
  import opened DateParser

  datatype ZoneForm = NoZone | Zulu | Colon(minus: bool, hour: nat, min: nat) | Packed(minus: bool, hhmm: nat)

  datatype TimeForm = TimeForm(hour: nat, min: nat, sec: Option<nat>, frac: Option<DateUnit>, zone: ZoneForm)

  // A year of four digits or of a sign and six digits; then up to two numbers, month and day; then perhaps a time.
  datatype IsoForm = IsoForm(signed: bool, year: int, date: seq<nat>, time: Option<TimeForm>)

  ghost predicate FormOk(f: IsoForm) {
    && |f.date| <= 2 && (!f.signed ==> f.year >= 0)
    && TimeOk(f.time)
  }

  // Token lists are written from the back: each piece stands in front of the tokens that follow it.
  ghost function Cons(u: DateUnit, ts: seq<DateUnit>): (r: seq<DateUnit>)
    ensures |r| == |ts| + 1 && r[0] == u && (|ts| > 0 ==> Rest(r) == ts)
  {
    [u] + ts
  }

  ghost function Dash(n: nat, tail: seq<DateUnit>): (ts: seq<DateUnit>) { Cons(Symbol('-'), Cons(Number(n, 2), tail)) }

  ghost function YearUnits(signed: bool, year: int, tail: seq<DateUnit>): (ts: seq<DateUnit>)
    requires !signed ==> year >= 0
  {
    if !signed then Cons(Number(year, 4), tail)
    else if year < 0 then Cons(Symbol('-'), Cons(Number(-year, 6), tail))
    else Cons(Symbol('+'), Cons(Number(year, 6), tail))
  }

  ghost function DateUnits(date: seq<nat>, tail: seq<DateUnit>): (ts: seq<DateUnit>)
    requires |date| <= 2
  {
    if |date| == 0 then tail else if |date| == 1 then Dash(date[0], tail) else Dash(date[0], Dash(date[1], tail))
  }

  ghost function FractionUnits(frac: Option<DateUnit>, tail: seq<DateUnit>): (ts: seq<DateUnit>) {
    if frac.None? then tail else Cons(Symbol('.'), Cons(frac.value, tail))
  }

  ghost function SecondUnits(sec: Option<nat>, frac: Option<DateUnit>, tail: seq<DateUnit>): (ts: seq<DateUnit>) {
    if sec.None? then tail else Cons(Symbol(':'), Cons(Number(sec.value, 2), FractionUnits(frac, tail)))
  }

  ghost function ClockUnits(t: TimeForm, tail: seq<DateUnit>): (ts: seq<DateUnit>) {
    Cons(Number(t.hour, 2), Cons(Symbol(':'), Cons(Number(t.min, 2), SecondUnits(t.sec, t.frac, tail))))
  }

  function SignUnit(minus: bool): (u: DateUnit) { Symbol(if minus then '-' else '+') }

  ghost function ZoneUnits(z: ZoneForm, tail: seq<DateUnit>): (ts: seq<DateUnit>) {
    match z
    case NoZone => tail
    case Zulu => Cons(TimeZoneWord(false), tail)
    case Colon(minus, h, m) => Cons(SignUnit(minus), Cons(Number(h, 2), Cons(Symbol(':'), Cons(Number(m, 2), tail))))
    case Packed(minus, n) => Cons(SignUnit(minus), Cons(Number(n, 4), tail))
  }

  ghost function TimeUnits(t: Option<TimeForm>, tail: seq<DateUnit>): (ts: seq<DateUnit>) {
    if t.None? then tail else Cons(TimeFlag, ClockUnits(t.value, ZoneUnits(t.value.zone, tail)))
  }

  /** The tokens of a text, followed by tail. */
  ghost function FormUnits(f: IsoForm, tail: seq<DateUnit>): (ts: seq<DateUnit>)
    requires FormOk(f)
  {
    YearUnits(f.signed, f.year, DateUnits(f.date, TimeUnits(f.time, tail)))
  }

  // What may follow: after a zone anything, otherwise the end.
  ghost predicate TailOk(z: ZoneForm, tail: seq<DateUnit>) { |tail| > 0 && (z.NoZone? ==> tail[0].StringEnd?) }

  // ----- what a text means -----

  ghost function ZoneMeaning(z: ZoneForm): (r: Zone) {
    match z
    case NoZone => LOCAL
    case Zulu => UTC
    case Colon(minus, h, m) => Zone(if minus then -1 else 1, h, m)
    case Packed(minus, n) => Zone(if minus then -1 else 1, n / 100, n % 100)
  }

  /** The numbers of the time of day, unless the fraction is too long. */
  ghost function ClockMeaning(t: TimeForm): (r: Parse<seq<int>>)
    requires t.frac.Some? ==> t.frac.value.Number?
  {
    if t.sec.None? then Done([t.hour, t.min])
    else if t.frac.None? then Done([t.hour, t.min, t.sec.value])
    else match Millis(t.frac.value)
      case Done(ms) => Done([t.hour, t.min, t.sec.value, ms])
      case Invalid => Invalid
      case Overflow => Overflow
  }

  ghost predicate TimeOk(t: Option<TimeForm>) {
    t.Some? && t.value.frac.Some? ==> t.value.sec.Some? && t.value.frac.value.Number?
  }

  /** A date alone is in UTC, a time without a zone is local. */
  ghost function TimeMeaning(t: Option<TimeForm>): (r: Parse<(seq<int>, Zone)>)
    requires TimeOk(t)
  {
    if t.None? then Done(([], UTC))
    else match ClockMeaning(t.value)
      case Done(time) => Done((time, ZoneMeaning(t.value.zone)))
      case Invalid => Invalid
      case Overflow => Overflow
  }

  /** The fields, if they are in range. */
  ghost function Meaning(f: IsoForm): (r: Parse<Fields>)
    requires FormOk(f)
  {
    match TimeMeaning(f.time)
    case Done(t) => Finish(StartOf([f.year] + f.date).(time := t.0, zone := t.1), true)
    case Invalid => Invalid
    case Overflow => Overflow
  }

  // ----- the parser reads every text of the grammar -----

  lemma {:induction false} YearReads(signed: bool, year: int, tail: seq<DateUnit>)
    requires |tail| > 0 && (!signed ==> year >= 0)
    ensures YearPart(YearUnits(signed, year, tail)) == IsoDate(true, [year], tail)
  {
    hide Cons, Rest, TokenList;
  }

  lemma {:induction false} DashReads(day: seq<int>, n: nat, tail: seq<DateUnit>)
    requires |tail| > 0
    ensures |Dash(n, tail)| > 0 && DashPart(IsoDate(true, day, Dash(n, tail))) == IsoDate(true, day + [n], tail)
  {
    hide Cons, Rest, TokenList;
  }

  lemma {:induction false} TwoDashes(year: int, date: seq<nat>, tail: seq<DateUnit>)
    requires |date| <= 2 && |tail| > 0 && (|date| < 2 ==> !tail[0].IsSymbol('-'))
    ensures |DateUnits(date, tail)| > 0
    ensures DashPart(DashPart(IsoDate(true, [year], DateUnits(date, tail)))) == IsoDate(true, [year] + date, tail)
  {
    hide Dash, Rest, TokenList;
    if |date| == 1 {
      DashReads([year], date[0], tail);
      assert [year] + [date[0]] == [year] + date;
    } else if |date| == 2 {
      DashReads([year] + [date[0]], date[1], tail);
      DashReads([year], date[0], Dash(date[1], tail));
      assert [year] + [date[0]] + [date[1]] == [year] + date;
    } else {
      assert [year] + date == [year];
    }
  }

  /** The date part. */
  lemma {:induction false} DateReads(signed: bool, year: int, date: seq<nat>, tail: seq<DateUnit>)
    requires |date| <= 2 && (!signed ==> year >= 0) && |tail| > 0 && (tail[0].TimeFlag? || tail[0].StringEnd?)
    ensures |YearUnits(signed, year, DateUnits(date, tail))| > 0
    ensures IsoDatePart(YearUnits(signed, year, DateUnits(date, tail))) == IsoDate(true, [year] + date, tail)
  {
    TwoDashes(year, date, tail);
    hide DashPart, YearPart, DateUnits;
    YearReads(signed, year, DateUnits(date, tail));
  }

  ghost predicate StartsZone(tail: seq<DateUnit>) {
    |tail| > 0 && !tail[0].IsSymbol(':') && !tail[0].IsSymbol('.')
  }

  lemma {:induction false} SecondReads(time: seq<int>, sec: nat, frac: Option<DateUnit>, tail: seq<DateUnit>)
    requires StartsZone(tail) && (frac.Some? ==> frac.value.Number?)
    ensures var p := IsoSeconds(time, Cons(Number(sec, 2), FractionUnits(frac, tail)));
      if frac.None? then p == Done((time + [sec], tail))
      else match Millis(frac.value)
        case Done(ms) => p == Done((time + [sec] + [ms], tail))
        case Invalid => p == Invalid
        case Overflow => p == Overflow
  {
    hide Millis, Cons, Rest, TokenList;
  }

  lemma {:induction false} ClockReads(t: TimeForm, tail: seq<DateUnit>)
    requires StartsZone(tail) && (t.frac.Some? ==> t.frac.value.Number?)
    ensures var p := IsoClock(ClockUnits(t, tail));
      match ClockMeaning(t)
      case Done(time) => p == Done((time, tail))
      case Invalid => p == Invalid
      case Overflow => p == Overflow
  {
    hide Millis, IsoSeconds, Cons, Rest, TokenList;
    if t.sec.Some? {
      SecondReads([t.hour, t.min], t.sec.value, t.frac, tail);
      assert [t.hour, t.min] + [t.sec.value] == [t.hour, t.min, t.sec.value];
      forall ms: int ensures [t.hour, t.min] + [t.sec.value] + [ms] == [t.hour, t.min, t.sec.value, ms] {}
    }
  }

  lemma {:induction false} ZoneReads(z: ZoneForm, tail: seq<DateUnit>)
    requires TailOk(z, tail)
    ensures StartsZone(ZoneUnits(z, tail)) && IsoZone(ZoneUnits(z, tail)) == Done(ZoneMeaning(z))
  {
    hide Cons, Rest, TokenList;
  }

  ghost predicate TimeTail(t: Option<TimeForm>, tail: seq<DateUnit>) {
    TailOk(if t.None? then NoZone else t.value.zone, tail)
  }

  /** The time part. */
  lemma {:induction false} TimeReads(t: Option<TimeForm>, tail: seq<DateUnit>)
    requires TimeOk(t) && TimeTail(t, tail)
    ensures var ts := TimeUnits(t, tail); |ts| > 0 && (ts[0].TimeFlag? || ts[0].StringEnd?)
    ensures IsoTimePart(TimeUnits(t, tail)) == TimeMeaning(t)
  {
    hide IsoClock, IsoZone, ZoneUnits, ClockMeaning, StartsZone, SecondUnits, Cons, Rest, TokenList;
    if t.Some? {
      ZoneReads(t.value.zone, tail);
      ClockReads(t.value, ZoneUnits(t.value.zone, tail));
    }
  }

  /** Every text of the grammar parses to what it means. */
  lemma {:induction false} FormReads(f: IsoForm, tail: seq<DateUnit>)
    requires FormOk(f) && TimeTail(f.time, tail)
    ensures |FormUnits(f, tail)| > 0 && ParseTokens(FormUnits(f, tail)) == Meaning(f)
  {
    hide IsoDatePart, IsoTimePart, YearUnits, DateUnits, TimeUnits, Finish, TimeMeaning, TimeTail, TimeOk;
    TimeReads(f.time, tail);
    DateReads(f.signed, f.year, f.date, TimeUnits(f.time, tail));
  }

  // ----- and only these -----

  lemma Uncons(ts: seq<DateUnit>)
    requires TokenList(ts) && !ts[0].StringEnd?
    ensures |ts| > 1 && ts == Cons(ts[0], Rest(ts)) && TokenList(Rest(ts)) && |Rest(ts)| > 0
  {
  }

  lemma {:induction false} YearForm(ts: seq<DateUnit>) returns (signed: bool, year: int)
    requires TokenList(ts) && YearPart(ts).ok
    ensures (!signed ==> year >= 0) && ts == YearUnits(signed, year, YearPart(ts).rest)
    ensures YearPart(ts).day == [year] && TokenList(YearPart(ts).rest)
  {
    Uncons(ts);
    signed, year := ts[0].IsSign(), YearPart(ts).day[0];
    if signed { Uncons(Rest(ts)); }
    hide Cons, Rest, TokenList;
  }

  lemma {:induction false} DashForm(d: IsoDate) returns (date: seq<nat>)
    requires d.ok && TokenList(d.rest) && |d.rest| > 0 && DashPart(d).ok
    ensures |date| <= 1 && d.rest == DateUnits(date, DashPart(d).rest) && TokenList(DashPart(d).rest)
    ensures DashPart(d).day == d.day + date && (date == [] ==> !d.rest[0].IsSymbol('-'))
  {
    if d.rest[0].IsSymbol('-') {
      Uncons(d.rest);
      Uncons(Rest(d.rest));
      date := [Rest(d.rest)[0].value];
    } else {
      date := [];
    }
    hide Cons, Rest, TokenList;
  }

  lemma {:induction false} DateForm(ts: seq<DateUnit>) returns (signed: bool, year: int, date: seq<nat>)
    requires TokenList(ts) && |ts| > 0 && IsoDatePart(ts).ok
    ensures (!signed ==> year >= 0) && |date| <= 2
    ensures ts == YearUnits(signed, year, DateUnits(date, IsoDatePart(ts).rest)) && TokenList(IsoDatePart(ts).rest)
  {
    hide YearUnits, TokenList, Cons, Rest;
    var y := YearPart(ts);
    signed, year := YearForm(ts);
    var m := DashForm(y);
    var d := DashForm(DashPart(y));
    date := m + d;
    TwoDateUnits(m, d, IsoDatePart(ts).rest, y);
  }

  lemma {:induction false} TwoDateUnits(m: seq<nat>, d: seq<nat>, rest: seq<DateUnit>, y: IsoDate)
    requires |m| <= 1 && |d| <= 1 && |rest| > 0 && |y.rest| > 0 && (m == [] ==> !y.rest[0].IsSymbol('-'))
    requires y.rest == DateUnits(m, DateUnits(d, rest))
    ensures y.rest == DateUnits(m + d, rest)
  {
    hide Cons, Rest, TokenList;
  }

  lemma {:induction false} ZoneFormOf(ts: seq<DateUnit>) returns (z: ZoneForm, tail: seq<DateUnit>)
    requires TokenList(ts) && |ts| > 0 && IsoZone(ts).Done?
    ensures ts == ZoneUnits(z, tail) && TailOk(z, tail)
  {
    hide Cons, Rest, TokenList;
    if ts[0].StringEnd? { return NoZone, ts; }
    Uncons(ts);
    var h := Rest(ts);
    if ts[0].IsWordZ() { return Zulu, h; }
    Uncons(h);
    var minus := ts[0].IsSymbol('-');
    if h[0].IsNumberOf(4) { return Packed(minus, h[0].value), Rest(h); }
    var c := Rest(h);
    Uncons(c);
    Uncons(Rest(c));
    return Colon(minus, h[0].value, Rest(c)[0].value), Rest(Rest(c));
  }

  lemma {:induction false} SecondsFormOf(ts: seq<DateUnit>, time: seq<int>) returns (sec: nat, frac: Option<DateUnit>)
    requires TokenList(ts) && |ts| > 0 && IsoSeconds(time, ts).Done?
    ensures frac.Some? ==> frac.value.Number?
    ensures var tail := IsoSeconds(time, ts).value.1; ts == Cons(Number(sec, 2), FractionUnits(frac, tail)) && TokenList(tail)
  {
    hide Millis;
    Uncons(ts);
    var dot := Rest(ts);
    sec := ts[0].value;
    if dot[0].IsSymbol('.') {
      Uncons(dot);
      Uncons(Rest(dot));
      frac := Some(Rest(dot)[0]);
    } else {
      frac := None;
    }
    hide Cons, Rest, TokenList;
  }

  lemma {:induction false} ClockFormOf(ts: seq<DateUnit>) returns (t: TimeForm)
    requires TokenList(ts) && |ts| > 0 && IsoClock(ts).Done?
    ensures t.frac.Some? ==> t.sec.Some? && t.frac.value.Number?
    ensures var tail := IsoClock(ts).value.1; ts == ClockUnits(t, tail) && TokenList(tail)
  {
    hide IsoSeconds;
    Uncons(ts);
    var c := Rest(ts);
    Uncons(c);
    var m := Rest(c);
    Uncons(m);
    var s := Rest(m);
    t := TimeForm(ts[0].value, m[0].value, None, None, NoZone);
    if s[0].IsSymbol(':') {
      Uncons(s);
      hide Cons, Rest, TokenList;
      var sec, frac := SecondsFormOf(Rest(s), [ts[0].value, m[0].value]);
      t := t.(sec := Some(sec), frac := frac);
    }
    hide Cons, Rest, TokenList;
  }

  lemma {:induction false} TimeFormOf(ts: seq<DateUnit>) returns (t: Option<TimeForm>, tail: seq<DateUnit>)
    requires TokenList(ts) && |ts| > 0 && (ts[0].TimeFlag? || ts[0].StringEnd?) && IsoTimePart(ts).Done?
    ensures TimeOk(t) && TimeTail(t, tail) && ts == TimeUnits(t, tail)
  {
    hide Cons, Rest, TokenList, IsoClock, IsoZone, ClockUnits, ZoneUnits;
    if ts[0].StringEnd? { return None, ts; }
    Uncons(ts);
    var c, rest := ClockZoneOf(Rest(ts));
    t, tail := Some(c), rest;
  }

  lemma {:induction false} ClockZoneOf(ts: seq<DateUnit>) returns (t: TimeForm, tail: seq<DateUnit>)
    requires TokenList(ts) && |ts| > 0 && IsoClock(ts).Done? && IsoZone(IsoClock(ts).value.1).Done?
    ensures TimeOk(Some(t)) && TailOk(t.zone, tail) && ts == ClockUnits(t, ZoneUnits(t.zone, tail))
  {
    hide Cons, Rest, TokenList, IsoClock, IsoZone, ClockUnits, ZoneUnits, TailOk;
    var c := ClockFormOf(ts);
    var z, rest := ZoneFormOf(IsoClock(ts).value.1);
    t, tail := c.(zone := z), rest;
    SameClock(c, z, IsoClock(ts).value.1);
  }

  lemma {:induction false} SameClock(t: TimeForm, z: ZoneForm, tail: seq<DateUnit>)
    ensures ClockUnits(t, tail) == ClockUnits(t.(zone := z), tail)
  {
    hide Cons, SecondUnits, TokenList;
  }

  ghost predicate TakesIsoPath(ts: seq<DateUnit>)
    requires |ts| > 0
  {
    IsoDatePart(ts).ok && IsoTimePart(IsoDatePart(ts).rest).Done?
  }

  /** Whatever takes the ISO path is a text of the grammar, so its fields are what that text means. */
  lemma {:induction false} IsoFormOf(ts: seq<DateUnit>) returns (f: IsoForm, tail: seq<DateUnit>)
    requires TokenList(ts) && |ts| > 0 && TakesIsoPath(ts)
    ensures FormOk(f) && TimeTail(f.time, tail) && ts == FormUnits(f, tail) && ParseTokens(ts) == Meaning(f)
  {
    hide IsoDatePart, IsoTimePart, ParseTokens, Meaning, TokenList, FormUnits, FormOk, TimeTail;
    IsoDateEnd(ts);
    f, tail := FormOfParts(ts, IsoDatePart(ts).rest);
    FormReads(f, tail);
  }

  lemma {:induction false} FormOfParts(ts: seq<DateUnit>, rest: seq<DateUnit>) returns (f: IsoForm, tail: seq<DateUnit>)
    requires TokenList(ts) && |ts| > 0 && IsoDatePart(ts).ok && rest == IsoDatePart(ts).rest
    requires (rest[0].TimeFlag? || rest[0].StringEnd?) && IsoTimePart(rest).Done?
    ensures FormOk(f) && TimeTail(f.time, tail) && ts == FormUnits(f, tail)
  {
    hide IsoDatePart, IsoTimePart, TokenList, TimeUnits, DateUnits, YearUnits, TimeOk, TimeTail;
    var signed, year, date := DateForm(ts);
    var time, t := TimeFormOf(rest);
    f, tail := IsoForm(signed, year, date, time), t;
  }

  lemma {:induction false} IsoDateEnd(ts: seq<DateUnit>)
    requires |ts| > 0 && IsoDatePart(ts).ok
    ensures var r := IsoDatePart(ts).rest; |r| > 0 && (r[0].TimeFlag? || r[0].StringEnd?)
  {
    hide DashPart, YearPart;
  }
}
