/** Parsing a date string: the ISO format, the legacy formats and the checks on the fields. */
module DateParser {
  import opened Common
  import opened DateTokens

  const TIME_LEN: nat := 4
  const DAY_LEN: nat := 3
  const SEC_PER_HOUR: int := 3600
  const SEC_PER_MINUTE: int := 60
  const MONTH_PER_YEAR: int := 12
  const MAX_DAYS_MONTH: int := 31

  // An unset zone has the hour INT_MAX and means local time.
  datatype Zone = Zone(sign: int, hour: int, min: int)

  const LOCAL: Zone := Zone(INT_MAX, INT_MAX, INT_MAX)
  const UTC: Zone := Zone(1, 0, 0)

  // What has been collected from the tokens so far.
  datatype State = State(day: seq<int>, month: int, time: seq<int>, zone: Zone, hasNumber: bool)

  datatype Fields = Fields(year: int, month: int, day: int, hour: int, min: int, sec: int, ms: int, zone: int)

  // Overflow: the divisor of an overlong fraction exceeds an int.
  datatype Parse<+T> = Done(value: T) | Invalid | Overflow

  predicate IsBetween(n: int, lower: int, high: int) { lower <= n <= high }
  predicate HourIsValid(n: int) { IsBetween(n, 0, 24) }
  predicate MinuteIsValid(n: int) { IsBetween(n, 0, 59) }
  predicate SecondIsValid(n: int) { IsBetween(n, 0, 59) }
  predicate MilliSecondIsValid(n: int) { IsBetween(n, 0, 999) }
  predicate MonthIsValid(n: int) { IsBetween(n, 1, MONTH_PER_YEAR) }
  predicate DayIsValid(n: int) { IsBetween(n, 1, MAX_DAYS_MONTH) }

  // ----- fractions of a second -----

  /** A fraction of len digits in milliseconds, rest cut off; beyond 12 digits the divisor is no int. */
  ghost function Millis(u: DateUnit): (ms: Parse<int>)
    requires u.Number?
  {
    if u.len == 0 then Done(u.value)
    else if u.len <= 3 then Done(u.value * Pow10(3 - u.len))
    else if u.len <= 12 then Done(u.value / Pow10(u.len - 3))
    else Overflow
  }

  method NormMilliSecond(u: DateUnit) returns (ms: Parse<int>)
    requires u.Number?
    ensures ms == Millis(u)
  {
    var len, value := u.len, u.value;
    assert Pow10(0) == 1 && Pow10(1) == 10 && Pow10(2) == 100;
    if len == 3 { return Done(value); }
    if len == 2 { return Done(value * 10); }
    if len == 1 { return Done(value * 100); }
    var divisor := 1;
    TenDigits();
    hide Pow10;
    while len > 3
      invariant len <= u.len && (len >= 3 || len == u.len) && divisor == Pow10(u.len - len) <= INT_MAX
    {
      NextPower(u.len - len);
      if divisor * 10 > INT_MAX {
        if u.len <= 12 { Pow10Monotone(u.len - len + 1, 9); }
        return Overflow;
      }
      divisor := divisor * 10;
      len := len - 1;
    }
    if u.len > 12 { Pow10Monotone(10, u.len - 3); }
    return Done(value / divisor);
  }

  lemma {:induction false} TenDigits()
    ensures Pow10(9) == 1_000_000_000 && Pow10(10) == 10_000_000_000
  {
    assert Pow10(5) == 100_000;
  }

  lemma NextPower(k: nat)
    ensures Pow10(k + 1) == Pow10(k) * 10
  {
  }

  // ----- the ISO format -----

  // How far the date part got, and the numbers it has collected even when it fails.
  datatype IsoDate = IsoDate(ok: bool, day: seq<int>, rest: seq<DateUnit>)

  /** A sign and six digits, or four digits. */
  ghost function YearPart(ts: seq<DateUnit>): (d: IsoDate)
    requires |ts| > 0
    ensures 0 < |d.rest| <= |ts| && |d.day| <= 1
  {
    if ts[0].IsSign() then
      var r := Rest(ts);
      if !r[0].IsNumberOf(6) then IsoDate(false, [], r)
      else if ts[0].IsSymbol('-') && r[0].value == 0 then IsoDate(false, [], Rest(r))
      else IsoDate(true, [if ts[0].IsSymbol('-') then 0 - r[0].value else r[0].value], Rest(r))
    else if ts[0].IsNumberOf(4) then IsoDate(true, [ts[0].value], Rest(ts))
    else IsoDate(false, [], ts)
  }

  /** A dash and two digits, if there is a dash. */
  ghost function DashPart(d: IsoDate): (e: IsoDate)
    requires |d.rest| > 0
    ensures 0 < |e.rest| <= |d.rest| && |d.day| <= |e.day| <= |d.day| + 1
  {
    if !d.ok || !d.rest[0].IsSymbol('-') then d
    else
      var r := Rest(d.rest);
      if !r[0].IsNumberOf(2) then d.(ok := false, rest := r)
      else IsoDate(true, d.day + [r[0].value], Rest(r))
  }

  ghost function IsoDatePart(ts: seq<DateUnit>): (d: IsoDate)
    requires |ts| > 0
    ensures 0 < |d.rest| <= |ts| && |d.day| <= 3
  {
    var d := DashPart(DashPart(YearPart(ts)));
    if d.ok && !d.rest[0].TimeFlag? && !d.rest[0].StringEnd? then d.(ok := false) else d
  }

  /** HH:mm, then perhaps :ss, then perhaps a fraction. */
  ghost function IsoClock(ts: seq<DateUnit>): (p: Parse<(seq<int>, seq<DateUnit>)>)
    requires |ts| > 0
    ensures p.Done? ==> 2 <= |p.value.0| <= 4 && 0 < |p.value.1| <= |ts|
  {
    var c := Rest(ts); var m := Rest(c); var s := Rest(m);
    if !ts[0].IsNumberOf(2) || !c[0].IsSymbol(':') || !m[0].IsNumberOf(2) then Invalid
    else if !s[0].IsSymbol(':') then Done(([ts[0].value, m[0].value], s))
    else IsoSeconds([ts[0].value, m[0].value], Rest(s))
  }

  ghost function IsoSeconds(time: seq<int>, ts: seq<DateUnit>): (p: Parse<(seq<int>, seq<DateUnit>)>)
    requires |ts| > 0
    ensures p.Done? ==> |time| + 1 <= |p.value.0| <= |time| + 2 && 0 < |p.value.1| <= |ts|
  {
    if !ts[0].IsNumberOf(2) then Invalid else IsoFraction(time + [ts[0].value], Rest(ts))
  }

  /** A point and the fraction of a second, if there is a point. */
  ghost function IsoFraction(time: seq<int>, ts: seq<DateUnit>): (p: Parse<(seq<int>, seq<DateUnit>)>)
    requires |ts| > 0
    ensures p.Done? ==> |time| <= |p.value.0| <= |time| + 1 && 0 < |p.value.1| <= |ts|
  {
    var f := Rest(ts);
    if !ts[0].IsSymbol('.') then Done((time, ts))
    else if !f[0].Number? then Invalid
    else match Millis(f[0])
      case Done(ms) => Done((time + [ms], Rest(f)))
      case Overflow => Overflow
      case Invalid => Invalid
  }

  function SignOf(u: DateUnit): (s: int) { if u.IsSymbol('-') then -1 else 1 }

  /** Z, a signed offset hh:mm or hhmm, or nothing at all; what follows a zone is not looked at. */
  ghost function IsoZone(ts: seq<DateUnit>): (p: Parse<Zone>)
    requires |ts| > 0
  {
    if ts[0].IsWordZ() then Done(UTC)
    else if ts[0].IsSign() then
      var h := Rest(ts); var c := Rest(h); var m := Rest(c);
      if h[0].IsNumberOf(2) then
        if c[0].IsSymbol(':') && m[0].IsNumberOf(2) then Done(Zone(SignOf(ts[0]), h[0].value, m[0].value)) else Invalid
      else if h[0].IsNumberOf(4) then Done(Zone(SignOf(ts[0]), h[0].value / 100, h[0].value % 100))
      else Invalid
    else if ts[0].StringEnd? then Done(LOCAL)
    else Invalid
  }

  /** The time part; without one the date is in UTC. */
  ghost function IsoTimePart(ts: seq<DateUnit>): (p: Parse<(seq<int>, Zone)>)
    requires |ts| > 0
  {
    if !ts[0].TimeFlag? then Done(([], UTC))
    else match IsoClock(Rest(ts))
      case Done(c) => (match IsoZone(c.1)
        case Done(z) => Done((c.0, z))
        case Invalid => Invalid
        case Overflow => Overflow)
      case Invalid => Invalid
      case Overflow => Overflow
  }

  // ----- the legacy formats -----

  ghost predicate IsValidTime(time: seq<int>, n: int) {
    (|time| == 1 && MinuteIsValid(n)) || (|time| == 2 && SecondIsValid(n))
  }

  /** What a number stands for depends on what follows it and on what has been collected. */
  ghost function NumberStep(ts: seq<DateUnit>, st0: State): (p: Parse<(seq<DateUnit>, State)>)
    requires |ts| > 1 && ts[0].Number?
    ensures p.Done? ==> 0 < |p.value.0| < |ts|
  {
    var num, r, st := ts[0].value, Rest(ts), st0.(hasNumber := true);
    var n := Rest(r);
    if r[0].IsSymbol(':') then
      if !n[0].Number? || |st.time| >= TIME_LEN then Invalid
      else Done((n, st.(time := st.time + [num])))
    else if r[0].IsSymbol('.') && |st.time| == 2 && SecondIsValid(num) then
      if !n[0].Number? then Invalid
      else match Millis(n[0])
        case Done(ms) => if Rest(n)[0].IsValidFinallyTime() then Done((Rest(n), st.(time := st.time + [num, ms]))) else Invalid
        case Overflow => Overflow
        case Invalid => Invalid
    else if IsValidTime(st.time, num) then
      if r[0].IsValidFinallyTime() then Done((r, st.(time := st.time + [num]))) else Invalid
    else if |st.day| >= DAY_LEN then Invalid
    else Done((r, st.(day := st.day + [num])))
  }

  /** A sign after a time or after UTC starts an offset: hh:mm, h, hh, hmm or hhmm. */
  ghost function OffsetStep(ts: seq<DateUnit>, st: State): (p: Parse<(seq<DateUnit>, State)>)
    requires |ts| > 1
    ensures p.Done? ==> 0 < |p.value.0| < |ts|
  {
    var h := Rest(ts); var c := Rest(h); var m := Rest(c); var sign := SignOf(ts[0]);
    if !h[0].Number? then Invalid
    else if c[0].IsSymbol(':') then
      if m[0].Number? then Done((Rest(m), st.(zone := Zone(sign, h[0].value, m[0].value)))) else Invalid
    else if h[0].len == 1 || h[0].len == 2 then Done((c, st.(zone := Zone(sign, h[0].value, 0))))
    else if h[0].len == 3 || h[0].len == 4 then Done((c, st.(zone := Zone(sign, h[0].value / 100, h[0].value % 100))))
    else Invalid
  }

  predicate IsUTC(z: Zone) { z.hour == 0 && z.min == 0 }

  ghost function LegacyStep(ts: seq<DateUnit>, st: State): (p: Parse<(seq<DateUnit>, State)>)
    requires |ts| > 1
    ensures p.Done? ==> 0 < |p.value.0| < |ts|
  {
    var u, r := ts[0], Rest(ts);
    if u.Number? then NumberStep(ts, st)
    else if u.Month? then Done((r, st.(month := u.month)))
    else if u.TimeZoneWord? && st.hasNumber then Done((r, st.(zone := UTC)))
    else if u.TimeFlag? || u.InvalidWord? then
      if st.hasNumber || r[0].Number? then Invalid else Done((r, st))
    else if u.IsSign() && (|st.time| > 0 || IsUTC(st.zone)) then OffsetStep(ts, st)
    else Done((r, st))
  }

  /** Consumes the tokens one after the other, until the end. */
  ghost function Legacy(ts: seq<DateUnit>, st: State): (p: Parse<State>)
    requires |ts| > 0
    decreases |ts|
  {
    if |ts| == 1 then Done(st)
    else match LegacyStep(ts, st)
      case Done(next) => Legacy(next.0, next.1)
      case Invalid => Invalid
      case Overflow => Overflow
  }

  // ----- the fields -----

  ghost function ZoneField(z: Zone): (f: Option<int>) {
    if z.hour == INT_MAX then Some(INT_MAX)
    else if !HourIsValid(z.hour) || !MinuteIsValid(z.min) then None
    else Some(z.sign * (z.hour * SEC_PER_HOUR + z.min * SEC_PER_MINUTE))
  }

  ghost function At(s: seq<int>, i: nat, default: int): (n: int) { if i < |s| then s[i] else default }

  ghost predicate TimeIsValid(time: seq<int>) {
    var h, m, s, ms := At(time, 0, 0), At(time, 1, 0), At(time, 2, 0), At(time, 3, 0);
    if h == 24 then m == 0 && s == 0 && ms == 0
    else HourIsValid(h) && MinuteIsValid(m) && SecondIsValid(s) && MilliSecondIsValid(ms)
  }

  datatype Day = Day(year: int, month: int, day: int)

  /** Which of the numbers is the year, the month and the day. */
  ghost function DayOrder(day: seq<int>, month: int, iso: bool): (d: Day) {
    var a, b, c, full := At(day, 0, 1), At(day, 1, 1), At(day, 2, 1), |day| == DAY_LEN;
    if month == INT_MAX then
      if full && !iso && !(DayIsValid(c) && !MonthIsValid(a)) then Day(c, a, b) else Day(a, b, c)
    else if |day| == 2 then
      if DayIsValid(a) then Day(b, month, a) else Day(a, month, b)
    else Day(1, month, a)
  }

  ghost function Century(year: int, iso: bool): (y: int) {
    if iso then year else if 0 <= year <= 49 then year + 2000 else if 50 <= year <= 99 then year + 1900 else year
  }

  ghost function DayFields(day: seq<int>, month: int, iso: bool): (f: Option<Day>) {
    var d := DayOrder(day, month, iso);
    if |day| == 0 || (month != INT_MAX && |day| == DAY_LEN) || !MonthIsValid(d.month) || !DayIsValid(d.day) then None
    else Some(Day(Century(d.year, iso), d.month - 1, d.day))
  }

  ghost function Finish(st: State, iso: bool): (f: Parse<Fields>) {
    var zone, d := ZoneField(st.zone), DayFields(st.day, st.month, iso);
    if zone.None? || !TimeIsValid(st.time) || d.None? then Invalid
    else Done(Fields(d.value.year, d.value.month, d.value.day,
      At(st.time, 0, 0), At(st.time, 1, 0), At(st.time, 2, 0), At(st.time, 3, 0), zone.value))
  }

  ghost function StartOf(day: seq<int>): (st: State) { State(day, INT_MAX, [], LOCAL, |day| > 0) }

  /** What a token list collects, and whether it does so by the ISO path. */
  ghost function Collect(ts: seq<DateUnit>): (p: Parse<(State, bool)>)
    requires |ts| > 0
  {
    var d := IsoDatePart(ts);
    if d.ok then
      match IsoTimePart(d.rest)
      case Done(t) => Done((StartOf(d.day).(time := t.0, zone := t.1), true))
      case Invalid => Invalid
      case Overflow => Overflow
    else
      match Legacy(d.rest, StartOf(d.day))
      case Done(st) => Done((st, false))
      case Invalid => Invalid
      case Overflow => Overflow
  }

  /** The fields of a token list. */
  ghost function ParseTokens(ts: seq<DateUnit>): (f: Parse<Fields>)
    requires |ts| > 0
  {
    match Collect(ts)
    case Done(c) => Finish(c.0, c.1)
    case Invalid => Invalid
    case Overflow => Overflow
  }

  // ----- the parser -----

  class TimeZone {
    var sign: int
    var hour: int
    var min: int

    ghost function Value(): (z: Zone) reads this { Zone(sign, hour, min) }

    constructor ()
      ensures Value() == LOCAL
    {
      sign, hour, min := INT_MAX, INT_MAX, INT_MAX;
    }

    method Set(sign: int, hour: int, min: int)
      modifies this
      ensures Value() == Zone(sign, hour, min)
    {
      this.sign, this.hour, this.min := sign, hour, min;
    }
  }

  class TimeValue {
    var data: seq<int>

    ghost predicate Valid() reads this { |data| <= TIME_LEN }

    constructor ()
      ensures data == []
    {
      data := [];
    }

    method SetData(n: int) returns (ok: bool)
      requires Valid()
      modifies this
      ensures Valid() && ok == (|old(data)| < TIME_LEN) && data == old(data) + (if ok then [n] else [])
    {
      if |data| < TIME_LEN {
        data := data + [n];
        return true;
      }
      return false;
    }
  }

  class DayValue {
    var data: seq<int>
    var month: int
    var isIsoFlag: bool

    ghost predicate Valid() reads this { |data| <= DAY_LEN }

    constructor ()
      ensures data == [] && month == INT_MAX && !isIsoFlag
    {
      data, month, isIsoFlag := [], INT_MAX, false;
    }

    method SetData(n: int) returns (ok: bool)
      requires Valid()
      modifies this`data
      ensures Valid() && ok == (|old(data)| < DAY_LEN) && data == old(data) + (if ok then [n] else [])
    {
      if |data| < DAY_LEN {
        data := data + [n];
        return true;
      }
      return false;
    }
  }

  /** Reads the date part of the ISO format; on failure what was read stays read. */
  method IsIsoDateTime(proxy: DateProxy, dayValue: DayValue) returns (ok: bool)
    requires proxy.Valid() && dayValue.data == []
    modifies proxy, proxy.str, dayValue`data
    ensures proxy.Valid() && dayValue.Valid()
    ensures IsoDate(ok, dayValue.data, proxy.View()) == IsoDatePart(old(proxy.View()))
  {
    hide Tokens, TokenList;
    ghost var ts := proxy.View();
    if proxy.date.IsSign() {
      var sign := proxy.NextDate();
      if !proxy.date.IsNumberOf(6) { return false; }
      var unit := proxy.NextDate();
      var signYear: int := unit.value;
      if sign.IsSymbol('-') && signYear == 0 { return false; }
      if sign.IsSymbol('-') { signYear := -signYear; }
      var _ := dayValue.SetData(signYear);
    } else if proxy.date.IsNumberOf(4) {
      var year := proxy.NextDate();
      var _ := dayValue.SetData(year.value);
    } else {
      return false;
    }
    ok := ReadDash(proxy, dayValue, YearPart(ts));
    if ok { ok := ReadDash(proxy, dayValue, DashPart(YearPart(ts))); }
    if ok && !proxy.date.TimeFlag? && !proxy.date.StringEnd? { ok := false; }
  }

  /** Reads a dash and two digits, if there is a dash. */
  method ReadDash(proxy: DateProxy, dayValue: DayValue, ghost d: IsoDate) returns (ok: bool)
    requires proxy.Valid() && |dayValue.data| < DAY_LEN && d == IsoDate(true, dayValue.data, proxy.View())
    modifies proxy, proxy.str, dayValue`data
    ensures proxy.Valid() && dayValue.Valid()
    ensures IsoDate(ok, dayValue.data, proxy.View()) == DashPart(d)
  {
    hide Tokens, TokenList;
    if !proxy.date.IsSymbol('-') { return true; }
    var _ := proxy.NextDate();
    if !proxy.date.IsNumberOf(2) { return false; }
    var number := proxy.NextDate();
    var _ := dayValue.SetData(number.value);
    return true;
  }

  /** Reads HH:mm, then perhaps :ss, then perhaps a fraction. */
  method ReadClock(proxy: DateProxy, timeValue: TimeValue) returns (r: Parse<()>)
    requires proxy.Valid() && timeValue.data == []
    modifies proxy, proxy.str, timeValue
    ensures proxy.Valid() && timeValue.Valid()
    ensures match IsoClock(old(proxy.View()))
      case Done(c) => r.Done? && timeValue.data == c.0 && proxy.View() == c.1
      case Invalid => r.Invalid?
      case Overflow => r.Overflow?
  {
    hide Tokens, TokenList, Millis, IsoSeconds;
    ghost var ts := proxy.View();
    if !proxy.date.IsNumberOf(2) { return Invalid; }
    var hour := proxy.NextDate();
    if !proxy.date.IsSymbol(':') { return Invalid; }
    var _ := proxy.NextDate();
    if !proxy.date.IsNumberOf(2) { return Invalid; }
    var min := proxy.NextDate();
    var _ := timeValue.SetData(hour.value);
    var _ := timeValue.SetData(min.value);
    assert timeValue.data == [hour.value, min.value];
    if !proxy.date.IsSymbol(':') { return Done(()); }
    var _ := proxy.NextDate();
    r := ReadSeconds(proxy, timeValue);
  }

  method ReadSeconds(proxy: DateProxy, timeValue: TimeValue) returns (r: Parse<()>)
    requires proxy.Valid() && |timeValue.data| == 2
    modifies proxy, proxy.str, timeValue
    ensures proxy.Valid() && timeValue.Valid()
    ensures match IsoSeconds(old(timeValue.data), old(proxy.View()))
      case Done(c) => r.Done? && timeValue.data == c.0 && proxy.View() == c.1
      case Invalid => r.Invalid?
      case Overflow => r.Overflow?
  {
    hide Tokens, TokenList, Millis, IsoFraction;
    if !proxy.date.IsNumberOf(2) { return Invalid; }
    var second := proxy.NextDate();
    var _ := timeValue.SetData(second.value);
    r := ReadIsoFraction(proxy, timeValue);
  }

  method ReadIsoFraction(proxy: DateProxy, timeValue: TimeValue) returns (r: Parse<()>)
    requires proxy.Valid() && |timeValue.data| < TIME_LEN
    modifies proxy, proxy.str, timeValue
    ensures proxy.Valid() && timeValue.Valid()
    ensures match IsoFraction(old(timeValue.data), old(proxy.View()))
      case Done(c) => r.Done? && timeValue.data == c.0 && proxy.View() == c.1
      case Invalid => r.Invalid?
      case Overflow => r.Overflow?
  {
    hide Tokens, TokenList, Millis;
    if !proxy.date.IsSymbol('.') { return Done(()); }
    var _ := proxy.NextDate();
    if !proxy.date.Number? { return Invalid; }
    var milliSec := proxy.NextDate();
    var ms := NormMilliSecond(milliSec);
    if ms.Invalid? { return Invalid; }
    if ms.Overflow? { return Overflow; }
    var _ := timeValue.SetData(ms.value);
    return Done(());
  }

  /** Reads the zone. */
  method ReadZone(proxy: DateProxy, timeZone: TimeZone) returns (ok: bool)
    requires proxy.Valid() && timeZone.Value() == LOCAL
    modifies proxy, proxy.str, timeZone
    ensures ok == IsoZone(old(proxy.View())).Done? && !IsoZone(old(proxy.View())).Overflow?
    ensures ok ==> timeZone.Value() == IsoZone(old(proxy.View())).value
  {
    hide Tokens, TokenList;
    if proxy.date.IsWordZ() {
      timeZone.Set(1, 0, 0);
      var _ := proxy.NextDate();
      return true;
    }
    if !proxy.date.IsSign() { return proxy.date.StringEnd?; }
    var sign := proxy.NextDate();
    if proxy.date.IsNumberOf(2) {
      var hourZone := proxy.NextDate();
      if !proxy.date.IsSymbol(':') { return false; }
      var _ := proxy.NextDate();
      if !proxy.date.IsNumberOf(2) { return false; }
      var minZone := proxy.NextDate();
      timeZone.Set(SignOf(sign), hourZone.value, minZone.value);
      return true;
    }
    if !proxy.date.IsNumberOf(4) { return false; }
    var hourZone := proxy.NextDate();
    timeZone.Set(SignOf(sign), hourZone.value / 100, hourZone.value % 100);
    return true;
  }

  method ParseIsoDateTime(proxy: DateProxy, dayValue: DayValue, timeValue: TimeValue, timeZone: TimeZone) returns (r: Parse<()>)
    requires proxy.Valid() && timeValue.data == [] && timeZone.Value() == LOCAL
    modifies proxy, proxy.str, dayValue`isIsoFlag, timeValue, timeZone
    ensures timeValue.Valid()
    ensures match IsoTimePart(old(proxy.View()))
      case Done(t) => r.Done? && timeValue.data == t.0 && timeZone.Value() == t.1 && dayValue.isIsoFlag
      case Invalid => r.Invalid?
      case Overflow => r.Overflow?
  {
    hide Tokens, TokenList, IsoClock, IsoZone;
    if proxy.date.TimeFlag? {
      var _ := proxy.NextDate();
      r := ReadClock(proxy, timeValue);
      if !r.Done? { return; }
      var ok := ReadZone(proxy, timeZone);
      if !ok { return Invalid; }
    }
    if timeZone.hour == INT_MAX && |timeValue.data| == 0 { timeZone.Set(1, 0, 0); }
    dayValue.isIsoFlag := true;
    return Done(());
  }


  ghost function StateOf(dayValue: DayValue, timeValue: TimeValue, timeZone: TimeZone, hasNumber: bool): (st: State)
    reads dayValue, timeValue, timeZone
  {
    State(dayValue.data, dayValue.month, timeValue.data, timeZone.Value(), hasNumber)
  }

  /** What a step that read from tokens ts in state st must have left behind. */
  ghost predicate Stepped(p: Parse<(seq<DateUnit>, State)>, r: Parse<()>, view: seq<DateUnit>, st: State) {
    match p
    case Done(next) => r.Done? && view == next.0 && st == next.1
    case Invalid => r.Invalid?
    case Overflow => r.Overflow?
  }

  /** The number date, just read, becomes a part of the time or of the date. */
  method ReadNumberUnit(date: DateUnit, proxy: DateProxy, dayValue: DayValue, timeValue: TimeValue, timeZone: TimeZone, ghost ts: seq<DateUnit>, ghost st: State)
    returns (r: Parse<()>)
    requires date.Number? && |ts| > 1 && ts[0] == date && proxy.Valid() && proxy.View() == Rest(ts)
    requires dayValue.Valid() && timeValue.Valid() && st.(hasNumber := true) == StateOf(dayValue, timeValue, timeZone, true)
    modifies proxy, proxy.str, dayValue`data, timeValue
    ensures proxy.Valid() && dayValue.Valid() && timeValue.Valid()
    ensures Stepped(NumberStep(ts, st), r, proxy.View(), StateOf(dayValue, timeValue, timeZone, true))
  {
    hide Tokens, TokenList, Millis;
    var num := date.value;
    if proxy.date.IsSymbol(':') {
      var _ := proxy.NextDate();
      if !proxy.date.Number? { return Invalid; }
      var ok := timeValue.SetData(num);
      return if ok then Done(()) else Invalid;
    } else if proxy.date.IsSymbol('.') && |timeValue.data| == 2 && SecondIsValid(num) {
      r := ReadFraction(num, proxy, timeValue);
    } else if (|timeValue.data| == 1 && MinuteIsValid(num)) || (|timeValue.data| == 2 && SecondIsValid(num)) {
      var _ := timeValue.SetData(num);
      return if proxy.date.IsValidFinallyTime() then Done(()) else Invalid;
    } else {
      var ok := dayValue.SetData(num);
      return if ok then Done(()) else Invalid;
    }
  }

  /** Reads a point and the fraction of the second num. */
  method ReadFraction(num: int, proxy: DateProxy, timeValue: TimeValue) returns (r: Parse<()>)
    requires proxy.Valid() && |timeValue.data| == 2
    modifies proxy, proxy.str, timeValue
    ensures proxy.Valid() && timeValue.Valid()
    ensures var n := Rest(old(proxy.View()));
      if !n[0].Number? then r.Invalid?
      else match Millis(n[0])
        case Done(ms) => (if Rest(n)[0].IsValidFinallyTime()
          then r.Done? && proxy.View() == Rest(n) && timeValue.data == old(timeValue.data) + [num, ms] else r.Invalid?)
        case Overflow => r.Overflow?
        case Invalid => r.Invalid?
  {
    hide Tokens, TokenList, Millis;
    var _ := proxy.NextDate();
    var _ := timeValue.SetData(num);
    if !proxy.date.Number? { return Invalid; }
    var milliSec := proxy.date;
    var ms := NormMilliSecond(milliSec);
    if ms.Overflow? { return Overflow; }
    if ms.Invalid? { return Invalid; }
    var _ := timeValue.SetData(ms.value);
    var _ := proxy.NextDate();
    assert timeValue.data == old(timeValue.data) + [num, ms.value];
    return if proxy.date.IsValidFinallyTime() then Done(()) else Invalid;
  }

  /** Reads an offset after its sign. */
  method ReadOffset(sign: DateUnit, proxy: DateProxy, timeZone: TimeZone, ghost ts: seq<DateUnit>, ghost st: State)
    returns (r: Parse<()>)
    requires |ts| > 1 && ts[0] == sign && proxy.Valid() && proxy.View() == Rest(ts)
    modifies proxy, proxy.str, timeZone
    ensures proxy.Valid() && Stepped(OffsetStep(ts, st), r, proxy.View(), st.(zone := timeZone.Value()))
  {
    hide Tokens, TokenList;
    if !proxy.date.Number? { return Invalid; }
    var timeNum := proxy.NextDate();
    if proxy.date.IsSymbol(':') {
      var _ := proxy.NextDate();
      if !proxy.date.Number? { return Invalid; }
      timeZone.Set(SignOf(sign), timeNum.value, proxy.date.value);
      var _ := proxy.NextDate();
      return Done(());
    } else if timeNum.len == 1 || timeNum.len == 2 {
      timeZone.Set(SignOf(sign), timeNum.value, 0);
      return Done(());
    } else if timeNum.len == 3 || timeNum.len == 4 {
      timeZone.Set(SignOf(sign), timeNum.value / 100, timeNum.value % 100);
      return Done(());
    } else {
      return Invalid;
    }
  }

  /** One turn of the legacy loop. */
  method ReadLegacyUnit(date: DateUnit, proxy: DateProxy, dayValue: DayValue, timeValue: TimeValue, timeZone: TimeZone, number: bool, ghost ts: seq<DateUnit>, ghost st: State)
    returns (r: Parse<()>, hasNumber: bool)
    requires |ts| > 1 && ts[0] == date && proxy.Valid() && proxy.View() == Rest(ts)
    requires dayValue.Valid() && timeValue.Valid() && st == StateOf(dayValue, timeValue, timeZone, number)
    modifies proxy, proxy.str, dayValue, timeValue, timeZone
    ensures proxy.Valid() && dayValue.Valid() && timeValue.Valid()
    ensures dayValue.isIsoFlag == old(dayValue.isIsoFlag)
    ensures Stepped(LegacyStep(ts, st), r, proxy.View(), StateOf(dayValue, timeValue, timeZone, hasNumber))
  {
    hide Tokens, TokenList, NumberStep, OffsetStep;
    hasNumber := number;
    if date.Number? {
      hasNumber := true;
      r := ReadNumberUnit(date, proxy, dayValue, timeValue, timeZone, ts, st);
    } else if date.Month? {
      dayValue.month := date.month;
      r := Done(());
    } else if date.TimeZoneWord? && hasNumber {
      timeZone.Set(1, 0, 0);
      r := Done(());
    } else if date.TimeFlag? || date.InvalidWord? {
      r := if hasNumber || proxy.date.Number? then Invalid else Done(());
    } else if date.IsSign() && (|timeValue.data| > 0 || IsUTC(Zone(timeZone.sign, timeZone.hour, timeZone.min))) {
      r := ReadOffset(date, proxy, timeZone, ts, st);
    } else {
      r := Done(());
    }
  }

  method ParseLegacyDates(proxy: DateProxy, dayValue: DayValue, timeValue: TimeValue, timeZone: TimeZone) returns (r: Parse<()>, ghost last: bool)
    requires proxy.Valid() && dayValue.Valid() && timeValue.Valid()
    modifies proxy, proxy.str, dayValue, timeValue, timeZone
    ensures dayValue.Valid() && timeValue.Valid() && dayValue.isIsoFlag == old(dayValue.isIsoFlag)
    ensures match Legacy(old(proxy.View()), old(StateOf(dayValue, timeValue, timeZone, |dayValue.data| > 0)))
      case Done(st) => r.Done? && st == StateOf(dayValue, timeValue, timeZone, last)
      case Invalid => r.Invalid?
      case Overflow => r.Overflow?
  {
    hide Tokens, TokenList, LegacyStep;
    ghost var ts, st := proxy.View(), StateOf(dayValue, timeValue, timeZone, |dayValue.data| > 0);
    ghost var spec := Legacy(ts, st);
    var hasNumber := |dayValue.data| > 0;
    var date := proxy.NextDate();
    while !date.StringEnd?
      invariant |ts| > 0 && TokenList(ts) && date == ts[0] && proxy.Valid() && proxy.View() == Rest(ts)
      invariant dayValue.Valid() && timeValue.Valid() && dayValue.isIsoFlag == old(dayValue.isIsoFlag)
      invariant st == StateOf(dayValue, timeValue, timeZone, hasNumber) && Legacy(ts, st) == spec
      decreases |ts|
    {
      EndIsLast(ts);
      ghost var step := LegacyStep(ts, st);
      r, hasNumber := ReadLegacyUnit(date, proxy, dayValue, timeValue, timeZone, hasNumber, ts, st);
      if !r.Done? { return r, hasNumber; }
      ts, st := step.value.0, step.value.1;
      date := proxy.NextDate();
    }
    EndIsLast(ts);
    return Done(()), hasNumber;
  }

  // ----- setting the fields -----

  // Places in the output: year, month, day, hour, minute, second, millisecond, (weekday,) zone.
  const HOUR: nat := 3
  const TIMEZONE: nat := 8
  const DATE_LENGTH: nat := 9

  method SetTimeZone(timeZone: TimeZone, time: array<int>) returns (ok: bool)
    requires time.Length == DATE_LENGTH
    modifies time
    ensures var f := ZoneField(timeZone.Value());
      ok == f.Some? && time[..] == if ok then old(time[..])[TIMEZONE := f.value] else old(time[..])
  {
    if timeZone.hour != INT_MAX {
      if !HourIsValid(timeZone.hour) || !MinuteIsValid(timeZone.min) { return false; }
      time[TIMEZONE] := timeZone.sign * (timeZone.hour * SEC_PER_HOUR + timeZone.min * SEC_PER_MINUTE);
    } else {
      time[TIMEZONE] := INT_MAX;
    }
    return true;
  }

  method SetTimeValue(timeValue: TimeValue, time: array<int>) returns (ok: bool)
    requires timeValue.Valid() && time.Length == DATE_LENGTH
    modifies time
    ensures ok == TimeIsValid(timeValue.data)
    ensures forall i :: 0 <= i < DATE_LENGTH ==>
      time[i] == if HOUR <= i < HOUR + TIME_LEN then At(timeValue.data, i - HOUR, 0) else old(time[i])
  {
    for i := 0 to TIME_LEN
      invariant forall j :: 0 <= j < DATE_LENGTH ==>
        time[j] == if HOUR <= j < HOUR + i then At(timeValue.data, j - HOUR, 0) else old(time[j])
    {
      if i < |timeValue.data| {
        time[HOUR + i] := timeValue.data[i];
      } else {
        time[HOUR + i] := 0;
      }
    }
    if time[HOUR] == 24 { return time[HOUR + 1] == 0 && time[HOUR + 2] == 0 && time[HOUR + 3] == 0; }
    return HourIsValid(time[HOUR]) && MinuteIsValid(time[HOUR + 1]) && SecondIsValid(time[HOUR + 2])
      && MilliSecondIsValid(time[HOUR + 3]);
  }

  method SetDayValue(dayValue: DayValue, time: array<int>) returns (ok: bool)
    requires dayValue.Valid() && time.Length == DATE_LENGTH
    modifies time
    ensures var f := DayFields(dayValue.data, dayValue.month, dayValue.isIsoFlag);
      ok == f.Some? && time[..] == if ok then [f.value.year, f.value.month, f.value.day] + old(time[HOUR..]) else old(time[..])
  {
    var index, isFull := |dayValue.data|, |dayValue.data| == DAY_LEN;
    if index == 0 { return false; }
    var data := dayValue.data;
    while |data| < DAY_LEN
      invariant index <= |data| <= DAY_LEN
      invariant forall i :: 0 <= i < |data| ==> data[i] == At(dayValue.data, i, 1)
    {
      data := data + [1];
    }
    var year, mon, day := 1, 1, 1;
    if dayValue.month == INT_MAX {
      if dayValue.isIsoFlag || (isFull && DayIsValid(data[2]) && !MonthIsValid(data[0])) {
        year, mon, day := data[0], data[1], data[2];
      } else if isFull {
        year, mon, day := data[2], data[0], data[1];
      } else {
        year, mon, day := data[0], data[1], data[2];
      }
    } else {
      mon := dayValue.month;
      if isFull { return false; }
      if index == 2 {
        if !DayIsValid(data[0]) {
          year, day := data[0], data[1];
        } else {
          day, year := data[0], data[1];
        }
      } else {
        day := data[0];
      }
    }
    if !dayValue.isIsoFlag {
      if IsBetween(year, 0, 49) { year := year + 2000; } else if IsBetween(year, 50, 99) { year := year + 1900; }
    }
    if !MonthIsValid(mon) || !DayIsValid(day) { return false; }
    time[0], time[1], time[2] := year, mon - 1, day;
    assert time[HOUR..] == old(time[HOUR..]);
    return true;
  }

  /** The output array holds these fields; the weekday is left alone. */
  ghost predicate Shows(time: seq<int>, f: Fields) {
    && |time| == DATE_LENGTH
    && time[0] == f.year && time[1] == f.month && time[2] == f.day && time[3] == f.hour
    && time[4] == f.min && time[5] == f.sec && time[6] == f.ms && time[8] == f.zone
  }

  /** Sets the fields collected, unless they are out of range. */
  method SetFields(dayValue: DayValue, timeValue: TimeValue, timeZone: TimeZone, time: array<int>, ghost st: State)
    returns (success: bool)
    requires dayValue.Valid() && timeValue.Valid() && time.Length == DATE_LENGTH
    requires st == StateOf(dayValue, timeValue, timeZone, st.hasNumber)
    modifies time
    ensures success == Finish(st, dayValue.isIsoFlag).Done? && !Finish(st, dayValue.isIsoFlag).Overflow?
    ensures success ==> Shows(time[..], Finish(st, dayValue.isIsoFlag).value)
  {
    hide ZoneField, TimeIsValid, DayFields;
    success := SetTimeZone(timeZone, time);
    if !success { return; }
    assert time[TIMEZONE] == time[..][TIMEZONE];
    success := SetTimeValue(timeValue, time);
    if !success { return; }
    ghost var was := time[..];
    success := SetDayValue(dayValue, time);
    if success {
      assert forall i :: HOUR <= i < DATE_LENGTH ==> time[..][i] == was[i];
    }
  }

  /** Reads the tokens by the ISO path, or by the legacy path when they are not in that format. */
  method CollectUnits(proxy: DateProxy, dayValue: DayValue, timeValue: TimeValue, timeZone: TimeZone)
    returns (r: Parse<()>, ghost hasNumber: bool)
    requires proxy.Valid() && dayValue.data == [] && dayValue.month == INT_MAX && !dayValue.isIsoFlag
    requires timeValue.data == [] && timeZone.Value() == LOCAL
    modifies proxy, proxy.str, dayValue, timeValue, timeZone
    ensures dayValue.Valid() && timeValue.Valid()
    ensures match Collect(old(proxy.View()))
      case Done(c) => r.Done? && c == (StateOf(dayValue, timeValue, timeZone, hasNumber), dayValue.isIsoFlag)
      case Invalid => r.Invalid?
      case Overflow => r.Overflow?
  {
    hide Tokens, TokenList, IsoDatePart, IsoTimePart, Legacy;
    var isIso := IsIsoDateTime(proxy, dayValue);
    hasNumber := |dayValue.data| > 0;
    if isIso {
      r := ParseIsoDateTime(proxy, dayValue, timeValue, timeZone);
    } else {
      r, hasNumber := ParseLegacyDates(proxy, dayValue, timeValue, timeZone);
    }
  }

  /** Parses a date string into the output array. */
  method ParseDateString(str: string, time: array<int>) returns (r: Parse<()>)
    requires time.Length == DATE_LENGTH
    modifies time
    ensures match ParseTokens(Tokens(str))
      case Done(f) => r.Done? && Shows(time[..], f)
      case Invalid => r.Invalid?
      case Overflow => r.Overflow?
  {
    hide Tokens, TokenList, Collect, Finish, Shows;
    var reader := new StringReader(str);
    var proxy := new DateProxy(reader);
    var dayValue := new DayValue();
    var timeValue := new TimeValue();
    var timeZone := new TimeZone();
    ghost var hasNumber;
    r, hasNumber := CollectUnits(proxy, dayValue, timeValue, timeZone);
    if !r.Done? { return; }
    var success := SetFields(dayValue, timeValue, timeZone, time, StateOf(dayValue, timeValue, timeZone, hasNumber));
    return if success then Done(()) else Invalid;
  }
}
