/** What holds of every date string: tokens and fields stay in range, and unset never collides with a value. */
module DateRanges {
  import opened Common
  import opened DateTokens
  import opened DateParser

  // ----- tokens -----

  ghost predicate UnitOk(u: DateUnit) {
    && (u.Number? ==> 1 <= u.len && u.value <= MAX_NUMBER && u.value < Pow10(u.len))
    && (u.Month? ==> 1 <= u.month <= MONTH_PER_YEAR)
  }

  ghost predicate UnitsOk(ts: seq<DateUnit>) {
    forall i :: 0 <= i < |ts| ==> UnitOk(ts[i])
  }

  lemma {:induction false} HeadTokenOk(s: string)
    ensures UnitOk(HeadToken(s))
  {
    hide WordToken, Lower, Upto, AlphaSpan, Decimal, CountFrom, Pow10, NumberToken;
    var c := First(s);
    if IsDigit(c) {
      var n := DigitSpan(s);
      assert n > 0;
      NumberIsNumber(s[..n]);
      NumberBounds(s[..n]);
    } else if IsAlpha(c) {
      WordTokenOk(Lower(Upto(s, AlphaSpan(s), 3)));
    }
  }

  lemma NumberIsNumber(ds: string)
    requires AllDigits(ds)
    ensures NumberToken(ds).Number?
  {
  }

  lemma {:induction false} WordTokenOk(w: string)
    ensures UnitOk(WordToken(w))
  {
    if w in MONTHS {
      var i := IndexIn(MONTHS, w);
      assert |MONTHS| == 12;
    }
  }

  /** Every token of every string is in range: a number never exceeds 2147483639. */
  lemma {:induction false} TokensOk(s: string)
    ensures UnitsOk(Tokens(s)) && |Tokens(s)| > 0
    decreases |s|
  {
    hide HeadToken, HeadLength, UnitOk, TokenList;
    HeadTokenOk(s);
    if !HeadToken(s).StringEnd? { TokensOk(s[HeadLength(s)..]); }
  }

  /** No fraction has more than 12 counted digits. */
  ghost predicate ShortFractions(ts: seq<DateUnit>) {
    forall i {:trigger ts[i]} :: 0 <= i < |ts| - 1 && ts[i].IsSymbol('.') && ts[i + 1].Number? ==> ts[i + 1].len <= 12
  }

  ghost predicate ListOk(ts: seq<DateUnit>, short: bool) {
    UnitsOk(ts) && (short ==> ShortFractions(ts))
  }

  lemma ShortFraction(ts: seq<DateUnit>)
    requires |ts| > 0 && ListOk(ts, true) && ts[0].IsSymbol('.') && Rest(ts)[0].Number?
    ensures Millis(Rest(ts)[0]).Done?
  {
  }

  lemma {:induction false} RestOk(ts: seq<DateUnit>, short: bool)
    requires |ts| > 0 && ListOk(ts, short)
    ensures UnitOk(ts[0]) && ListOk(Rest(ts), short) && UnitOk(Rest(ts)[0])
  {
    hide UnitOk;
  }

  // ----- what has been collected -----

  ghost predicate ZoneOk(z: Zone) {
    z == LOCAL || ((z.sign == 1 || z.sign == -1) && 0 <= z.hour <= MAX_NUMBER && 0 <= z.min <= MAX_NUMBER)
  }

  ghost predicate NumbersOk(s: seq<int>) {
    forall i :: 0 <= i < |s| ==> -MAX_NUMBER <= s[i] <= MAX_NUMBER
  }

  ghost predicate StateOk(st: State) {
    && NumbersOk(st.day) && |st.day| <= DAY_LEN && (st.month == INT_MAX || 1 <= st.month <= MONTH_PER_YEAR)
    && |st.time| <= TIME_LEN && ZoneOk(st.zone)
  }

  lemma {:induction false} NumberStepOk(ts: seq<DateUnit>, st: State, short: bool)
    requires |ts| > 1 && ts[0].Number? && ListOk(ts, short) && StateOk(st)
    ensures var p := NumberStep(ts, st); p.Done? ==> StateOk(p.value.1) && ListOk(p.value.0, short)
    ensures short ==> !NumberStep(ts, st).Overflow?
  {
    hide Millis, UnitOk;
    RestOk(ts, short);
    RestOk(Rest(ts), short);
    RestOk(Rest(Rest(ts)), short);
    InRange(ts[0]);
    hide ListOk;
    if short && Rest(ts)[0].IsSymbol('.') && Rest(Rest(ts))[0].Number? { ShortFraction(Rest(ts)); }
  }

  lemma InRange(u: DateUnit)
    requires UnitOk(u)
    ensures u.Number? ==> u.value <= MAX_NUMBER
    ensures u.Month? ==> 1 <= u.month <= MONTH_PER_YEAR
  {
  }

  lemma {:induction false} OffsetStepOk(ts: seq<DateUnit>, st: State, short: bool)
    requires |ts| > 1 && ListOk(ts, short) && StateOk(st)
    ensures var p := OffsetStep(ts, st); !p.Overflow? && (p.Done? ==> StateOk(p.value.1) && ListOk(p.value.0, short))
  {
    hide UnitOk, NumbersOk;
    var h := Rest(ts); var c := Rest(h); var m := Rest(c);
    RestOk(ts, short);
    RestOk(h, short);
    RestOk(c, short);
    RestOk(m, short);
    InRange(h[0]);
    InRange(m[0]);
    hide ListOk;
  }

  lemma {:induction false} LegacyStepOk(ts: seq<DateUnit>, st: State, short: bool)
    requires |ts| > 1 && ListOk(ts, short) && StateOk(st)
    ensures var p := LegacyStep(ts, st); p.Done? ==> StateOk(p.value.1) && ListOk(p.value.0, short)
    ensures short ==> !LegacyStep(ts, st).Overflow?
  {
    hide UnitOk, NumbersOk, NumberStep, OffsetStep;
    RestOk(ts, short);
    InRange(ts[0]);
    if ts[0].Number? { NumberStepOk(ts, st, short); }
    OffsetStepOk(ts, st, short);
    hide ListOk;
  }

  /** The collected numbers stay in range over the whole legacy loop. */
  lemma {:induction false} LegacyOk(ts: seq<DateUnit>, st: State, short: bool)
    requires |ts| > 0 && ListOk(ts, short) && StateOk(st)
    ensures var p := Legacy(ts, st); p.Done? ==> StateOk(p.value)
    ensures short ==> !Legacy(ts, st).Overflow?
    decreases |ts|
  {
    hide StateOk, ListOk, LegacyStep;
    if |ts| > 1 {
      LegacyStepOk(ts, st, short);
      var p := LegacyStep(ts, st);
      if p.Done? { LegacyOk(p.value.0, p.value.1, short); }
    }
  }

  lemma {:induction false} YearPartOk(ts: seq<DateUnit>, short: bool)
    requires |ts| > 0 && ListOk(ts, short)
    ensures NumbersOk(YearPart(ts).day) && ListOk(YearPart(ts).rest, short)
  {
    hide UnitOk;
    RestOk(ts, short);
    RestOk(Rest(ts), short);
    InRange(ts[0]);
    InRange(Rest(ts)[0]);
    hide ListOk;
  }

  lemma {:induction false} DashPartOk(d: IsoDate, short: bool)
    requires |d.rest| > 0 && ListOk(d.rest, short) && NumbersOk(d.day)
    ensures NumbersOk(DashPart(d).day) && ListOk(DashPart(d).rest, short)
  {
    hide UnitOk;
    RestOk(d.rest, short);
    RestOk(Rest(d.rest), short);
    InRange(Rest(d.rest)[0]);
    hide ListOk;
  }

  lemma {:induction false} IsoDatePartOk(ts: seq<DateUnit>, short: bool)
    requires |ts| > 0 && ListOk(ts, short)
    ensures NumbersOk(IsoDatePart(ts).day) && ListOk(IsoDatePart(ts).rest, short)
  {
    hide ListOk, NumbersOk, DashPart, YearPart;
    YearPartOk(ts, short);
    DashPartOk(YearPart(ts), short);
    DashPartOk(DashPart(YearPart(ts)), short);
  }

  lemma {:induction false} IsoZoneOk(ts: seq<DateUnit>, short: bool)
    requires |ts| > 0 && ListOk(ts, short)
    ensures IsoZone(ts).Done? ==> ZoneOk(IsoZone(ts).value)
  {
    hide UnitOk;
    var h := Rest(ts); var c := Rest(h); var m := Rest(c);
    RestOk(ts, short);
    RestOk(h, short);
    RestOk(c, short);
    InRange(h[0]);
    InRange(m[0]);
    hide ListOk;
  }

  lemma {:induction false} IsoClockOk(ts: seq<DateUnit>, short: bool)
    requires |ts| > 0 && ListOk(ts, short)
    ensures IsoClock(ts).Done? ==> ListOk(IsoClock(ts).value.1, short)
    ensures short ==> !IsoClock(ts).Overflow?
  {
    hide UnitOk, Millis, IsoSeconds;
    var c := Rest(ts); var m := Rest(c); var s := Rest(m);
    RestOk(ts, short);
    RestOk(c, short);
    RestOk(m, short);
    RestOk(s, short);
    hide ListOk;
    if ts[0].Number? && m[0].Number? { IsoSecondsOk([ts[0].value, m[0].value], Rest(s), short); }
  }

  lemma {:induction false} IsoSecondsOk(time: seq<int>, ts: seq<DateUnit>, short: bool)
    requires |ts| > 0 && ListOk(ts, short)
    ensures IsoSeconds(time, ts).Done? ==> ListOk(IsoSeconds(time, ts).value.1, short)
    ensures short ==> !IsoSeconds(time, ts).Overflow?
  {
    hide UnitOk, Millis;
    RestOk(ts, short);
    RestOk(Rest(ts), short);
    RestOk(Rest(Rest(ts)), short);
    hide ListOk;
    if short && Rest(ts)[0].IsSymbol('.') && Rest(Rest(ts))[0].Number? { ShortFraction(Rest(ts)); }
  }

  lemma {:induction false} IsoTimePartOk(ts: seq<DateUnit>, short: bool)
    requires |ts| > 0 && ListOk(ts, short)
    ensures var p := IsoTimePart(ts); p.Done? ==> ZoneOk(p.value.1) && |p.value.0| <= TIME_LEN
    ensures short ==> !IsoTimePart(ts).Overflow?
  {
    hide ListOk, IsoClock;
    RestOk(ts, short);
    IsoClockOk(Rest(ts), short);
    if IsoClock(Rest(ts)).Done? { IsoZoneOk(IsoClock(Rest(ts)).value.1, short); }
  }

  // ----- the result -----

  ghost predicate FieldsOk(f: Fields) {
    && -MAX_NUMBER <= f.year <= MAX_NUMBER && 0 <= f.month <= 11 && 1 <= f.day <= 31
    && 0 <= f.hour <= 24 && 0 <= f.min <= 59 && 0 <= f.sec <= 59 && 0 <= f.ms <= 999
    && (f.hour == 24 ==> f.min == 0 && f.sec == 0 && f.ms == 0)
    && (f.zone == INT_MAX || -(24 * 3600 + 59 * 60) <= f.zone <= 24 * 3600 + 59 * 60)
  }

  /** Fields that pass the checks are in range, and the zone is "unset" exactly when none was given. */
  lemma {:induction false} FinishOk(st: State, iso: bool)
    requires StateOk(st) && Finish(st, iso).Done?
    ensures FieldsOk(Finish(st, iso).value)
    ensures Finish(st, iso).value.zone == INT_MAX <==> st.zone == LOCAL
  {
    DayYear(st.day, st.month, iso);
    hide DayOrder, NumbersOk;
  }

  lemma DayYear(day: seq<int>, month: int, iso: bool)
    requires NumbersOk(day)
    ensures -MAX_NUMBER <= Century(DayOrder(day, month, iso).year, iso) <= MAX_NUMBER
  {
  }

  /** Every string that parses has its fields in range; only an overlong fraction can overflow. */
  lemma {:induction false} ParsedInRange(s: string)
    ensures var p := ParseTokens(Tokens(s)); p.Done? ==> FieldsOk(p.value)
    ensures ShortFractions(Tokens(s)) ==> !ParseTokens(Tokens(s)).Overflow?
  {
    hide Tokens, TokenList, IsoDatePart, IsoTimePart, Legacy, Finish, ZoneOk, NumbersOk, FieldsOk, UnitsOk, ShortFractions;
    var ts := Tokens(s);
    var short := ShortFractions(ts);
    TokensOk(s);
    IsoDatePartOk(ts, short);
    var d := IsoDatePart(ts);
    NothingSet();
    hide ListOk;
    if d.ok {
      IsoTimePartOk(d.rest, short);
      var t := IsoTimePart(d.rest);
      if t.Done? { FinishIfDone(StartOf(d.day).(time := t.value.0, zone := t.value.1), true); }
    } else {
      LegacyOk(d.rest, StartOf(d.day), short);
      var l := Legacy(d.rest, StartOf(d.day));
      if l.Done? { FinishIfDone(l.value, false); }
    }
  }

  lemma NothingSet()
    ensures ZoneOk(LOCAL)
  {
  }

  lemma {:induction false} FinishIfDone(st: State, iso: bool)
    requires StateOk(st)
    ensures Finish(st, iso).Done? ==> FieldsOk(Finish(st, iso).value)
    ensures !Finish(st, iso).Overflow?
  {
    hide StateOk, FieldsOk;
    if Finish(st, iso).Done? { FinishOk(st, iso); }
  }
}
