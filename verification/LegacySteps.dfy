/** The legacy loop, one step after the other. */
module LegacySteps {
  import opened DateTokens
  import opened DateParser
  import opened DateIso

  // ----- one step of the legacy loop after the other -----

  lemma {:induction false} Skip(u: DateUnit, tail: seq<DateUnit>, st: State)
    requires |tail| > 0
    requires u.Space? || u.Unknown? || u.IsSymbol('.') || u.IsSymbol(':') || (u.InvalidWord? && !st.hasNumber && !tail[0].Number?)
      || (u.IsSign() && st.time == [] && !IsUTC(st.zone))
    ensures Legacy(Cons(u, tail), st) == Legacy(tail, st)
  {
    hide Cons, Rest, NumberStep, OffsetStep, TokenList;
  }

  lemma {:induction false} TakeMonth(m: int, tail: seq<DateUnit>, st: State)
    requires |tail| > 0
    ensures Legacy(Cons(Month(m), tail), st) == Legacy(tail, st.(month := m))
  {
    hide Cons, Rest, NumberStep, OffsetStep, TokenList;
  }

  lemma {:induction false} TakeUTC(isName: bool, tail: seq<DateUnit>, st: State)
    requires |tail| > 0 && st.hasNumber
    ensures Legacy(Cons(TimeZoneWord(isName), tail), st) == Legacy(tail, st.(zone := UTC))
  {
    hide Cons, Rest, NumberStep, OffsetStep, TokenList;
  }

  lemma {:induction false} TakeDay(n: nat, len: nat, tail: seq<DateUnit>, st: State)
    requires |tail| > 0 && !tail[0].IsSymbol(':') && st.time == [] && |st.day| < DAY_LEN
    ensures Legacy(Cons(Number(n, len), tail), st) == Legacy(tail, st.(day := st.day + [n], hasNumber := true))
  {
    hide Cons, Rest, OffsetStep, Millis, TokenList;
  }

  lemma {:induction false} TakeFirstDay(n: nat, tail: seq<DateUnit>, st: State)
    requires |tail| > 0 && tail[0].Space? && st.time == [] && st.day == []
    ensures Legacy(Cons(Number(n, 2), tail), st) == Legacy(tail, st.(day := [n], hasNumber := true))
  {
    hide Cons, Rest, Legacy, TokenList;
    TakeDay(n, 2, tail, st);
    assert st.day + [n] == [n];
  }

  lemma {:induction false} TakeClock(n: nat, len: nat, tail: seq<DateUnit>, st: State)
    requires |tail| > 0 && tail[0].Number? && |st.time| < TIME_LEN
    ensures Legacy(Cons(Number(n, len), Cons(Symbol(':'), tail)), st)
      == Legacy(tail, st.(time := st.time + [n], hasNumber := true))
  {
    hide Cons, Rest, OffsetStep, Millis, TokenList;
  }

  lemma {:induction false} TakeSecond(n: nat, len: nat, tail: seq<DateUnit>, st: State)
    requires |tail| > 0 && tail[0].IsValidFinallyTime() && |st.time| == 2 && SecondIsValid(n)
    ensures Legacy(Cons(Number(n, len), tail), st) == Legacy(tail, st.(time := st.time + [n], hasNumber := true))
  {
    hide Cons, Rest, OffsetStep, Millis, TokenList;
  }

  lemma {:induction false} TakeMinute(n: nat, len: nat, tail: seq<DateUnit>, st: State)
    requires |tail| > 0 && tail[0].IsValidFinallyTime() && |st.time| == 1 && MinuteIsValid(n)
    ensures Legacy(Cons(Number(n, len), tail), st) == Legacy(tail, st.(time := st.time + [n], hasNumber := true))
  {
    hide Cons, Rest, OffsetStep, Millis, TokenList;
  }

  /** A number that is no minute or second after all is one of the date's. */
  lemma {:induction false} TakeSpilled(n: nat, len: nat, tail: seq<DateUnit>, st: State)
    requires |tail| > 0 && !tail[0].IsSymbol(':') && n > 59
    ensures Legacy(Cons(Number(n, len), tail), st) ==
      if |st.day| < DAY_LEN then Legacy(tail, st.(day := st.day + [n], hasNumber := true)) else Invalid
  {
    hide Cons, Rest, OffsetStep, Millis, TokenList;
  }

  /** Seconds and their fraction. */
  lemma {:induction false} TakeFraction(n: nat, len: nat, f: DateUnit, tail: seq<DateUnit>, st: State)
    requires |tail| > 0 && tail[0].IsValidFinallyTime() && |st.time| == 2 && SecondIsValid(n) && f.Number?
    ensures Legacy(Cons(Number(n, len), Cons(Symbol('.'), Cons(f, tail))), st) ==
      match Millis(f)
      case Done(ms) => Legacy(tail, st.(time := st.time + [n, ms], hasNumber := true))
      case Invalid => Invalid
      case Overflow => Overflow
  {
    hide Cons, Rest, OffsetStep, Millis, TokenList;
  }

  /** A signed pair of numbers with a colon. */
  lemma {:induction false} TakePair(minus: bool, h: DateUnit, m: DateUnit, tail: seq<DateUnit>, st: State)
    requires |tail| > 0 && h.Number? && m.Number? && (|st.time| > 0 || IsUTC(st.zone))
    ensures Legacy(Cons(SignUnit(minus), Cons(h, Cons(Symbol(':'), Cons(m, tail)))), st)
      == Legacy(tail, st.(zone := Zone(if minus then -1 else 1, h.value, m.value)))
  {
    hide Cons, Rest, NumberStep, TokenList;
  }

  /** A signed number of one to four digits: hours, or hours and minutes. */
  lemma {:induction false} TakeSigned(minus: bool, n: nat, len: nat, tail: seq<DateUnit>, st: State)
    requires |tail| > 0 && !tail[0].IsSymbol(':') && (|st.time| > 0 || IsUTC(st.zone)) && 1 <= len <= 4
    ensures Legacy(Cons(SignUnit(minus), Cons(Number(n, len), tail)), st)
      == Legacy(tail, st.(zone := Zone(if minus then -1 else 1, if len <= 2 then n else n / 100, if len <= 2 then 0 else n % 100)))
  {
    hide Cons, Rest, NumberStep, TokenList;
  }

  lemma {:induction false} TakeOffset(minus: bool, n: nat, tail: seq<DateUnit>, st: State)
    requires |tail| > 0 && !tail[0].IsSymbol(':') && |st.time| > 0
    ensures Legacy(Cons(SignUnit(minus), Cons(Number(n, 4), tail)), st)
      == Legacy(tail, st.(zone := Zone(if minus then -1 else 1, n / 100, n % 100)))
  {
    hide Cons, Rest, NumberStep, TokenList;
  }

  lemma TakeEnd(st: State)
    ensures Legacy([StringEnd], st) == Done(st)
  {
  }

  // ----- words -----

  lemma {:induction false} MonthWord(m: nat)
    requires m < 12
    ensures WordToken(MONTHS[m]) == Month(m + 1)
  {
    Distinct(m);
    FirstIndexIn(MONTHS, MONTHS[m], m);
  }

  lemma Distinct(m: nat)
    requires m < 12
    ensures |MONTHS[m]| == 3 && forall j :: 0 <= j < m ==> MONTHS[j] != MONTHS[m]
    ensures MONTHS[m] != "utc" && MONTHS[m] != "gmt"
  {
  }

  // ----- years -----

  /** The year that a written year stands for: from 100 on itself, below the one year of 1950 to 2049 that ends in it. */
  ghost predicate Windowed(y: nat, year: int) {
    if y >= 100 then year == y else 1950 <= year <= 2049 && (year - y) % 100 == 0
  }

  lemma WindowUnique(y: nat, a: int, b: int)
    requires Windowed(y, a) && Windowed(y, b)
    ensures a == b
  {
  }

  lemma CenturyWindowed(y: nat)
    ensures Windowed(y, Century(y, false))
  {
  }
}
