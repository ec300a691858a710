/** What the legacy path refuses. */
module LegacyRejects {
  import opened DateTokens
  import opened DateParser
  import opened DateIso

  predicate IsWord(u: DateUnit) { u.TimeFlag? || u.InvalidWord? }

  /** No unknown word, and no lone T, comes after a number or directly before one. */
  ghost predicate WordsFirst(ts: seq<DateUnit>, hasNumber: bool)
    decreases |ts|
  {
    |ts| <= 1 ||
    ((IsWord(ts[0]) ==> !hasNumber && !ts[1].Number?) && WordsFirst(ts[1..], hasNumber || ts[0].Number?))
  }

  /** A time or a zone is only collected after a number. */
  ghost predicate Tidy(st: State) { st.time != [] || st.zone != LOCAL ==> st.hasNumber }

  /** Tokens that are no words can be put in front. */
  lemma {:induction false} InFront(ts: seq<DateUnit>, n: bool)
    requires |ts| > 1 && !IsWord(ts[0]) && WordsFirst(Rest(ts), n || ts[0].Number?)
    ensures WordsFirst(ts, n)
  {
  }

  lemma {:induction false} FrontAfter(ts: seq<DateUnit>)
    requires |ts| > 0 && (|ts| == 1 || !IsWord(ts[0])) && WordsFirst(Rest(ts), true)
    ensures WordsFirst(ts, true)
  {
  }

  lemma {:induction false} NumberStepWords(ts: seq<DateUnit>, st: State)
    requires |ts| > 1 && ts[0].Number?
    ensures var p := NumberStep(ts, st); p.Done? ==> p.value.1.hasNumber
    ensures var p := NumberStep(ts, st); p.Done? && WordsFirst(p.value.0, true) ==> WordsFirst(ts, st.hasNumber)
  {
    hide WordsFirst, Millis, TokenList;
    var r := Rest(ts);
    var n := Rest(r);
    var p := NumberStep(ts, st);
    if p.Done? && WordsFirst(p.value.0, true) {
      if p.value.0 == Rest(n) && n[0].Number? { FrontAfter(n); }
      if r[0].IsSymbol(':') || r[0].IsSymbol('.') { if WordsFirst(n, true) { FrontAfter(r); } }
      InFront(ts, st.hasNumber);
    }
  }

  lemma {:induction false} OffsetStepWords(ts: seq<DateUnit>, st: State)
    requires |ts| > 1 && ts[0].IsSign() && st.hasNumber
    ensures var p := OffsetStep(ts, st); p.Done? ==> p.value.1.hasNumber
    ensures var p := OffsetStep(ts, st); p.Done? && WordsFirst(p.value.0, true) ==> WordsFirst(ts, true)
  {
    hide WordsFirst, TokenList;
    var h := Rest(ts);
    var c := Rest(h);
    var m := Rest(c);
    var p := OffsetStep(ts, st);
    if p.Done? && WordsFirst(p.value.0, true) {
      if c[0].IsSymbol(':') {
        FrontAfter(m);
        FrontAfter(c);
      }
      FrontAfter(h);
      FrontAfter(ts);
    }
  }

  lemma {:induction false} StepWords(ts: seq<DateUnit>, st: State)
    requires |ts| > 1 && Tidy(st)
    ensures var p := LegacyStep(ts, st); p.Done? ==>
      Tidy(p.value.1) && (WordsFirst(p.value.0, p.value.1.hasNumber) ==> WordsFirst(ts, st.hasNumber))
  {
    hide WordsFirst, NumberStep, OffsetStep, TokenList;
    var u := ts[0];
    if u.Number? {
      NumberStepWords(ts, st);
    } else if u.IsSign() && (|st.time| > 0 || IsUTC(st.zone)) {
      OffsetStepWords(ts, st);
    } else {
      SingleStep(ts, st);
    }
  }

  lemma {:induction false} SingleStep(ts: seq<DateUnit>, st: State)
    requires |ts| > 1 && Tidy(st) && !ts[0].Number? && !(ts[0].IsSign() && (|st.time| > 0 || IsUTC(st.zone)))
    ensures var p := LegacyStep(ts, st); p.Done? ==>
      Tidy(p.value.1) && (WordsFirst(p.value.0, p.value.1.hasNumber) ==> WordsFirst(ts, st.hasNumber))
  {
    hide TokenList;
  }

  /** Whatever the legacy loop accepts has its unknown words before all its numbers. */
  lemma {:induction false} AcceptedWords(ts: seq<DateUnit>, st: State)
    requires |ts| > 0 && Tidy(st) && Legacy(ts, st).Done?
    ensures WordsFirst(ts, st.hasNumber)
    decreases |ts|
  {
    hide WordsFirst, LegacyStep, TokenList, Tidy;
    if |ts| > 1 {
      StepWords(ts, st);
      var p := LegacyStep(ts, st);
      AcceptedWords(p.value.0, p.value.1);
    } else {
      Short(ts, st.hasNumber);
    }
  }

  lemma Short(ts: seq<DateUnit>, n: bool)
    requires |ts| <= 1
    ensures WordsFirst(ts, n)
  {
  }

  // ----- times and offsets that break off -----

  /** Hours and a colon need minutes. */
  lemma {:induction false} RefuseColon(n: nat, len: nat, tail: seq<DateUnit>, st: State)
    requires |tail| > 0 && !tail[0].Number?
    ensures Legacy(Cons(Number(n, len), Cons(Symbol(':'), tail)), st) == Invalid
  {
    hide Cons, Rest, OffsetStep, Millis, TokenList;
  }

  /** After the minutes or seconds only the end, a blank, a sign or Z may follow. */
  lemma {:induction false} RefuseAfterTime(n: nat, len: nat, tail: seq<DateUnit>, st: State)
    requires |tail| > 0 && !tail[0].IsValidFinallyTime() && !tail[0].IsSymbol(':') && n <= 59
    requires |st.time| == 1 || (|st.time| == 2 && !tail[0].IsSymbol('.'))
    ensures Legacy(Cons(Number(n, len), tail), st) == Invalid
  {
    hide Cons, Rest, OffsetStep, Millis, TokenList;
  }

  /** A point after the seconds needs a fraction, and the fraction must end the time. */
  lemma {:induction false} RefuseFraction(n: nat, len: nat, f: DateUnit, tail: seq<DateUnit>, st: State)
    requires |tail| > 0 && |st.time| == 2 && n <= 59
    requires !f.Number? || (Millis(f).Done? && !tail[0].IsValidFinallyTime())
    ensures Legacy(Cons(Number(n, len), Cons(Symbol('.'), Cons(f, tail))), st) == Invalid
  {
    hide Cons, Rest, OffsetStep, Millis, TokenList;
  }

  /** A fifth number with a colon is one too many. */
  lemma {:induction false} RefuseFifth(n: nat, len: nat, tail: seq<DateUnit>, st: State)
    requires |tail| > 0 && |st.time| == TIME_LEN
    ensures Legacy(Cons(Number(n, len), Cons(Symbol(':'), tail)), st) == Invalid
  {
    hide Cons, Rest, OffsetStep, Millis, TokenList;
  }

  /** An offset needs a number after its sign, one after its colon, and no more than four digits without one. */
  lemma {:induction false} RefuseOffset(minus: bool, u: DateUnit, c: DateUnit, m: DateUnit, tail: seq<DateUnit>, st: State)
    requires |tail| > 0 && (|st.time| > 0 || IsUTC(st.zone))
    requires !u.Number? || (c.IsSymbol(':') && !m.Number?) || (!c.IsSymbol(':') && u.len > 4)
    ensures Legacy(Cons(SignUnit(minus), Cons(u, Cons(c, Cons(m, tail)))), st) == Invalid
  {
    hide Cons, Rest, NumberStep, TokenList;
  }
}
