/** What the legacy path makes of dates, times and zones, whatever form they are written in. */
module LegacyForms {
  import opened Common
  import opened DateTokens
  import opened DateParser
  import opened DateIso
  import opened LegacySteps

  // ----- an attempt at the ISO format that fails -----

  lemma {:induction false} YearGivesWay(ts: seq<DateUnit>)
    requires TokenList(ts) && |ts| > 0 && !YearPart(ts).rest[0].IsSymbol(':')
    requires ts[0].IsSign() ==> !Rest(ts)[0].IsNumberOf(6)
    ensures Legacy(YearPart(ts).rest, StartOf(YearPart(ts).day)) == Legacy(ts, StartOf([])) && TokenList(YearPart(ts).rest)
  {
    hide Legacy, TokenList, Cons, Rest;
    if ts[0].IsSign() {
      Uncons(ts);
      Skip(ts[0], Rest(ts), StartOf([]));
    } else if ts[0].IsNumberOf(4) {
      Uncons(ts);
      TakeDay(ts[0].value, 4, Rest(ts), StartOf([]));
      assert [] + [ts[0].value] == [ts[0].value];
    }
  }

  lemma {:induction false} DashGivesWay(d: IsoDate)
    requires d.ok && TokenList(d.rest) && |d.rest| > 0 && 1 <= |d.day| < DAY_LEN && !DashPart(d).rest[0].IsSymbol(':')
    ensures Legacy(DashPart(d).rest, StartOf(DashPart(d).day)) == Legacy(d.rest, StartOf(d.day)) && TokenList(DashPart(d).rest)
  {
    hide Legacy, TokenList, Cons, Rest;
    if d.rest[0].IsSymbol('-') {
      var r := Rest(d.rest);
      Uncons(d.rest);
      Skip(d.rest[0], r, StartOf(d.day));
      if r[0].IsNumberOf(2) {
        Uncons(r);
        TakeDay(r[0].value, 2, Rest(r), StartOf(d.day));
      }
    }
  }

  /** A text that is not in the ISO format is read as if that had never been tried: the numbers taken by the attempt are
      kept and everything else it took counts for nothing. The exceptions are a signed year of six digits, and a colon
      after the last number taken. */
  lemma {:induction false} IsoGivesWay(ts: seq<DateUnit>)
    requires TokenList(ts) && |ts| > 0 && !IsoDatePart(ts).ok && !IsoDatePart(ts).rest[0].IsSymbol(':')
    requires ts[0].IsSign() ==> !Rest(ts)[0].IsNumberOf(6)
    ensures Legacy(IsoDatePart(ts).rest, StartOf(IsoDatePart(ts).day)) == Legacy(ts, StartOf([]))
  {
    hide Legacy, TokenList, Rest, StartOf;
    var y := YearPart(ts);
    ColonStays(y);
    var m := DashPart(y);
    ColonStays(m);
    YearGivesWay(ts);
    YearLength(ts);
    if y.ok { DashGivesWay(y); }
    if m.ok { DashGivesWay(m); }
  }

  lemma YearLength(ts: seq<DateUnit>)
    requires |ts| > 0
    ensures YearPart(ts).ok ==> |YearPart(ts).day| == 1
  {
  }

  lemma ColonStays(d: IsoDate)
    requires |d.rest| > 0
    ensures d.rest[0].IsSymbol(':') ==> DashPart(d).rest[0].IsSymbol(':')
    ensures !d.ok ==> DashPart(d) == d
  {
  }

  /** Which numbers a failed attempt leaves: the year, with its sign, and every two digits behind a dash. */
  lemma {:induction false} NumbersLeft(signed: bool, year: int, date: seq<nat>, tail: seq<DateUnit>)
    requires |date| <= 2 && (!signed ==> year >= 0) && |tail| > 0 && !tail[0].TimeFlag? && !tail[0].StringEnd?
    requires |date| < 2 ==> !tail[0].IsSymbol('-')
    ensures |YearUnits(signed, year, DateUnits(date, tail))| > 0
    ensures IsoDatePart(YearUnits(signed, year, DateUnits(date, tail))) == IsoDate(false, [year] + date, tail)
  {
    TwoDashes(year, date, tail);
    hide DashPart, YearPart, DateUnits;
    YearReads(signed, year, DateUnits(date, tail));
  }

  /** A year of minus zero leaves nothing. */
  lemma {:induction false} MinusZeroLeft(tail: seq<DateUnit>)
    requires |tail| > 0
    ensures IsoDatePart(Cons(Symbol('-'), Cons(Number(0, 6), tail))) == IsoDate(false, [], tail)
  {
    hide Cons, Rest, TokenList;
  }

  /** A colon behind the numbers left counts for nothing: they are no time. */
  lemma {:induction false} ColonLeft(signed: bool, year: int, date: seq<nat>, tail: seq<DateUnit>)
    requires |date| <= 2 && (!signed ==> year >= 0) && |tail| > 0
    ensures var ts := YearUnits(signed, year, DateUnits(date, Cons(Symbol(':'), tail)));
      && |ts| > 0 && !IsoDatePart(ts).ok
      && Legacy(IsoDatePart(ts).rest, StartOf(IsoDatePart(ts).day)) == Legacy(tail, StartOf([year] + date))
  {
    hide Legacy, TokenList, Cons, Rest, YearUnits, DateUnits, IsoDatePart;
    NumbersLeft(signed, year, date, Cons(Symbol(':'), tail));
    Skip(Symbol(':'), tail, StartOf([year] + date));
  }

  // ----- dates: numbers and month names with separators -----

  ghost predicate IsSep(u: DateUnit) { u.Space? || u.Unknown? || u.IsSign() || u.IsSymbol('.') }

  ghost predicate AllSeps(us: seq<DateUnit>) { forall i :: 0 <= i < |us| ==> IsSep(us[i]) }

  // A number or a month name, and the separators behind it.
  datatype Piece = Num(value: nat, len: nat, seps: seq<DateUnit>) | Mon(month: int, seps: seq<DateUnit>)

  ghost function SepUnits(us: seq<DateUnit>, tail: seq<DateUnit>): (ts: seq<DateUnit>)
    ensures |tail| > 0 ==> |ts| > 0
  {
    if us == [] then tail else Cons(us[0], SepUnits(us[1..], tail))
  }

  ghost function PieceUnits(ps: seq<Piece>, tail: seq<DateUnit>): (ts: seq<DateUnit>)
    ensures |tail| > 0 ==> |ts| > 0
  {
    if ps == [] then tail
    else
      var rest := SepUnits(ps[0].seps, PieceUnits(ps[1..], tail));
      Cons(if ps[0].Num? then Number(ps[0].value, ps[0].len) else Month(ps[0].month), rest)
  }

  /** Separators stand behind every piece but perhaps the last. */
  ghost predicate PiecesOk(ps: seq<Piece>, tail: seq<DateUnit>) {
    && |tail| > 0 && !tail[0].IsSymbol(':')
    && forall i :: 0 <= i < |ps| ==> AllSeps(ps[i].seps) && (ps[i].seps == [] ==> i == |ps| - 1)
  }

  ghost function Numbers(ps: seq<Piece>): (ns: seq<nat>) {
    if ps == [] then [] else (if ps[0].Num? then [ps[0].value] else []) + Numbers(ps[1..])
  }

  /** The last month named, or the one named before. */
  ghost function MonthOf(ps: seq<Piece>, before: int): (m: int) {
    if ps == [] then before else MonthOf(ps[1..], if ps[0].Mon? then ps[0].month else before)
  }

  ghost function WithPieces(st: State, ps: seq<Piece>): (r: State) {
    st.(day := st.day + Numbers(ps), month := MonthOf(ps, st.month), hasNumber := st.hasNumber || Numbers(ps) != [])
  }

  lemma {:induction false} ReadSeps(us: seq<DateUnit>, tail: seq<DateUnit>, st: State)
    requires AllSeps(us) && |tail| > 0 && st.time == [] && st.zone == LOCAL
    ensures Legacy(SepUnits(us, tail), st) == Legacy(tail, st)
    decreases |us|
  {
    hide Legacy, Cons, TokenList;
    if us != [] {
      Skip(us[0], SepUnits(us[1..], tail), st);
      ReadSeps(us[1..], tail, st);
    }
  }

  lemma {:induction false} SepsFirst(us: seq<DateUnit>, tail: seq<DateUnit>)
    requires AllSeps(us) && |tail| > 0 && (us == [] ==> !tail[0].IsSymbol(':'))
    ensures !SepUnits(us, tail)[0].IsSymbol(':')
  {
    hide TokenList;
  }

  /** The loop collects the numbers in order, the last month named, and nothing else. */
  lemma {:induction false} ReadPieces(ps: seq<Piece>, tail: seq<DateUnit>, st: State)
    requires PiecesOk(ps, tail) && st.time == [] && st.zone == LOCAL && |st.day| + |Numbers(ps)| <= DAY_LEN
    ensures Legacy(PieceUnits(ps, tail), st) == Legacy(tail, WithPieces(st, ps))
    decreases |ps|
  {
    hide Legacy, Cons, TokenList, AllSeps, SepUnits;
    if ps == [] {
      assert st.day + [] == st.day;
    } else {
      var p, more := ps[0], PieceUnits(ps[1..], tail);
      var st1 := if p.Num? then st.(day := st.day + [p.value], hasNumber := true) else st.(month := p.month);
      assert p.seps == [] ==> ps[1..] == [];
      SepsFirst(p.seps, more);
      if p.Num? { TakeDay(p.value, p.len, SepUnits(p.seps, more), st); } else { TakeMonth(p.month, SepUnits(p.seps, more), st); }
      ReadSeps(p.seps, more, st1);
      ReadPieces(ps[1..], tail, st1);
      assert st.day + Numbers(ps) == st1.day + Numbers(ps[1..]);
    }
  }

  /** A fourth number is one too many. */
  lemma {:induction false} TooManyNumbers(ps: seq<Piece>, tail: seq<DateUnit>, st: State)
    requires PiecesOk(ps, tail) && st.time == [] && st.zone == LOCAL && |st.day| <= DAY_LEN < |st.day| + |Numbers(ps)|
    ensures Legacy(PieceUnits(ps, tail), st) == Invalid
    decreases |ps|
  {
    hide Legacy, Cons, TokenList, AllSeps, SepUnits;
    var p, more := ps[0], PieceUnits(ps[1..], tail);
    assert p.seps == [] ==> ps[1..] == [];
    SepsFirst(p.seps, more);
    if p.Num? && |st.day| == DAY_LEN {
      RefuseDay(p.value, p.len, SepUnits(p.seps, more), st);
    } else {
      var st1 := if p.Num? then st.(day := st.day + [p.value], hasNumber := true) else st.(month := p.month);
      if p.Num? { TakeDay(p.value, p.len, SepUnits(p.seps, more), st); } else { TakeMonth(p.month, SepUnits(p.seps, more), st); }
      ReadSeps(p.seps, more, st1);
      TooManyNumbers(ps[1..], tail, st1);
    }
  }

  lemma {:induction false} RefuseDay(n: nat, len: nat, tail: seq<DateUnit>, st: State)
    requires |tail| > 0 && !tail[0].IsSymbol(':') && st.time == [] && |st.day| == DAY_LEN
    ensures Legacy(Cons(Number(n, len), tail), st) == Invalid
  {
    hide Cons, Rest, OffsetStep, Millis, TokenList;
  }

  // ----- which pieces the ISO format would take -----

  ghost function AfterPiece(seps: seq<DateUnit>, ps: seq<Piece>, tail: seq<DateUnit>): (ts: seq<DateUnit>)
    ensures |tail| > 0 ==> |ts| > 0
  {
    SepUnits(seps, PieceUnits(ps, tail))
  }

  /** A single dash and a number of two digits. */
  ghost predicate Dashed(seps: seq<DateUnit>, ps: seq<Piece>) {
    seps == [Symbol('-')] && ps != [] && ps[0].Num? && ps[0].len == 2
  }

  /** The hour of a time must not follow the date behind a dash. */
  ghost predicate DashFree(seps: seq<DateUnit>, ps: seq<Piece>, tail: seq<DateUnit>)
    requires |tail| > 0
  {
    ps == [] && seps == [Symbol('-')] ==> !tail[0].Number?
  }

  /** What the ISO date part makes of the separators and pieces behind a number. */
  lemma {:induction false} DashAfter(day: seq<int>, seps: seq<DateUnit>, ps: seq<Piece>, tail: seq<DateUnit>)
    requires |tail| > 0 && AllSeps(seps) && (seps == [] ==> ps == []) && DashFree(seps, ps, tail) && !tail[0].IsSymbol(':')
    ensures var e := DashPart(IsoDate(true, day, AfterPiece(seps, ps, tail)));
      && (Dashed(seps, ps) ==> e == IsoDate(true, day + [ps[0].value], AfterPiece(ps[0].seps, ps[1..], tail)))
      && (!Dashed(seps, ps) && seps != [] && seps[0].IsSymbol('-') ==> !e.ok && !e.rest[0].IsSymbol(':'))
      && (seps != [] && !seps[0].IsSymbol('-') ==> e == IsoDate(true, day, AfterPiece(seps, ps, tail)))
  {
    hide Cons, Rest, TokenList;
    if seps != [] && seps[0].IsSymbol('-') {
      if |seps| == 1 {
        assert seps == [Symbol('-')];
        assert SepUnits(seps[1..], PieceUnits(ps, tail)) == PieceUnits(ps, tail);
      } else {
        assert IsSep(seps[1]);
      }
    }
  }

  /** Pieces that are exactly a date of the ISO format: four digits, then dashes with two digits each. */
  ghost predicate IsoShape(ps: seq<Piece>) {
    && 1 <= |ps| <= 3 && ps[|ps| - 1].seps == [] && ps[0].Num? && ps[0].len == 4
    && (|ps| > 1 ==> Dashed(ps[0].seps, ps[1..]))
    && (|ps| > 2 ==> Dashed(ps[1].seps, ps[2..]))
  }

  ghost predicate Separated(ps: seq<Piece>, tail: seq<DateUnit>) {
    && ps != [] && PiecesOk(ps, tail) && !IsoShape(ps)
    && (tail[0].StringEnd? || (ps[|ps| - 1].seps != [] && !ps[|ps| - 1].seps[0].IsSymbol('-')))
    && !tail[0].TimeFlag?
  }

  lemma {:induction false} SepAt(seps: seq<DateUnit>, ps: seq<Piece>, tail: seq<DateUnit>)
    requires |tail| > 0 && AllSeps(seps) && seps != []
    ensures IsSep(AfterPiece(seps, ps, tail)[0]) && AfterPiece(seps, ps, tail)[0] == seps[0]
  {
    hide TokenList;
  }

  /** Pieces that are no ISO date make the ISO attempt fail, and not at a colon. */
  lemma {:induction false} IsoRefuses(ps: seq<Piece>, tail: seq<DateUnit>)
    requires Separated(ps, tail)
    ensures var d := IsoDatePart(PieceUnits(ps, tail)); !d.ok && !d.rest[0].IsSymbol(':')
    ensures !PieceUnits(ps, tail)[0].IsSign()
  {
    hide Cons, Rest, TokenList, DashPart, AllSeps, SepUnits;
    var p := ps[0];
    if p.Num? && p.len == 4 {
      IsoRefusesYear(ps, tail);
    } else {
      FirstPiece(ps, tail);
    }
  }

  lemma {:induction false} FirstPiece(ps: seq<Piece>, tail: seq<DateUnit>)
    requires ps != [] && |tail| > 0
    ensures var u, ts := PieceUnits(ps, tail)[0], PieceUnits(ps, tail);
      && u == (if ps[0].Num? then Number(ps[0].value, ps[0].len) else Month(ps[0].month))
      && Rest(ts) == AfterPiece(ps[0].seps, ps[1..], tail)
      && (!(ps[0].Num? && ps[0].len == 4) ==> YearPart(ts) == IsoDate(false, [], ts) && IsoDatePart(ts) == IsoDate(false, [], ts))
      && (ps[0].Num? && ps[0].len == 4 ==> YearPart(ts) == IsoDate(true, [ps[0].value], Rest(ts)))
  {
    hide Cons, TokenList;
  }

  lemma {:induction false} IsoRefusesYear(ps: seq<Piece>, tail: seq<DateUnit>)
    requires Separated(ps, tail) && ps[0].Num? && ps[0].len == 4
    ensures var d := IsoDatePart(PieceUnits(ps, tail)); !d.ok && !d.rest[0].IsSymbol(':')
    ensures !PieceUnits(ps, tail)[0].IsSign()
  {
    hide Cons, Rest, TokenList, DashPart, AllSeps, SepUnits, YearPart, IsSep, AfterPiece;
    FirstPiece(ps, tail);
    var y := IsoDate(true, [ps[0].value], AfterPiece(ps[0].seps, ps[1..], tail));
    StepOk(ps, tail, 0);
    DashAfter(y.day, ps[0].seps, ps[1..], tail);
    if Dashed(ps[0].seps, ps[1..]) {
      assert ps[1..][1..] == ps[2..];
      IsoRefusesMonth(ps, tail, y.day + [ps[1].value]);
    } else {
      Stopped(ps, tail, 0, y.day);
    }
  }

  lemma {:induction false} IsoRefusesMonth(ps: seq<Piece>, tail: seq<DateUnit>, day: seq<int>)
    requires Separated(ps, tail) && ps[0].Num? && ps[0].len == 4 && Dashed(ps[0].seps, ps[1..])
    ensures var e := DashPart(IsoDate(true, day, AfterPiece(ps[1].seps, ps[2..], tail)));
      !e.rest[0].IsSymbol(':') && (e.ok ==> !e.rest[0].TimeFlag? && !e.rest[0].StringEnd?)
  {
    hide Cons, Rest, TokenList, DashPart, AllSeps, SepUnits, IsSep, AfterPiece;
    StepOk(ps, tail, 1);
    DashAfter(day, ps[1].seps, ps[2..], tail);
    if Dashed(ps[1].seps, ps[2..]) {
      assert ps[2..][1..] == ps[3..];
      StepOk(ps, tail, 2);
      SepAt(ps[2].seps, ps[3..], tail);
      NoSep(ps[2].seps[0]);
    } else {
      Stopped(ps, tail, 1, day);
    }
  }

  lemma NoSep(u: DateUnit)
    ensures IsSep(u) ==> !u.TimeFlag? && !u.StringEnd? && !u.IsSymbol(':')
  {
  }

  /** Facts about the separators behind piece i. */
  lemma {:induction false} StepOk(ps: seq<Piece>, tail: seq<DateUnit>, i: nat)
    requires Separated(ps, tail) && i < |ps|
    ensures AllSeps(ps[i].seps) && (ps[i].seps == [] ==> ps[i + 1..] == []) && DashFree(ps[i].seps, ps[i + 1..], tail)
    ensures |tail| > 0 && !tail[0].IsSymbol(':')
  {
    hide AllSeps;
  }

  /** Where the dashes end, the attempt fails. */
  lemma {:induction false} Stopped(ps: seq<Piece>, tail: seq<DateUnit>, i: nat, day: seq<int>)
    requires Separated(ps, tail) && i < |ps| && !Dashed(ps[i].seps, ps[i + 1..]) && ps[i].seps != []
    ensures var e := DashPart(IsoDate(true, day, AfterPiece(ps[i].seps, ps[i + 1..], tail)));
      && !e.rest[0].IsSymbol(':') && (e.ok ==> !e.rest[0].TimeFlag? && !e.rest[0].StringEnd? && !e.rest[0].IsSymbol('-'))
      && DashPart(e) == e
  {
    StepOk(ps, tail, i);
    DashAfter(day, ps[i].seps, ps[i + 1..], tail);
    SepAt(ps[i].seps, ps[i + 1..], tail);
  }

  // ----- times of day -----

  datatype Clock = Clock(hour: DateUnit, min: DateUnit, sec: Option<DateUnit>, frac: Option<DateUnit>)

  /** Numbers throughout. Only seconds before a fraction must be in range, for else the fraction would be the seconds. */
  ghost predicate ClockOk(c: Clock) {
    && c.hour.Number? && c.min.Number? && (c.sec.Some? ==> c.sec.value.Number?)
    && (c.frac.Some? ==> c.sec.Some? && c.frac.value.Number? && SecondIsValid(c.sec.value.value))
  }

  /** The last of minutes and seconds is no part of the time but one of the date's numbers if it is above 59. */
  ghost function Spilled(c: Clock): (ns: seq<nat>)
    requires ClockOk(c)
  {
    var last := if c.sec.Some? then c.sec.value.value else c.min.value;
    if last > 59 then [last] else []
  }

  ghost function SecondPart(sec: DateUnit, frac: Option<DateUnit>, tail: seq<DateUnit>): (ts: seq<DateUnit>)
    ensures |ts| > 0 && ts[0] == sec
  {
    Cons(sec, if frac.Some? then Cons(Symbol('.'), Cons(frac.value, tail)) else tail)
  }

  ghost function ClockPart(c: Clock, tail: seq<DateUnit>): (ts: seq<DateUnit>)
    ensures |ts| > 0 && ts[0] == c.hour
  {
    Cons(c.hour, Cons(Symbol(':'), Cons(c.min, if c.sec.Some? then Cons(Symbol(':'), SecondPart(c.sec.value, c.frac, tail)) else tail)))
  }

  /** The numbers of the time, unless the fraction is too long. */
  ghost function ClockNumbers(c: Clock): (r: Parse<seq<int>>)
    requires ClockOk(c)
  {
    var h, m := c.hour.value, c.min.value;
    if c.sec.None? then Done(if m > 59 then [h] else [h, m])
    else if c.frac.None? then Done(if c.sec.value.value > 59 then [h, m] else [h, m, c.sec.value.value])
    else match Millis(c.frac.value)
      case Done(ms) => Done([h, m, c.sec.value.value, ms])
      case Invalid => Invalid
      case Overflow => Overflow
  }

  lemma {:induction false} ReadSecondPart(h: int, m: int, sec: DateUnit, frac: Option<DateUnit>, tail: seq<DateUnit>, st: State)
    requires sec.Number? && (frac.Some? ==> frac.value.Number? && SecondIsValid(sec.value))
    requires |tail| > 0 && tail[0].IsValidFinallyTime() && st.time == [h, m] && st.hasNumber
    ensures Legacy(SecondPart(sec, frac, tail), st) ==
      if sec.value > 59 then if |st.day| < DAY_LEN then Legacy(tail, st.(day := st.day + [sec.value])) else Invalid
      else if frac.None? then Legacy(tail, st.(time := [h, m, sec.value]))
      else match Millis(frac.value)
        case Done(ms) => Legacy(tail, st.(time := [h, m, sec.value, ms]))
        case Invalid => Invalid
        case Overflow => Overflow
  {
    hide Legacy, Cons, Rest, TokenList, Millis;
    if sec.value > 59 {
      TakeSpilled(sec.value, sec.len, tail, st);
    } else if frac.None? {
      TakeSecond(sec.value, sec.len, tail, st);
      assert [h, m] + [sec.value] == [h, m, sec.value];
    } else {
      TakeFraction(sec.value, sec.len, frac.value, tail, st);
      forall ms: int ensures [h, m] + [sec.value, ms] == [h, m, sec.value, ms] {}
    }
  }

  lemma {:induction false} ReadClockPart(c: Clock, tail: seq<DateUnit>, st: State)
    requires ClockOk(c) && |tail| > 0 && tail[0].IsValidFinallyTime() && st.time == [] && |st.day| <= DAY_LEN
    ensures Legacy(ClockPart(c, tail), st) ==
      if |st.day| + |Spilled(c)| > DAY_LEN then Invalid
      else match ClockNumbers(c)
        case Done(time) => Legacy(tail, st.(time := time, day := st.day + Spilled(c), hasNumber := true))
        case Invalid => Invalid
        case Overflow => Overflow
  {
    hide Legacy, Cons, Rest, TokenList, Millis, SecondPart;
    var h, m := c.hour.value, c.min.value;
    var st1 := st.(time := [h], hasNumber := true);
    assert [] + [h] == [h] && [h] + [m] == [h, m] && st.day + [] == st.day;
    if c.sec.None? {
      TakeClock(h, c.hour.len, Cons(c.min, tail), st);
      if m > 59 { TakeSpilled(m, c.min.len, tail, st1); } else { TakeMinute(m, c.min.len, tail, st1); }
    } else {
      var s := SecondPart(c.sec.value, c.frac, tail);
      TakeClock(h, c.hour.len, Cons(c.min, Cons(Symbol(':'), s)), st);
      TakeClock(m, c.min.len, s, st1);
      ReadSecondPart(h, m, c.sec.value, c.frac, tail, st1.(time := [h, m]));
    }
  }

  // ----- zones -----

  // +hh:mm with numbers of any length, or one number of up to four digits.
  datatype Offset = Pair(minus: bool, h: DateUnit, m: DateUnit) | Plain(minus: bool, n: nat, len: nat)

  // Nothing, the name of UTC, an offset, or both. A blank may stand in front; it must in front of a name but Z.
  datatype ZoneSpec = Nowhere | Named(blank: bool, isName: bool) | Shifted(blank: bool, o: Offset) | NamedShifted(isName: bool, o: Offset)

  ghost predicate OffsetOk(o: Offset) {
    if o.Pair? then o.h.Number? && o.m.Number? else 1 <= o.len <= 4
  }

  ghost predicate ZoneSpecOk(z: ZoneSpec) {
    && (z.Named? && !z.blank ==> !z.isName) && (z.Shifted? || z.NamedShifted? ==> OffsetOk(z.o))
  }

  ghost function OffsetPart(o: Offset, tail: seq<DateUnit>): (ts: seq<DateUnit>)
    ensures |ts| > 0 && ts[0] == SignUnit(o.minus)
  {
    Cons(SignUnit(o.minus), if o.Pair? then Cons(o.h, Cons(Symbol(':'), Cons(o.m, tail))) else Cons(Number(o.n, o.len), tail))
  }

  ghost function Blank(blank: bool, tail: seq<DateUnit>): (ts: seq<DateUnit>)
    ensures |ts| >= |tail|
  {
    if blank then Cons(Space, tail) else tail
  }

  ghost function ZonePart(z: ZoneSpec): (ts: seq<DateUnit>)
    ensures |ts| > 0
  {
    match z
    case Nowhere => [StringEnd]
    case Named(blank, isName) => Blank(blank, Cons(TimeZoneWord(isName), [StringEnd]))
    case Shifted(blank, o) => Blank(blank, OffsetPart(o, [StringEnd]))
    case NamedShifted(isName, o) => Cons(Space, Cons(TimeZoneWord(isName), OffsetPart(o, [StringEnd])))
  }

  ghost function Hours(o: Offset): (h: nat)
    requires OffsetOk(o)
  {
    if o.Pair? then o.h.value else if o.len <= 2 then o.n else o.n / 100
  }

  ghost function Minutes(o: Offset): (m: nat)
    requires OffsetOk(o)
  {
    if o.Pair? then o.m.value else if o.len <= 2 then 0 else o.n % 100
  }

  ghost predicate OffsetInRange(o: Offset)
    requires OffsetOk(o)
  {
    Hours(o) <= 24 && Minutes(o) <= 59
  }

  /** The zone in seconds east of UTC; none at all is local time. */
  ghost function Seconds(z: ZoneSpec): (n: int)
    requires ZoneSpecOk(z)
  {
    match z
    case Nowhere => INT_MAX
    case Named(_, _) => 0
    case Shifted(_, o) => (if o.minus then -1 else 1) * (Hours(o) * 3600 + Minutes(o) * 60)
    case NamedShifted(_, o) => (if o.minus then -1 else 1) * (Hours(o) * 3600 + Minutes(o) * 60)
  }

  ghost predicate SpecInRange(z: ZoneSpec)
    requires ZoneSpecOk(z)
  {
    z.Shifted? || z.NamedShifted? ==> OffsetInRange(z.o)
  }

  ghost function OffsetZone(o: Offset): (z: Zone)
    requires OffsetOk(o)
  {
    Zone(if o.minus then -1 else 1, Hours(o), Minutes(o))
  }

  ghost function SpecZone(z: ZoneSpec): (r: Zone)
    requires ZoneSpecOk(z)
  {
    match z
    case Nowhere => LOCAL
    case Named(_, _) => UTC
    case Shifted(_, o) => OffsetZone(o)
    case NamedShifted(_, o) => OffsetZone(o)
  }

  /** A zone is accepted if and only if its hours and minutes are in range. Hours stay below INT_MAX, which is no hour. */
  lemma {:induction false} SpecSeconds(z: ZoneSpec)
    requires ZoneSpecOk(z) && (z.Shifted? || z.NamedShifted? ==> Hours(z.o) < INT_MAX)
    ensures ZoneField(SpecZone(z)) == if SpecInRange(z) then Some(Seconds(z)) else None
  {
  }

  lemma {:induction false} ReadOffsetPart(o: Offset, st: State)
    requires OffsetOk(o) && (|st.time| > 0 || IsUTC(st.zone))
    ensures Legacy(OffsetPart(o, [StringEnd]), st) == Done(st.(zone := OffsetZone(o)))
  {
    hide Legacy, Cons, Rest, TokenList;
    if o.Pair? { TakePair(o.minus, o.h, o.m, [StringEnd], st); } else { TakeSigned(o.minus, o.n, o.len, [StringEnd], st); }
    TakeEnd(st.(zone := OffsetZone(o)));
  }

  lemma {:induction false} ReadZonePart(z: ZoneSpec, st: State)
    requires ZoneSpecOk(z) && |st.time| > 0 && st.hasNumber && st.zone == LOCAL
    ensures Legacy(ZonePart(z), st) == Done(st.(zone := SpecZone(z))) && ZonePart(z)[0].IsValidFinallyTime()
  {
    hide Legacy, Cons, Rest, TokenList, OffsetPart, OffsetZone;
    match z
    case Nowhere => TakeEnd(st);
    case Named(blank, isName) =>
      if blank { Skip(Space, Cons(TimeZoneWord(isName), [StringEnd]), st); }
      TakeUTC(isName, [StringEnd], st);
      TakeEnd(st.(zone := UTC));
    case Shifted(blank, o) =>
      if blank { Skip(Space, OffsetPart(o, [StringEnd]), st); }
      ReadOffsetPart(o, st);
    case NamedShifted(isName, o) =>
      Skip(Space, Cons(TimeZoneWord(isName), OffsetPart(o, [StringEnd])), st);
      TakeUTC(isName, OffsetPart(o, [StringEnd]), st);
      ReadOffsetPart(o, st.(zone := UTC));
  }

  // ----- what the numbers mean -----

  datatype Reading = Rejected | Date(year: nat, month: int, day: int)

  /** Without a month name: a year; year and month; month, day and year, or year, month and day if the first number is no
      month. With a month name: a day of 2001; a day and a year in that order if the first number can be a day, else in the
      other. */
  ghost function ReadingOf(ns: seq<nat>, month: Option<int>): (r: Reading) {
    match month
    case None =>
      if |ns| == 1 then Date(ns[0], 1, 1)
      else if |ns| == 2 then if 1 <= ns[1] <= 12 then Date(ns[0], ns[1], 1) else Rejected
      else if |ns| != 3 then Rejected
      else if 1 <= ns[0] <= 12 then if 1 <= ns[1] <= 31 then Date(ns[2], ns[0], ns[1]) else Rejected
      else if 1 <= ns[1] <= 12 && 1 <= ns[2] <= 31 then Date(ns[0], ns[1], ns[2]) else Rejected
    case Some(m) =>
      if |ns| == 1 then if 1 <= ns[0] <= 31 then Date(2001, m, ns[0]) else Rejected
      else if |ns| != 2 then Rejected
      else if 1 <= ns[0] <= 31 then Date(ns[1], m, ns[0])
      else if 1 <= ns[1] <= 31 then Date(ns[0], m, ns[1]) else Rejected
  }

  /** The time of day: up to 23:59:59.999, or 24:00:00.000. */
  ghost predicate TimeInRange(time: seq<int>) {
    && |time| <= TIME_LEN
    && var h, m, s, ms := At(time, 0, 0), At(time, 1, 0), At(time, 2, 0), At(time, 3, 0);
      (0 <= h <= 23 && 0 <= m <= 59 && 0 <= s <= 59 && 0 <= ms <= 999) || (h == 24 && m == 0 && s == 0 && ms == 0)
  }

  /** What a date, a time and a zone amount to. */
  ghost predicate Means(p: Parse<Fields>, r: Reading, time: seq<int>, zone: Option<int>) {
    if r.Rejected? || !TimeInRange(time) || zone.None? then p == Invalid
    else
      && p.Done? && Windowed(r.year, p.value.year)
      && p.value == Fields(p.value.year, r.month - 1, r.day, At(time, 0, 0), At(time, 1, 0), At(time, 2, 0), At(time, 3, 0), zone.value)
  }

  ghost function MonthField(month: Option<int>): (m: int) { if month.Some? then month.value else INT_MAX }

  lemma {:induction false} NumbersMean(ns: seq<nat>, month: Option<int>, time: seq<int>, zone: Zone, hasNumber: bool)
    requires (month.Some? ==> 1 <= month.value <= 12) && |time| <= TIME_LEN && |ns| <= DAY_LEN
    ensures Means(Finish(State(ns, MonthField(month), time, zone, hasNumber), false), ReadingOf(ns, month), time, ZoneField(zone))
  {
    DayMeans(ns, month);
    hide DayFields, ReadingOf, ZoneField, Windowed;
  }

  lemma {:induction false} DayMeans(ns: seq<nat>, month: Option<int>)
    requires (month.Some? ==> 1 <= month.value <= 12) && |ns| <= DAY_LEN
    ensures var d, r := DayFields(ns, MonthField(month), false), ReadingOf(ns, month);
      if r.Rejected? then d.None?
      else d.Some? && Windowed(r.year, d.value.year) && d.value == Day(d.value.year, r.month - 1, r.day)
  {
  }

  // ----- whole texts, as tokens -----

  ghost function NamedMonth(ps: seq<Piece>, before: Option<int>): (m: Option<int>) {
    if ps == [] then before else NamedMonth(ps[1..], if ps[0].Mon? then Some(ps[0].month) else before)
  }

  lemma {:induction false} MonthIsNamed(ps: seq<Piece>, before: Option<int>)
    requires forall i :: 0 <= i < |ps| && ps[i].Mon? ==> 1 <= ps[i].month <= 12
    requires before.Some? ==> 1 <= before.value <= 12
    ensures MonthOf(ps, MonthField(before)) == MonthField(NamedMonth(ps, before))
    ensures NamedMonth(ps, before).Some? ==> 1 <= NamedMonth(ps, before).value <= 12
    decreases |ps|
  {
    if ps != [] { MonthIsNamed(ps[1..], if ps[0].Mon? then Some(ps[0].month) else before); }
  }

  ghost predicate MonthsOk(ps: seq<Piece>) {
    forall i :: 0 <= i < |ps| && ps[i].Mon? ==> 1 <= ps[i].month <= 12
  }

  /** The legacy path takes over whatever the ISO attempt has read. */
  lemma {:induction false} PiecesCollect(ps: seq<Piece>, tail: seq<DateUnit>)
    requires Separated(ps, tail) && TokenList(PieceUnits(ps, tail)) && MonthsOk(ps)
    requires |Numbers(ps)| <= DAY_LEN
    ensures ParseTokens(PieceUnits(ps, tail)) ==
      match Legacy(tail, State(Numbers(ps), MonthField(NamedMonth(ps, None)), [], LOCAL, Numbers(ps) != []))
      case Done(st) => Finish(st, false)
      case Invalid => Invalid
      case Overflow => Overflow
  {
    hide Legacy, TokenList, PieceUnits, IsoTimePart, IsoDatePart, Finish, IsoShape;
    var ts := PieceUnits(ps, tail);
    IsoRefuses(ps, tail);
    IsoGivesWay(ts);
    MonthIsNamed(ps, None);
    ReadPieces(ps, tail, StartOf([]));
    assert [] + Numbers(ps) == Numbers(ps);
  }

  /** More than three numbers are never a date. */
  lemma {:induction false} PiecesTooMany(ps: seq<Piece>, tail: seq<DateUnit>)
    requires Separated(ps, tail) && TokenList(PieceUnits(ps, tail)) && MonthsOk(ps)
    requires |Numbers(ps)| > DAY_LEN
    ensures ParseTokens(PieceUnits(ps, tail)) == Invalid
  {
    hide Legacy, TokenList, PieceUnits, IsoTimePart, IsoDatePart, Finish, IsoShape;
    IsoRefuses(ps, tail);
    IsoGivesWay(PieceUnits(ps, tail));
    MonthIsNamed(ps, None);
    TooManyNumbers(ps, tail, StartOf([]));
  }

  /** A date alone is local midnight. */
  lemma {:induction false} DateMeans(ps: seq<Piece>)
    requires Separated(ps, [StringEnd]) && TokenList(PieceUnits(ps, [StringEnd])) && MonthsOk(ps)
    ensures Means(ParseTokens(PieceUnits(ps, [StringEnd])), ReadingOf(Numbers(ps), NamedMonth(ps, None)), [], Some(INT_MAX))
  {
    hide TokenList, PieceUnits, ParseTokens, Separated, MonthsOk, ZoneField, Finish, ReadingOf;
    if |Numbers(ps)| > DAY_LEN {
      PiecesTooMany(ps, [StringEnd]);
      TooManyRejected(Numbers(ps), NamedMonth(ps, None));
    } else {
      PiecesCollect(ps, [StringEnd]);
      var st := State(Numbers(ps), MonthField(NamedMonth(ps, None)), [], LOCAL, Numbers(ps) != []);
      TakeEnd(st);
      NamedInRange(ps);
      LocalZone();
      NumbersMean(Numbers(ps), NamedMonth(ps, None), [], LOCAL, st.hasNumber);
    }
  }

  lemma TooManyRejected(ns: seq<nat>, month: Option<int>)
    requires |ns| > DAY_LEN
    ensures ReadingOf(ns, month).Rejected?
  {
  }

  lemma {:induction false} NamedInRange(ps: seq<Piece>)
    requires MonthsOk(ps)
    ensures NamedMonth(ps, None).Some? ==> 1 <= NamedMonth(ps, None).value <= 12
  {
    MonthIsNamed(ps, None);
  }

  lemma LocalZone()
    ensures ZoneField(LOCAL) == Some(INT_MAX)
  {
  }

  /** A date, a time of day and a zone, each in any form. */
  lemma {:induction false} DateTimeMeans(ps: seq<Piece>, c: Clock, z: ZoneSpec)
    requires ClockOk(c) && ZoneSpecOk(z) && MonthsOk(ps) && (z.Shifted? || z.NamedShifted? ==> Hours(z.o) < INT_MAX)
    requires Separated(ps, ClockPart(c, ZonePart(z))) && TokenList(PieceUnits(ps, ClockPart(c, ZonePart(z))))
    ensures var p := ParseTokens(PieceUnits(ps, ClockPart(c, ZonePart(z))));
      if |Numbers(ps) + Spilled(c)| > DAY_LEN then p == Invalid
      else match ClockNumbers(c)
        case Done(time) =>
          Means(p, ReadingOf(Numbers(ps) + Spilled(c), NamedMonth(ps, None)), time, if SpecInRange(z) then Some(Seconds(z)) else None)
        case Invalid => p == Invalid
        case Overflow => p == Overflow
  {
    hide TokenList, PieceUnits, ParseTokens, Separated, MonthsOk, ZoneField, Finish, ReadingOf, ClockPart, ZonePart, Legacy,
      Millis, Seconds, SpecInRange, SpecZone, ZoneSpecOk, Hours, Spilled;
    var tail := ClockPart(c, ZonePart(z));
    if |Numbers(ps)| > DAY_LEN {
      PiecesTooMany(ps, tail);
    } else {
      PiecesCollect(ps, tail);
      var st := State(Numbers(ps), MonthField(NamedMonth(ps, None)), [], LOCAL, Numbers(ps) != []);
      ZoneFirst(z);
      ReadClockPart(c, ZonePart(z), st);
      var t := ClockNumbers(c);
      var ns := Numbers(ps) + Spilled(c);
      if |ns| <= DAY_LEN && t.Done? {
        ClockStarts(c);
        var st1 := st.(time := t.value, day := ns, hasNumber := true);
        ReadZonePart(z, st1);
        SpecSeconds(z);
        NamedInRange(ps);
        NumbersMean(ns, NamedMonth(ps, None), t.value, SpecZone(z), true);
      }
    }
  }

  lemma {:induction false} ClockStarts(c: Clock)
    requires ClockOk(c)
    ensures ClockNumbers(c).Done? ==> 1 <= |ClockNumbers(c).value| <= TIME_LEN
  {
    hide Millis;
  }

  lemma ZoneFirst(z: ZoneSpec)
    requires ZoneSpecOk(z)
    ensures ZonePart(z)[0].IsValidFinallyTime()
  {
  }

  /** A date and UTC or an offset from it, without a time: midnight there. */
  lemma {:induction false} DateZoneMeans(ps: seq<Piece>, isName: bool, o: Option<Offset>)
    requires MonthsOk(ps) && (o.Some? ==> OffsetOk(o.value) && Hours(o.value) < INT_MAX) && 1 <= |Numbers(ps)| <= DAY_LEN
    requires var tail := Cons(TimeZoneWord(isName), if o.Some? then OffsetPart(o.value, [StringEnd]) else [StringEnd]);
      Separated(ps, tail) && TokenList(PieceUnits(ps, tail))
    ensures var tail := Cons(TimeZoneWord(isName), if o.Some? then OffsetPart(o.value, [StringEnd]) else [StringEnd]);
      var z := if o.Some? then NamedShifted(isName, o.value) else Named(true, isName);
      Means(ParseTokens(PieceUnits(ps, tail)), ReadingOf(Numbers(ps), NamedMonth(ps, None)), [],
            if SpecInRange(z) then Some(Seconds(z)) else None)
  {
    hide TokenList, PieceUnits, ParseTokens, Separated, MonthsOk, ZoneField, Finish, ReadingOf, Legacy, Cons, OffsetPart,
      Seconds, Hours, Minutes, Rest;
    var t := if o.Some? then OffsetPart(o.value, [StringEnd]) else [StringEnd];
    var z := if o.Some? then NamedShifted(isName, o.value) else Named(true, isName);
    PiecesCollect(ps, Cons(TimeZoneWord(isName), t));
    var st := State(Numbers(ps), MonthField(NamedMonth(ps, None)), [], LOCAL, true);
    TakeUTC(isName, t, st);
    if o.Some? { ReadOffsetPart(o.value, st.(zone := UTC)); } else { TakeEnd(st.(zone := UTC)); }
    SpecSeconds(z);
    NamedInRange(ps);
    NumbersMean(Numbers(ps), NamedMonth(ps, None), [], SpecZone(z), true);
  }
}
