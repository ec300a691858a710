/** The texts of the legacy formats, character by character. */
module LegacyTexts {
  import opened Common
  import opened DateTokens
  import opened DateParser
  import opened DateIso
  import opened DateText
  import opened DateRoundTrips
  import opened DatePrinters
  import opened LegacySteps
  import opened LegacyForms

  // ----- words in any case -----

  ghost predicate AllAlpha(w: string) { forall i :: 0 <= i < |w| ==> IsAlpha(w[i]) }

  /** The word w starts with the three letters of month m, in whatever case. */
  ghost predicate NamesMonth(w: string, m: nat) {
    m < 12 && |w| >= 3 && AllAlpha(w) && Lower(w[..3]) == MONTHS[m]
  }

  /** The word w is Z, UTC or GMT, in whatever case. */
  ghost predicate NamesUTC(w: string) {
    AllAlpha(w) && (Lower(w) == "z" || Lower(w) == "utc" || Lower(w) == "gmt")
  }

  lemma {:induction false} ScanAnyWord(w: string, tail: string)
    requires |w| > 0 && AllAlpha(w) && !IsAlpha(First(tail))
    ensures Tokens(w + tail) == Cons(WordToken(Lower(Upto(w, |w|, 3))), Tokens(tail))
  {
    hide AlphaSpan, WordToken, Lower;
    var s := w + tail;
    SpanOfWord(w, tail);
    assert s[0] == w[0] && s[|w|..] == tail;
    assert Upto(s, |w|, 3) == Upto(w, |w|, 3);
    WordIsNoEnd(Lower(Upto(w, |w|, 3)));
  }

  lemma {:induction false} ScanMonthWord(w: string, m: nat, tail: string)
    requires NamesMonth(w, m) && !IsAlpha(First(tail))
    ensures Tokens(w + tail) == Cons(Month(m + 1), Tokens(tail))
  {
    hide Tokens, Cons, WordToken, Lower;
    ScanAnyWord(w, tail);
    MonthWord(m);
  }

  lemma {:induction false} ScanZoneWord(w: string, tail: string)
    requires NamesUTC(w) && !IsAlpha(First(tail))
    ensures Tokens(w + tail) == Cons(TimeZoneWord(|w| > 1), Tokens(tail))
  {
    hide Tokens, Cons, WordToken, Lower, AllAlpha, IsAlpha;
    UTCWords();
    LowerLength(w);
    assert Upto(w, |w|, 3) == w;
    ScanAnyWord(w, tail);
  }

  lemma LowerLength(w: string)
    ensures |Lower(w)| == |w|
  {
  }

  lemma UTCWords()
    ensures WordToken("z") == TimeZoneWord(false) && WordToken("utc") == TimeZoneWord(true) && WordToken("gmt") == TimeZoneWord(true)
  {
  }

  // ----- separators -----

  /** Whatever is no digit, no letter, no colon and not the end. */
  ghost predicate IsSepChar(c: char) { !IsDigit(c) && !IsAlpha(c) && c != ':' && c != DEL }

  ghost predicate AllSepChars(s: string) { forall i :: 0 <= i < |s| ==> IsSepChar(s[i]) }

  ghost function SepUnit(c: char): (u: DateUnit)
    requires IsSepChar(c)
    ensures IsSep(u)
  {
    if c == ' ' || c == '\t' then Space else if c == '-' || c == '+' || c == '.' then Symbol(c) else Unknown
  }

  ghost function SepUnitsOf(s: string): (us: seq<DateUnit>)
    requires AllSepChars(s)
    ensures |us| == |s| && AllSeps(us)
  {
    if s == "" then [] else [SepUnit(s[0])] + SepUnitsOf(s[1..])
  }

  lemma {:induction false} ScanSep(c: char, tail: string)
    requires IsSepChar(c)
    ensures Tokens([c] + tail) == Cons(SepUnit(c), Tokens(tail))
  {
    var s := [c] + tail;
    assert s[1..] == tail;
    assert HeadToken(s) == SepUnit(c) && HeadLength(s) == 1;
  }

  lemma {:induction false} ScanSeps(seps: string, tail: string)
    requires AllSepChars(seps)
    ensures Tokens(seps + tail) == SepUnits(SepUnitsOf(seps), Tokens(tail))
    decreases |seps|
  {
    hide Tokens, Cons, SepUnit, TokenList;
    if seps == "" {
      assert seps + tail == tail;
    } else {
      assert seps + tail == [seps[0]] + (seps[1..] + tail);
      ScanSeps(seps[1..], tail);
      ScanSep(seps[0], seps[1..] + tail);
      assert SepUnitsOf(seps)[1..] == SepUnitsOf(seps[1..]);
    }
  }

  // ----- numbers -----

  ghost predicate IsDigits(d: string) { d != "" && AllDigits(d) }

  /** The value that the scanner counts: digits behind the first that takes it above MAX_DECIMAL are dropped. */
  ghost function Value(d: string): (n: nat)
    requires AllDigits(d)
  {
    NumberToken(d).value
  }

  ghost function Unit(d: string): (u: DateUnit)
    requires IsDigits(d)
    ensures u.Number? && u.value == Value(d)
  {
    NumberToken(d)
  }

  /** A value that needs no dropping is that of all the digits. */
  lemma {:induction false} ValueKept(d: string)
    requires IsDigits(d)
    ensures Decimal(d) <= MAX_DECIMAL ==> Value(d) == Decimal(d)
    ensures Value(d) <= MAX_NUMBER
  {
    hide NumberToken;
    NumberBounds(d);
    if Decimal(d) <= MAX_DECIMAL { SmallNumber(d); }
  }

  lemma {:induction false} ShortDigits(d: string)
    requires IsDigits(d)
    ensures |d| <= 4 ==> Unit(d) == Number(Decimal(d), |d|) && Decimal(d) < Pow10(|d|)
    ensures |d| > 4 ==> Unit(d).len > 4
  {
    Widths();
    DecimalBound(d);
    if |d| <= 4 {
      Pow10Monotone(|d|, 4);
      hide NumberToken, Pow10, Decimal;
      SmallNumber(d);
    } else {
      var n := CountFrom(d, 0);
      CountedDigits(d, 0);
      if n <= 4 {
        DecimalBound(d[..n]);
        Pow10Monotone(n, 4);
      }
    }
  }

  // ----- dates -----

  datatype TextPiece = NumText(digits: string, seps: string) | MonText(word: string, m: nat, seps: string)

  ghost predicate PieceTextOk(t: TextPiece) {
    AllSepChars(t.seps) && if t.NumText? then IsDigits(t.digits) else NamesMonth(t.word, t.m)
  }

  /** Separators behind every piece but perhaps the last of a text that ends there. */
  ghost predicate TextOk(ts: seq<TextPiece>, tail: string) {
    && (forall i :: 0 <= i < |ts| ==> PieceTextOk(ts[i]))
    && (forall i :: 0 <= i < |ts| && ts[i].seps == "" ==> i == |ts| - 1 && tail == "")
  }

  ghost function PieceText(t: TextPiece): (s: string) { if t.NumText? then t.digits else t.word }

  ghost function PiecesText(ts: seq<TextPiece>, tail: string): (s: string) {
    if ts == [] then tail else PieceText(ts[0]) + (ts[0].seps + PiecesText(ts[1..], tail))
  }

  ghost function PieceOf(t: TextPiece): (p: Piece)
    requires PieceTextOk(t)
  {
    if t.NumText? then Num(Value(t.digits), Unit(t.digits).len, SepUnitsOf(t.seps)) else Mon(t.m + 1, SepUnitsOf(t.seps))
  }

  ghost function PiecesOf(ts: seq<TextPiece>): (ps: seq<Piece>)
    requires forall i :: 0 <= i < |ts| ==> PieceTextOk(ts[i])
    ensures |ps| == |ts| && forall i :: 0 <= i < |ts| ==> ps[i] == PieceOf(ts[i])
  {
    seq(|ts|, i requires 0 <= i < |ts| => PieceOf(ts[i]))
  }

  lemma {:induction false} ScanPiece(t: TextPiece, more: string)
    requires PieceTextOk(t) && (t.seps == "" ==> more == "")
    ensures Tokens(PieceText(t) + (t.seps + more)) ==
      Cons(if t.NumText? then Unit(t.digits) else Month(t.m + 1), SepUnits(SepUnitsOf(t.seps), Tokens(more)))
  {
    hide Tokens, Cons, NumberToken, AllDigits, SepUnitsOf, NamesMonth, TokenList, AllSepChars, First, SepUnits;
    var rest := t.seps + more;
    SepsEndWords(t.seps, more);
    ScanSeps(t.seps, more);
    if t.NumText? { ScanNumber(t.digits, rest); } else { ScanMonthWord(t.word, t.m, rest); }
  }

  lemma {:induction false} SepsEndWords(seps: string, more: string)
    requires AllSepChars(seps) && (seps == "" ==> more == "")
    ensures !IsDigit(First(seps + more)) && !IsAlpha(First(seps + more))
  {
    if seps != "" { assert IsSepChar(seps[0]); }
  }

  lemma {:induction false} ScanPieces(ts: seq<TextPiece>, tail: string)
    requires TextOk(ts, tail)
    ensures Tokens(PiecesText(ts, tail)) == PieceUnits(PiecesOf(ts), Tokens(tail))
    decreases |ts|
  {
    hide Tokens, Cons, Value, Unit, SepUnits, SepUnitsOf, PieceText, TokenList, PieceTextOk;
    if ts != [] {
      var t, rest := ts[0], ts[1..];
      ScanPieces(rest, tail);
      assert PiecesOf(ts)[1..] == PiecesOf(rest);
      if t.seps == "" { assert rest == []; }
      ScanPiece(t, PiecesText(rest, tail));
    }
  }

  // ----- times of day -----

  datatype TextClock = TextClock(h: string, m: string, sec: Option<string>, frac: Option<string>)

  ghost predicate TextClockOk(c: TextClock) {
    && IsDigits(c.h) && IsDigits(c.m) && (c.sec.Some? ==> IsDigits(c.sec.value))
    && (c.frac.Some? ==> c.sec.Some? && Value(c.sec.value) <= 59 && IsDigits(c.frac.value))
  }

  /** The last of minutes and seconds is read as one of the date's numbers if it is above 59. */
  ghost function SpilledOf(c: TextClock): (ns: seq<nat>)
    requires TextClockOk(c)
  {
    var last := Value(if c.sec.Some? then c.sec.value else c.m);
    if last > 59 then [last] else []
  }

  ghost function ClockOf(c: TextClock): (r: Clock)
    requires TextClockOk(c)
  {
    Clock(Unit(c.h), Unit(c.m),
      if c.sec.Some? then Some(Unit(c.sec.value)) else None,
      if c.frac.Some? then Some(Unit(c.frac.value)) else None)
  }

  ghost function FractionText(frac: Option<string>, tail: string): (s: string) {
    if frac.Some? then "." + (frac.value + tail) else tail
  }

  ghost function ClockText(c: TextClock, tail: string): (s: string) {
    c.h + (":" + (c.m + if c.sec.Some? then ":" + (c.sec.value + FractionText(c.frac, tail)) else tail))
  }

  lemma {:induction false} ScanDigits(d: string, tail: string)
    requires IsDigits(d) && !IsDigit(First(tail))
    ensures Tokens(d + tail) == Cons(Unit(d), Tokens(tail))
  {
    hide Tokens, Cons, NumberToken;
    ScanNumber(d, tail);
  }

  lemma {:induction false} ScanFraction(frac: Option<string>, tail: string)
    requires (frac.Some? ==> IsDigits(frac.value)) && !IsDigit(First(tail))
    ensures Tokens(FractionText(frac, tail)) ==
      if frac.Some? then Cons(Symbol('.'), Cons(Unit(frac.value), Tokens(tail))) else Tokens(tail)
    ensures !IsDigit(First(FractionText(frac, tail)))
  {
    hide Tokens, Cons, IsDigits, Unit, TokenList;
    if frac.Some? {
      ScanDigits(frac.value, tail);
      ScanSymbol('.', frac.value + tail);
    }
  }

  lemma {:induction false} ScanClockText(c: TextClock, tail: string)
    requires TextClockOk(c) && !IsDigit(First(tail))
    ensures Tokens(ClockText(c, tail)) == ClockPart(ClockOf(c), Tokens(tail))
  {
    hide Tokens, Cons, IsDigits, Unit, Value, TokenList, FractionText;
    if c.sec.None? {
      ScanDigits(c.m, tail);
      ScanSymbol(':', c.m + tail);
      ScanDigits(c.h, ":" + (c.m + tail));
    } else {
      var f := FractionText(c.frac, tail);
      ScanFraction(c.frac, tail);
      var s := c.sec.value + f;
      ScanDigits(c.sec.value, f);
      ScanSymbol(':', s);
      ScanDigits(c.m, ":" + s);
      ScanSymbol(':', c.m + (":" + s));
      ScanDigits(c.h, ":" + (c.m + (":" + s)));
    }
  }

  // ----- zones -----

  // hh:mm of any widths, h or hh, hmm or hhmm.
  datatype TextOffset = HourColonMinute(h: string, m: string) | HourOnly(h: string) | HourMinute(h: string, m: string)

  ghost predicate TextOffsetOk(o: TextOffset) {
    && IsDigits(o.h) && (!o.HourOnly? ==> IsDigits(o.m))
    && (!o.HourColonMinute? ==> |o.h| <= 2) && (o.HourMinute? ==> |o.m| == 2)
  }

  ghost function OffsetTextOf(o: TextOffset): (s: string) {
    match o
    case HourColonMinute(h, m) => h + (":" + (m + ""))
    case HourOnly(h) => h + ""
    case HourMinute(h, m) => (h + m) + ""
  }

  ghost function HoursOf(o: TextOffset): (n: nat)
    requires TextOffsetOk(o)
  {
    Value(o.h)
  }

  ghost function MinutesOf(o: TextOffset): (n: nat)
    requires TextOffsetOk(o)
  {
    if o.HourOnly? then 0 else Value(o.m)
  }

  ghost function OffsetOf(minus: bool, o: TextOffset): (r: Offset)
    requires TextOffsetOk(o)
  {
    match o
    case HourColonMinute(h, m) => Pair(minus, Unit(h), Unit(m))
    case HourOnly(h) => Plain(minus, Value(h), |h|)
    case HourMinute(h, m) => Plain(minus, Value(h) * 100 + Value(m), |h| + 2)
  }

  /** Whatever the form, the offset has the hours and minutes written. */
  lemma {:induction false} OffsetKept(minus: bool, o: TextOffset)
    requires TextOffsetOk(o)
    ensures OffsetOk(OffsetOf(minus, o)) && Hours(OffsetOf(minus, o)) == HoursOf(o) && Minutes(OffsetOf(minus, o)) == MinutesOf(o)
    ensures HoursOf(o) <= MAX_NUMBER
  {
    ValueKept(o.h);
    Widths();
    if !o.HourOnly? { ShortDigits(o.m); }
    hide Unit, Pow10, Decimal, NumberToken, AllDigits;
  }

  lemma {:induction false} JoinedDigits(h: string, m: string)
    requires IsDigits(h) && |h| <= 2 && IsDigits(m) && |m| == 2
    ensures IsDigits(h + m) && Unit(h + m) == Number(Value(h) * 100 + Value(m), |h| + 2)
  {
    JoinDigits(h, m);
    ShortDigits(h);
    ShortDigits(m);
    ShortDigits(h + m);
    Widths();
    hide Pow10, Decimal, NumberToken, AllDigits;
  }

  lemma {:induction false} ScanPair(h: string, m: string)
    requires IsDigits(h) && IsDigits(m)
    ensures Tokens(h + (":" + (m + ""))) == Cons(Unit(h), Cons(Symbol(':'), Cons(Unit(m), [StringEnd])))
  {
    hide Tokens, Cons, Unit, IsDigits, TokenList;
    ScanEnd();
    ScanDigits(m, "");
    ScanSymbol(':', m + "");
    ScanDigits(h, ":" + (m + ""));
  }

  lemma {:induction false} ScanJoined(h: string, m: string)
    requires IsDigits(h) && |h| <= 2 && IsDigits(m) && |m| == 2
    ensures Tokens((h + m) + "") == Cons(Number(Value(h) * 100 + Value(m), |h| + 2), [StringEnd])
  {
    hide Tokens, Cons, Unit, Value, IsDigits, TokenList;
    JoinedDigits(h, m);
    ScanEnd();
    ScanDigits(h + m, "");
  }

  lemma {:induction false} ScanHour(h: string)
    requires IsDigits(h) && |h| <= 2
    ensures Tokens(h + "") == Cons(Number(Value(h), |h|), [StringEnd])
  {
    ShortDigits(h);
    hide Tokens, Cons, NumberToken, AllDigits, TokenList;
    ScanEnd();
    ScanDigits(h, "");
  }

  lemma {:induction false} ScanOffsetText(minus: bool, o: TextOffset)
    requires TextOffsetOk(o)
    ensures Tokens(SignText(minus) + OffsetTextOf(o)) == OffsetPart(OffsetOf(minus, o), [StringEnd])
  {
    hide Tokens, Cons, Unit, Value, IsDigits, TokenList;
    match o {
      case HourColonMinute(h, m) => ScanPair(h, m);
      case HourOnly(h) => ScanHour(h);
      case HourMinute(h, m) => ScanJoined(h, m);
    }
    ScanSymbol(if minus then '-' else '+', OffsetTextOf(o));
  }

  // Nothing, a name of UTC, an offset, or both.
  datatype TextZone =
    | NoText
    | Name(blank: bool, word: string)
    | Shift(blank: bool, minus: bool, o: TextOffset)
    | NameShift(word: string, minus: bool, o: TextOffset)

  ghost predicate TextZoneOk(z: TextZone) {
    && (z.Name? || z.NameShift? ==> NamesUTC(z.word)) && (z.Name? && !z.blank ==> |z.word| == 1)
    && (z.Shift? || z.NameShift? ==> TextOffsetOk(z.o))
  }

  ghost function ZoneTextOf(z: TextZone): (s: string) {
    match z
    case NoText => ""
    case Name(blank, w) => (if blank then " " + (w + "") else w + "")
    case Shift(blank, minus, o) => (if blank then " " + (SignText(minus) + OffsetTextOf(o)) else SignText(minus) + OffsetTextOf(o))
    case NameShift(w, minus, o) => " " + (w + (SignText(minus) + OffsetTextOf(o)))
  }

  ghost function SpecOf(z: TextZone): (r: ZoneSpec)
    requires TextZoneOk(z)
  {
    match z
    case NoText => Nowhere
    case Name(blank, w) => Named(blank, |w| > 1)
    case Shift(blank, minus, o) => Shifted(blank, OffsetOf(minus, o))
    case NameShift(w, minus, o) => NamedShifted(|w| > 1, OffsetOf(minus, o))
  }

  lemma {:induction false} WordFirst(w: string, tail: string)
    requires NamesUTC(w)
    ensures w != "" && First(w + tail) == w[0] && IsAlpha(w[0])
  {
    LowerLength(w);
  }

  lemma {:induction false} ScanName(blank: bool, w: string)
    requires NamesUTC(w)
    ensures Tokens(if blank then " " + (w + "") else w + "") == Blank(blank, Cons(TimeZoneWord(|w| > 1), [StringEnd]))
    ensures !IsDigit(First(if blank then " " + (w + "") else w + ""))
  {
    hide Tokens, Cons, TokenList, NamesUTC;
    ScanEnd();
    WordFirst(w, "");
    ScanZoneWord(w, "");
    ScanBlank(' ', w + "");
  }

  lemma {:induction false} ScanShift(blank: bool, minus: bool, o: TextOffset)
    requires TextOffsetOk(o)
    ensures var s := SignText(minus) + OffsetTextOf(o);
      Tokens(if blank then " " + s else s) == Blank(blank, OffsetPart(OffsetOf(minus, o), [StringEnd]))
    ensures var s := SignText(minus) + OffsetTextOf(o); !IsDigit(First(if blank then " " + s else s))
  {
    hide Tokens, Cons, TokenList, OffsetTextOf, OffsetPart, OffsetOf, TextOffsetOk;
    ScanOffsetText(minus, o);
    ScanBlank(' ', SignText(minus) + OffsetTextOf(o));
  }

  lemma {:induction false} ScanNameShift(w: string, minus: bool, o: TextOffset)
    requires NamesUTC(w) && TextOffsetOk(o)
    ensures Tokens(" " + (w + (SignText(minus) + OffsetTextOf(o)))) ==
      Cons(Space, Cons(TimeZoneWord(|w| > 1), OffsetPart(OffsetOf(minus, o), [StringEnd])))
  {
    hide Tokens, Cons, TokenList, OffsetTextOf, OffsetPart, OffsetOf, TextOffsetOk, NamesUTC;
    var s := SignText(minus) + OffsetTextOf(o);
    ScanOffsetText(minus, o);
    ScanZoneWord(w, s);
    ScanBlank(' ', w + s);
  }

  lemma {:induction false} ScanZoneText(z: TextZone)
    requires TextZoneOk(z)
    ensures Tokens(ZoneTextOf(z)) == ZonePart(SpecOf(z)) && !IsDigit(First(ZoneTextOf(z)))
  {
    hide Tokens, Cons, TokenList, NamesUTC, OffsetTextOf, OffsetPart, OffsetOf, TextOffsetOk, Blank;
    match z
    case NoText => ScanEnd();
    case Name(blank, w) => ScanName(blank, w);
    case Shift(blank, minus, o) => ScanShift(blank, minus, o);
    case NameShift(w, minus, o) => ScanNameShift(w, minus, o);
  }

  // ----- whole texts -----

  /** Separators behind every piece, and no dash between the date and the time. */
  ghost predicate Apart(ts: seq<TextPiece>) {
    && ts != [] && (forall i :: 0 <= i < |ts| ==> PieceTextOk(ts[i]) && ts[i].seps != "")
    && ts[|ts| - 1].seps[0] != '-'
  }

  ghost function NumbersOf(ts: seq<TextPiece>): (ns: seq<nat>)
    requires forall i :: 0 <= i < |ts| ==> PieceTextOk(ts[i])
  {
    if ts == [] then []
    else
      assert PieceTextOk(ts[0]);
      (if ts[0].NumText? then [Value(ts[0].digits)] else []) + NumbersOf(ts[1..])
  }

  /** The last month named. */
  ghost function MonthNamed(ts: seq<TextPiece>, before: Option<int>): (m: Option<int>) {
    if ts == [] then before else MonthNamed(ts[1..], if ts[0].MonText? then Some(ts[0].m + 1) else before)
  }

  lemma {:induction false} PiecesAgree(ts: seq<TextPiece>, before: Option<int>)
    requires forall i :: 0 <= i < |ts| ==> PieceTextOk(ts[i])
    ensures Numbers(PiecesOf(ts)) == NumbersOf(ts) && NamedMonth(PiecesOf(ts), before) == MonthNamed(ts, before)
    decreases |ts|
  {
    hide Value, Unit;
    if ts != [] {
      assert PiecesOf(ts)[1..] == PiecesOf(ts[1..]);
      PiecesAgree(ts[1..], if ts[0].MonText? then Some(ts[0].m + 1) else before);
    }
  }

  ghost function ZoneSecondsOf(z: TextZone): (n: int)
    requires TextZoneOk(z)
  {
    match z
    case NoText => INT_MAX
    case Name(_, _) => 0
    case Shift(_, minus, o) => (if minus then -1 else 1) * (HoursOf(o) * 3600 + MinutesOf(o) * 60)
    case NameShift(_, minus, o) => (if minus then -1 else 1) * (HoursOf(o) * 3600 + MinutesOf(o) * 60)
  }

  /** At most 24 hours and 59 minutes. */
  ghost predicate ZoneTextInRange(z: TextZone)
    requires TextZoneOk(z)
  {
    z.Shift? || z.NameShift? ==> HoursOf(z.o) <= 24 && MinutesOf(z.o) <= 59
  }

  lemma {:induction false} SpecAgrees(z: TextZone)
    requires TextZoneOk(z)
    ensures ZoneSpecOk(SpecOf(z)) && Seconds(SpecOf(z)) == ZoneSecondsOf(z)
    ensures SpecInRange(SpecOf(z)) <==> ZoneTextInRange(z)
    ensures SpecOf(z).Shifted? || SpecOf(z).NamedShifted? ==> Hours(SpecOf(z).o) < INT_MAX
  {
    if z.Shift? || z.NameShift? { OffsetKept(z.minus, z.o); }
    hide OffsetOf, Hours, Minutes, NamesUTC, TextOffsetOk, HoursOf, MinutesOf;
  }

  lemma {:induction false} PiecesSeparated(ts: seq<TextPiece>, tail: seq<DateUnit>)
    requires Apart(ts) && |tail| > 0 && tail[0].Number?
    ensures Separated(PiecesOf(ts), tail) && MonthsOk(PiecesOf(ts))
  {
    var ps := PiecesOf(ts);
    forall i | 0 <= i < |ps| ensures AllSeps(ps[i].seps) && (ps[i].seps == [] ==> i == |ps| - 1) {
      assert PieceTextOk(ts[i]);
    }
    var last := ts[|ts| - 1];
    assert PieceTextOk(last);
    assert ps[|ps| - 1].seps[0] == SepUnit(last.seps[0]);
  }

  /** The time of day that a text writes, in numbers; a fraction counts to the millisecond. */
  ghost function TimeOf(c: TextClock): (t: Parse<seq<int>>)
    requires TextClockOk(c)
  {
    if c.sec.None? then Done(if Value(c.m) > 59 then [Value(c.h)] else [Value(c.h), Value(c.m)])
    else if c.frac.None? then
      Done(if Value(c.sec.value) > 59 then [Value(c.h), Value(c.m)] else [Value(c.h), Value(c.m), Value(c.sec.value)])
    else if TooLong(c.frac.value) then Overflow
    else Done([Value(c.h), Value(c.m), Value(c.sec.value), FirstThree(c.frac.value)])
  }

  lemma {:induction false} ClockAgrees(c: TextClock)
    requires TextClockOk(c)
    ensures ClockOk(ClockOf(c)) && ClockNumbers(ClockOf(c)) == TimeOf(c) && Spilled(ClockOf(c)) == SpilledOf(c)
  {
    hide Millis, FirstThree, TooLong, AllDigits, NumberToken;
    if c.frac.Some? { FractionMillis(c.frac.value); }
  }

  /** A legacy date-time in any of its forms means the date that its numbers and month name, the time and the zone that it
      writes; it is rejected exactly when one of them is out of range, and overflows exactly on a fraction that is too
      long. */
  lemma {:induction false} DateTimeTextMeans(ts: seq<TextPiece>, c: TextClock, z: TextZone)
    requires Apart(ts) && TextClockOk(c) && TextZoneOk(z)
    ensures var units := Tokens(PiecesText(ts, ClockText(c, ZoneTextOf(z))));
      && |units| > 0
      && var p := ParseTokens(units);
        var ns := NumbersOf(ts) + SpilledOf(c);
        if |ns| > DAY_LEN then p == Invalid
        else match TimeOf(c)
          case Done(time) =>
            Means(p, ReadingOf(ns, MonthNamed(ts, None)), time, if ZoneTextInRange(z) then Some(ZoneSecondsOf(z)) else None)
          case Invalid => p == Invalid
          case Overflow => p == Overflow
  {
    hide Tokens, ParseTokens, PiecesText, ClockText, ZoneTextOf, PieceUnits, ClockPart, ZonePart, Means, ReadingOf, Separated,
      MonthsOk, TextClockOk, TextZoneOk, PieceTextOk, TokenList, Hours, SpecInRange, Seconds, ZoneSecondsOf, ZoneTextInRange,
      ClockNumbers, ClockOk, TimeOf, Spilled, SpilledOf, ClockOf, SpecOf, ZoneSpecOk, PiecesOf, NumbersOf, MonthNamed, Apart;
    ApartAnywhere(ts, ClockText(c, ZoneTextOf(z)));
    var ps, k, s := PiecesOf(ts), ClockOf(c), SpecOf(z);
    ScanZoneText(z);
    ScanClockText(c, ZoneTextOf(z));
    ScanPieces(ts, ClockText(c, ZoneTextOf(z)));
    TokensList(PiecesText(ts, ClockText(c, ZoneTextOf(z))));
    PiecesAgree(ts, None);
    SpecAgrees(z);
    ClockAgrees(c);
    HourIsNumber(k, s);
    PiecesSeparated(ts, ClockPart(k, ZonePart(s)));
    DateTimeMeans(ps, k, s);
  }

  lemma TokensList(s: string)
    ensures TokenList(Tokens(s)) && |Tokens(s)| > 0
  {
  }

  lemma HourIsNumber(c: Clock, z: ZoneSpec)
    requires ClockOk(c)
    ensures |ClockPart(c, ZonePart(z))| > 0 && ClockPart(c, ZonePart(z))[0].Number?
  {
  }

  lemma {:induction false} ApartAnywhere(ts: seq<TextPiece>, tail: string)
    requires Apart(ts)
    ensures TextOk(ts, tail)
  {
    hide PieceTextOk;
  }

  /** A text that is exactly a date of the ISO format. */
  ghost predicate IsoDateText(ts: seq<TextPiece>) {
    && 1 <= |ts| <= 3 && (forall i :: 0 <= i < |ts| ==> ts[i].NumText?)
    && (forall i :: 0 <= i < |ts| ==> ts[i].seps == if i == |ts| - 1 then "" else "-")
    && |ts[0].digits| == 4
    && (forall i :: 1 <= i < |ts| ==> |ts[i].digits| == 2)
  }

  lemma {:induction false} DashUnit(seps: string)
    requires AllSepChars(seps)
    ensures SepUnitsOf(seps) == [Symbol('-')] <==> seps == "-"
    ensures SepUnitsOf(seps) == [] <==> seps == ""
  {
    if |seps| == 1 {
      assert seps[1..] == "";
      assert seps == [seps[0]];
      assert SepUnitsOf(seps) == [SepUnit(seps[0])];
    }
  }

  lemma {:induction false} WidthKept(d: string)
    requires IsDigits(d)
    ensures Unit(d).len == 4 <==> |d| == 4
    ensures Unit(d).len == 2 <==> |d| == 2
  {
    hide NumberToken, AllDigits, Decimal, Pow10;
    ShortDigits(d);
  }

  /** The two descriptions of an ISO date agree. */
  lemma {:induction false} ShapesAgree(ts: seq<TextPiece>)
    requires TextOk(ts, "")
    ensures IsoShape(PiecesOf(ts)) <==> IsoDateText(ts)
  {
    hide SepUnitsOf, Unit, Value, IsDigits, NamesMonth, AllSepChars;
    var ps := PiecesOf(ts);
    forall i | 0 <= i < |ts|
      ensures AllSepChars(ts[i].seps) && (ps[i].seps == [Symbol('-')] <==> ts[i].seps == "-") && (ps[i].seps == [] <==> ts[i].seps == "")
      ensures ps[i].Num? <==> ts[i].NumText?
      ensures ts[i].NumText? ==> (ps[i].len == 4 <==> |ts[i].digits| == 4) && (ps[i].len == 2 <==> |ts[i].digits| == 2)
    {
      assert PieceTextOk(ts[i]);
      DashUnit(ts[i].seps);
      if ts[i].NumText? { WidthKept(ts[i].digits); }
    }
    assert |ps| > 1 ==> ps[1..][0] == ps[1];
    assert |ps| > 2 ==> ps[2..][0] == ps[2];
  }

  lemma {:induction false} DateSeparated(ts: seq<TextPiece>)
    requires ts != [] && TextOk(ts, "") && !IsoDateText(ts)
    ensures Separated(PiecesOf(ts), [StringEnd]) && MonthsOk(PiecesOf(ts))
  {
    ShapesAgree(ts);
    hide IsoShape, IsoDateText, SepUnitsOf, Unit, Value;
    var ps := PiecesOf(ts);
    forall i | 0 <= i < |ps| ensures AllSeps(ps[i].seps) && (ps[i].seps == [] ==> i == |ps| - 1) {
      assert PieceTextOk(ts[i]);
      DashUnit(ts[i].seps);
    }
  }

  /** Every legacy date that is not in the ISO format is local midnight of the day its numbers and month name. */
  lemma {:induction false} DateTextMeans(ts: seq<TextPiece>)
    requires ts != [] && TextOk(ts, "") && !IsoDateText(ts)
    ensures var units := Tokens(PiecesText(ts, ""));
      |units| > 0 && Means(ParseTokens(units), ReadingOf(NumbersOf(ts), MonthNamed(ts, None)), [], Some(INT_MAX))
  {
    hide Tokens, ParseTokens, PiecesText, PieceUnits, Means, ReadingOf, Separated, MonthsOk, TokenList, PieceTextOk, IsoDateText;
    DateSeparated(ts);
    ScanEnd();
    ScanPieces(ts, "");
    TokensList(PiecesText(ts, ""));
    PiecesAgree(ts, None);
    DateMeans(PiecesOf(ts));
  }

  // ----- three numbers -----

  ghost function Three(a: string, b: string, c: string, sep: string): (ts: seq<TextPiece>) {
    [NumText(a, sep), NumText(b, sep), NumText(c, "")]
  }

  ghost predicate ThreeDigits(a: string, b: string, c: string) { IsDigits(a) && IsDigits(b) && IsDigits(c) }

  lemma {:induction false} ThreeOk(a: string, b: string, c: string, sep: string)
    requires ThreeDigits(a, b, c) && sep != "" && AllSepChars(sep)
    ensures TextOk(Three(a, b, c, sep), "")
  {
    hide IsSepChar, AllDigits;
    assert AllSepChars("");
  }

  lemma {:induction false} ThreeNumbers(a: string, b: string, c: string, sep: string)
    requires ThreeDigits(a, b, c) && sep != "" && AllSepChars(sep)
    ensures TextOk(Three(a, b, c, sep), "")
    ensures NumbersOf(Three(a, b, c, sep)) == [Value(a), Value(b), Value(c)] && MonthNamed(Three(a, b, c, sep), None) == None
  {
    ThreeOk(a, b, c, sep);
    hide Value, PieceTextOk;
    var ts := Three(a, b, c, sep);
    var x, y := ts[1..], ts[2..];
    assert x[1..] == y && y[1..] == [];
    assert NumbersOf(y) == [Value(c)] && NumbersOf(x) == [Value(b), Value(c)];
    assert MonthNamed(y, None) == None && MonthNamed(x, None) == None;
  }

  /** Three numbers between separators that are not single dashes, such as 12/31/1999: month, day and year, or year, month and
      day if the first is no month. */
  lemma {:induction false} SlashDateMeans(a: string, b: string, c: string, sep: string)
    requires ThreeDigits(a, b, c) && sep != "" && sep != "-" && AllSepChars(sep)
    ensures var units := Tokens(PiecesText(Three(a, b, c, sep), ""));
      |units| > 0 && Means(ParseTokens(units), ReadingOf([Value(a), Value(b), Value(c)], None), [], Some(INT_MAX))
  {
    hide Tokens, ParseTokens, PiecesText, Means, ReadingOf, Value, ThreeDigits, TextOk, NumbersOf, MonthNamed;
    var ts := Three(a, b, c, sep);
    ThreeNumbers(a, b, c, sep);
    assert ts[0].seps != "-";
    DateTextMeans(ts);
  }

  ghost predicate IsoWidths(y: string, m: string, d: string) { |y| == 4 && |m| == 2 && |d| == 2 }

  ghost function IsoDateFields(y: nat, m: nat, d: nat): (p: Parse<Fields>) {
    if 1 <= m <= 12 && 1 <= d <= 31 then Done(Fields(y, m - 1, d, 0, 0, 0, 0, 0)) else Invalid
  }

  /** Year, month and day with dashes and numbers of any width. In the ISO widths this is midnight UTC of that very year;
      in any others the numbers are read as the legacy path reads them, and midnight is local. */
  lemma {:induction false} DashDateMeans(y: string, m: string, d: string)
    requires ThreeDigits(y, m, d)
    ensures var units := Tokens(PiecesText(Three(y, m, d, "-"), ""));
      && |units| > 0
      && if IsoWidths(y, m, d) then ParseTokens(units) == IsoDateFields(Value(y), Value(m), Value(d))
         else Means(ParseTokens(units), ReadingOf([Value(y), Value(m), Value(d)], None), [], Some(INT_MAX))
  {
    DashIsSep();
    ThreeNumbers(y, m, d, "-");
    hide Tokens, ParseTokens, PiecesText, Means, ReadingOf, Value, ThreeDigits, TextOk, NumbersOf, MonthNamed, IsoDateFields;
    ThreeIso(y, m, d);
    if IsoWidths(y, m, d) {
      IsoThree(y, m, d);
    } else {
      DateTextMeans(Three(y, m, d, "-"));
    }
  }

  lemma DashIsSep()
    ensures AllSepChars("-")
  {
  }

  lemma {:induction false} ThreeIso(y: string, m: string, d: string)
    ensures IsoDateText(Three(y, m, d, "-")) <==> IsoWidths(y, m, d)
  {
    var ts := Three(y, m, d, "-");
    assert ts[1] == NumText(m, "-") && ts[2] == NumText(d, "");
  }

  lemma {:induction false} IsoThree(y: string, m: string, d: string)
    requires ThreeDigits(y, m, d) && IsoWidths(y, m, d)
    ensures var units := Tokens(PiecesText(Three(y, m, d, "-"), ""));
      |units| > 0 && ParseTokens(units) == IsoDateFields(Value(y), Value(m), Value(d))
  {
    var ts, f := Three(y, m, d, "-"), IsoForm(false, Value(y), [Value(m), Value(d)], None);
    DashIsSep();
    ThreeOk(y, m, d, "-");
    ScanEnd();
    ThreeUnits(y, m, d);
    hide Tokens, ParseTokens, PiecesText, Value, PieceTextOk, Meaning, FormUnits, PieceUnits, ThreeDigits, IsoWidths, IsoDateFields;
    ScanPieces(ts, "");
    IsoDateMeaning(Value(y), Value(m), Value(d));
    FormReads(f, [StringEnd]);
  }

  lemma {:induction false} ThreeUnits(y: string, m: string, d: string)
    requires ThreeDigits(y, m, d) && IsoWidths(y, m, d)
    ensures TextOk(Three(y, m, d, "-"), "")
    ensures PieceUnits(PiecesOf(Three(y, m, d, "-")), [StringEnd]) ==
      FormUnits(IsoForm(false, Value(y), [Value(m), Value(d)], None), [StringEnd])
  {
    var ts := Three(y, m, d, "-");
    DashIsSep();
    ThreeOk(y, m, d, "-");
    DashUnit("-");
    DashUnit("");
    WidthKept(y);
    WidthKept(m);
    WidthKept(d);
    hide SepUnitsOf, Value, Unit, Cons, TokenList, PieceTextOk, IsDigits;
    var ps := PiecesOf(ts);
    assert ps[0] == PieceOf(ts[0]) && ps[1] == PieceOf(ts[1]) && ps[2] == PieceOf(ts[2]);
    assert ps == [Num(Value(y), 4, [Symbol('-')]), Num(Value(m), 2, [Symbol('-')]), Num(Value(d), 2, [])];
    PieceByPiece(Value(y), Value(m), Value(d), ps);
  }

  lemma {:induction false} PieceByPiece(y: nat, m: nat, d: nat, ps: seq<Piece>)
    requires ps == [Num(y, 4, [Symbol('-')]), Num(m, 2, [Symbol('-')]), Num(d, 2, [])]
    ensures PieceUnits(ps, [StringEnd]) ==
      Cons(Number(y, 4), Cons(Symbol('-'), Cons(Number(m, 2), Cons(Symbol('-'), Cons(Number(d, 2), [StringEnd])))))
  {
    hide Cons, TokenList;
    var a, b := ps[1..], ps[2..];
    assert a[1..] == b && b[1..] == [];
    var dash := [Symbol('-')];
    assert dash[1..] == [];
    assert PieceUnits(b, [StringEnd]) == Cons(Number(d, 2), [StringEnd]);
    assert SepUnits(dash, PieceUnits(b, [StringEnd])) == Cons(Symbol('-'), PieceUnits(b, [StringEnd]));
    assert PieceUnits(a, [StringEnd]) == Cons(Number(m, 2), SepUnits(dash, PieceUnits(b, [StringEnd])));
    assert SepUnits(dash, PieceUnits(a, [StringEnd])) == Cons(Symbol('-'), PieceUnits(a, [StringEnd]));
  }

  lemma {:induction false} IsoDateMeaning(y: nat, m: nat, d: nat)
    ensures FormOk(IsoForm(false, y, [m, d], None))
    ensures Meaning(IsoForm(false, y, [m, d], None)) == IsoDateFields(y, m, d)
  {
    assert [y] + [m, d] == [y, m, d];
    IsoDayBack(y, m, d);
    NoTimeIsValid();
    hide DayFields;
  }

  // ----- where a text ends -----

  /** A DEL character ends the text, whatever follows it. */
  lemma {:induction false} DelEnds(tail: string)
    ensures Tokens([DEL] + tail) == [StringEnd]
  {
    assert HeadToken([DEL] + tail).StringEnd?;
  }

  /** The characters between the upper and the lower case count as letters. */
  lemma {:induction false} BracketsAreLetters(tail: string)
    requires !IsAlpha(First(tail))
    ensures Tokens("[]" + tail) == Cons(InvalidWord, Tokens(tail))
  {
    BracketWord();
    hide Tokens, Cons, WordToken, Lower;
    ScanAnyWord("[]", tail);
  }

  lemma {:induction false} BracketWord()
    ensures AllAlpha("[]") && Upto("[]", 2, 3) == "[]" && WordToken(Lower("[]")) == InvalidWord
  {
    hide WordToken, Lower;
    LowerLength("[]");
    ShortWord(Lower("[]"));
  }

  lemma {:induction false} ShortWord(w: string)
    requires |w| == 2
    ensures WordToken(w) == InvalidWord
  {
    forall m: nat | m < 12 ensures MONTHS[m] != w { Distinct(m); }
  }
}
