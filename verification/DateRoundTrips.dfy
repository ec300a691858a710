/** Printing a date and parsing the text gives the date back. */
module DateRoundTrips {
  import opened Common
  import opened DateTokens
  import opened DateParser
  import opened DateIso
  import opened DateText

  // ----- ISO texts -----

  ghost function YearText(signed: bool, year: int, tail: string): (s: string)
    requires !signed ==> year >= 0
  {
    if !signed then Pad(year, 4) + tail
    else if year < 0 then "-" + (Pad(-year, 6) + tail) else "+" + (Pad(year, 6) + tail)
  }

  ghost function DashText(n: nat, tail: string): (s: string) { "-" + (Pad(n, 2) + tail) }

  ghost function DatesText(date: seq<nat>, tail: string): (s: string)
    requires |date| <= 2
  {
    if |date| == 0 then tail else if |date| == 1 then DashText(date[0], tail) else DashText(date[0], DashText(date[1], tail))
  }

  ghost function SecondText(sec: Option<nat>, frac: Option<DateUnit>, ds: string, tail: string): (s: string) {
    if sec.None? then tail else ":" + (Pad(sec.value, 2) + if frac.None? then tail else "." + (ds + tail))
  }

  ghost function ClockText(t: TimeForm, ds: string, tail: string): (s: string) {
    Pad(t.hour, 2) + (":" + (Pad(t.min, 2) + SecondText(t.sec, t.frac, ds, tail)))
  }

  function SignText(minus: bool): (s: string) { if minus then "-" else "+" }

  ghost function ZoneText(z: ZoneForm): (s: string) {
    match z
    case NoZone => ""
    case Zulu => "Z" + ""
    case Colon(minus, h, m) => SignText(minus) + (Pad(h, 2) + (":" + (Pad(m, 2) + "")))
    case Packed(minus, n) => SignText(minus) + (Pad(n, 4) + "")
  }

  ghost function TimeText(t: Option<TimeForm>, ds: string): (s: string) {
    if t.None? then "" else "T" + ClockText(t.value, ds, ZoneText(t.value.zone))
  }

  /** The text of a form; ds are the digits of its fraction. */
  ghost function IsoText(f: IsoForm, ds: string): (s: string)
    requires FormOk(f)
  {
    YearText(f.signed, f.year, DatesText(f.date, TimeText(f.time, ds)))
  }

  /** Each number fits the digits the format gives it. */
  ghost predicate Fits(f: IsoForm, ds: string) {
    && FormOk(f) && (if f.signed then -1_000_000 < f.year < 1_000_000 else f.year < 10_000)
    && (forall i :: 0 <= i < |f.date| ==> f.date[i] < 100)
    && (f.time.Some? ==> TimeFits(f.time.value, ds))
  }

  ghost predicate TimeFits(t: TimeForm, ds: string) {
    && t.hour < 100 && t.min < 100 && (t.sec.Some? ==> t.sec.value < 100)
    && (t.frac.Some? ==> AllDigits(ds) && ds != "" && t.frac.value == NumberToken(ds))
    && (t.zone.Colon? ==> t.zone.hour < 100 && t.zone.min < 100) && (t.zone.Packed? ==> t.zone.hhmm < 10_000)
  }

  lemma {:induction false} Widths()
    ensures Pow10(2) == 100 && Pow10(3) == 1000 && Pow10(4) == 10_000 && Pow10(6) == 1_000_000
  {
    assert Pow10(3) == 1000;
  }

  lemma {:induction false} ScanDash(n: nat, tail: string)
    requires n < 100 && !IsDigit(First(tail))
    ensures Tokens(DashText(n, tail)) == Dash(n, Tokens(tail)) && First(DashText(n, tail)) == '-'
  {
    Widths();
    hide Tokens, Pad, Cons, Pow10, TokenList;
    ScanPad(n, 2, tail);
    ScanSymbol('-', Pad(n, 2) + tail);
  }

  lemma {:induction false} ScanYear(signed: bool, year: int, tail: string)
    requires if signed then -1_000_000 < year < 1_000_000 else 0 <= year < 10_000
    requires !IsDigit(First(tail))
    ensures Tokens(YearText(signed, year, tail)) == YearUnits(signed, year, Tokens(tail))
  {
    Widths();
    hide Tokens, Pad, Cons, Pow10, TokenList;
    if !signed {
      ScanPad(year, 4, tail);
    } else if year < 0 {
      ScanPad(-year, 6, tail);
      ScanSymbol('-', Pad(-year, 6) + tail);
    } else {
      ScanPad(year, 6, tail);
      ScanSymbol('+', Pad(year, 6) + tail);
    }
  }

  lemma {:induction false} ScanDates(date: seq<nat>, tail: string)
    requires |date| <= 2 && !IsDigit(First(tail)) && forall i :: 0 <= i < |date| ==> date[i] < 100
    ensures Tokens(DatesText(date, tail)) == DateUnits(date, Tokens(tail)) && !IsDigit(First(DatesText(date, tail)))
  {
    hide Tokens, Dash, DashText;
    if |date| == 1 {
      ScanDash(date[0], tail);
    } else if |date| == 2 {
      ScanDash(date[1], tail);
      ScanDash(date[0], DashText(date[1], tail));
    }
  }

  lemma {:induction false} ScanSecond(sec: Option<nat>, frac: Option<DateUnit>, ds: string, tail: string)
    requires sec.Some? ==> sec.value < 100
    requires frac.Some? ==> AllDigits(ds) && ds != "" && frac.value == NumberToken(ds)
    requires !IsDigit(First(tail))
    ensures Tokens(SecondText(sec, frac, ds, tail)) == SecondUnits(sec, frac, Tokens(tail))
    ensures !IsDigit(First(SecondText(sec, frac, ds, tail)))
  {
    Widths();
    hide Tokens, Pad, Cons, Pow10, AllDigits, NumberToken, TokenList;
    if sec.Some? {
      var rest := if frac.None? then tail else "." + (ds + tail);
      if frac.Some? {
        ScanNumber(ds, tail);
        ScanSymbol('.', ds + tail);
      }
      ScanPad(sec.value, 2, rest);
      ScanSymbol(':', Pad(sec.value, 2) + rest);
    }
  }

  lemma {:induction false} ScanClock(t: TimeForm, ds: string, tail: string)
    requires TimeFits(t, ds) && !IsDigit(First(tail))
    ensures Tokens(ClockText(t, ds, tail)) == ClockUnits(t, Tokens(tail)) && IsDigit(First(ClockText(t, ds, tail)))
  {
    Widths();
    assert IsDigit(Pad(t.hour, 2)[0]);
    hide Tokens, Pad, Cons, Pow10, AllDigits, NumberToken, SecondText, SecondUnits, TokenList;
    ScanSecond(t.sec, t.frac, ds, tail);
    var rest := SecondText(t.sec, t.frac, ds, tail);
    ScanPad(t.min, 2, rest);
    ScanSymbol(':', Pad(t.min, 2) + rest);
    ScanPad(t.hour, 2, ":" + (Pad(t.min, 2) + rest));
  }

  lemma {:induction false} ScanZone(z: ZoneForm)
    requires (z.Colon? ==> z.hour < 100 && z.min < 100) && (z.Packed? ==> z.hhmm < 10_000)
    ensures Tokens(ZoneText(z)) == ZoneUnits(z, [StringEnd]) && !IsDigit(First(ZoneText(z)))
  {
    Widths();
    ScanEnd();
    hide Tokens, Pad, Cons, Pow10, TokenList;
    match z
    case NoZone =>
    case Zulu => ScanWord("Z", "", "z");
    case Packed(minus, n) =>
      ScanPad(n, 4, "");
      ScanSymbol(if minus then '-' else '+', Pad(n, 4) + "");
    case Colon(minus, h, m) =>
      ScanPad(m, 2, "");
      ScanSymbol(':', Pad(m, 2) + "");
      ScanPad(h, 2, ":" + (Pad(m, 2) + ""));
      ScanSymbol(if minus then '-' else '+', Pad(h, 2) + (":" + (Pad(m, 2) + "")));
  }

  lemma {:induction false} ScanTime(t: Option<TimeForm>, ds: string)
    requires t.Some? ==> TimeFits(t.value, ds)
    ensures Tokens(TimeText(t, ds)) == TimeUnits(t, [StringEnd]) && !IsDigit(First(TimeText(t, ds)))
  {
    if t.None? {
      ScanEnd();
    } else {
      hide Tokens, ClockText, ZoneText, ClockUnits, ZoneUnits, Cons, AllDigits, TokenList;
      var z := ZoneText(t.value.zone);
      ScanZone(t.value.zone);
      ScanClock(t.value, ds, z);
      ScanWord("T", ClockText(t.value, ds, z), "t");
    }
  }

  /** Scanning the text of a form gives its tokens. */
  lemma {:induction false} ScanForm(f: IsoForm, ds: string)
    requires Fits(f, ds)
    ensures Tokens(IsoText(f, ds)) == FormUnits(f, [StringEnd])
  {
    hide Tokens, TimeText, DatesText, YearText, TimeUnits, DateUnits, YearUnits;
    var time := TimeText(f.time, ds);
    ScanTime(f.time, ds);
    ScanDates(f.date, time);
    ScanYear(f.signed, f.year, DatesText(f.date, time));
  }

  /** Every text of the ISO format, in or out of range, parses to exactly what it means. */
  lemma {:induction false} IsoRoundTrip(f: IsoForm, ds: string)
    requires Fits(f, ds)
    ensures |Tokens(IsoText(f, ds))| > 0 && ParseTokens(Tokens(IsoText(f, ds))) == Meaning(f)
  {
    hide Tokens, ParseTokens, Meaning, FormUnits, IsoText;
    ScanForm(f, ds);
    FormReads(f, [StringEnd]);
  }

  // ----- fractions -----

  /** The milliseconds of a fraction: its first three digits, filled up with zeros. */
  ghost function FirstThree(ds: string): (ms: nat)
    requires AllDigits(ds) && ds != ""
  {
    Decimal((ds + "00")[..3])
  }

  lemma {:induction false} Quotient(a: nat, p: nat, b: nat)
    requires b < p
    ensures (a * p + b) / p == a
  {
    var q, r := (a * p + b) / p, (a * p + b) % p;
    assert a * p + b == q * p + r;
    if q < a { Scaled(q + 1, a, p); } else if q > a { Scaled(a + 1, q, p); }
  }

  lemma Scaled(a: nat, b: nat, p: nat)
    requires a <= b
    ensures a * p <= b * p
  {
  }

  lemma {:induction false} LongFraction(ds: string, n: nat)
    requires AllDigits(ds) && 3 <= n <= |ds|
    ensures Decimal(ds[..n]) / Pow10(n - 3) == FirstThree(ds)
  {
    hide Decimal, Pow10;
    var a, b := ds[..3], ds[3..n];
    assert ds[..n] == a + b && (ds + "00")[..3] == a;
    JoinDigits(a, b);
    DecimalBound(b);
    Quotient(Decimal(a), Pow10(n - 3), Decimal(b));
  }

  lemma {:induction false} ShortFractionValue(ds: string)
    requires AllDigits(ds) && 0 < |ds| < 3
    ensures Decimal(ds) * Pow10(3 - |ds|) == FirstThree(ds)
  {
    assert (ds + "00")[..3] == ds + Zeros(3 - |ds|);
    JoinDigits(ds, Zeros(3 - |ds|));
    ZerosValue(3 - |ds|);
  }

  /** The digits counted: more than 12 exactly when the first 12 of more stay within MAX_DECIMAL. */
  ghost predicate TooLong(ds: string)
    requires AllDigits(ds)
  {
    |ds| > 12 && Decimal(ds[..12]) <= MAX_DECIMAL
  }

  lemma {:induction false} CountedBeyond(ds: string)
    requires AllDigits(ds)
    ensures CountFrom(ds, 0) > 12 <==> TooLong(ds)
    ensures CountFrom(ds, 0) >= 3 || CountFrom(ds, 0) == |ds|
  {
    CountedDigits(ds, 0);
    var n := CountFrom(ds, 0);
    if n < 13 && |ds| > 12 {
      PrefixSmaller(ds[..12], n);
      assert ds[..12][..n] == ds[..n];
    }
    if n < 3 {
      hide Decimal;
      DecimalBound(ds[..n]);
      Pow10Monotone(n, 3);
      Widths();
    }
  }

  /** A fraction of any length is cut to milliseconds, or overflows, and exactly when it is too long. */
  lemma {:induction false} FractionMillis(ds: string)
    requires AllDigits(ds) && ds != ""
    ensures Millis(NumberToken(ds)) == if TooLong(ds) then Overflow else Done(FirstThree(ds))
  {
    hide Decimal, Pow10, CountFrom, FirstThree, AllDigits;
    CountedBeyond(ds);
    NumberBounds(ds);
    var n := CountFrom(ds, 0);
    if n >= 3 {
      LongFraction(ds, n);
      PowZero();
    } else {
      assert ds[..n] == ds;
      ShortFractionValue(ds);
    }
  }

  lemma PowZero()
    ensures Pow10(0) == 1
  {
  }

  /** A text with a fraction overflows if and only if the fraction is too long, whatever its other fields are. */
  lemma {:induction false} IsoOverflowsExactly(f: IsoForm, ds: string)
    requires Fits(f, ds) && f.time.Some? && f.time.value.frac.Some?
    ensures var ts := Tokens(IsoText(f, ds)); |ts| > 0 && (ParseTokens(ts) == Overflow <==> TooLong(ds))
  {
    hide Tokens, ParseTokens, IsoText, TooLong, Millis, FirstThree, AllDigits, NumberToken, Finish;
    IsoRoundTrip(f, ds);
    FractionMillis(ds);
    FinishNeverOverflows();
  }

  lemma FinishNeverOverflows()
    ensures forall st: State, iso: bool :: Finish(st, iso) != Overflow
  {
  }

  /** Thirteen digits after the point, twelve of them zero, are enough. */
  lemma {:induction false} OverflowExample()
    ensures var ds := Zeros(12) + "1";
      var f := IsoForm(false, 2000, [1, 1], Some(TimeForm(0, 0, Some(0), Some(NumberToken(ds)), NoZone)));
      Fits(f, ds) && |Tokens(IsoText(f, ds))| > 0 && ParseTokens(Tokens(IsoText(f, ds))) == Overflow
  {
    var ds := Zeros(12) + "1";
    assert ds[..12] == Zeros(12);
    ZerosValue(12);
    NumberBounds(ds);
    assert AllDigits(ds);
    hide Tokens, ParseTokens, IsoText, NumberToken, Zeros;
    IsoOverflowsExactly(IsoForm(false, 2000, [1, 1], Some(TimeForm(0, 0, Some(0), Some(NumberToken(ds)), NoZone))), ds);
  }
}
