/** Printing dates, and what the scanner makes of the printed text. */
module DateText {
  import opened Common
  import opened DateTokens
  import opened DateIso

  // ----- decimal text -----

  function DigitChar(d: nat): (c: char)
    requires d < 10
    ensures IsDigit(c) && DigitOf(c) == d
  {
    ('0' as int + d) as char
  }

  function Digits(n: nat): (s: string)
    ensures |s| > 0 && AllDigits(s)
  {
    if n < 10 then [DigitChar(n)] else Digits(n / 10) + [DigitChar(n % 10)]
  }

  function Zeros(n: nat): (s: string)
    ensures |s| == n && AllDigits(s)
  {
    seq(n, _ => '0')
  }

  function ToCString(n: int): (s: string)
    ensures |s| > 0
  {
    if n < 0 then "-" + Digits(-n) else Digits(n)
  }

  function Missing(width: nat, len: nat): (n: nat) { if len < width then width - len else 0 }

  /** Pads with zeros to a width, after the sign if there is one. */
  method StrToTargetLength(str: string, length: nat) returns (r: string)
    requires |str| > 0
    ensures r == Padded(str, length)
  {
    var len := if str[0] == '-' then |str| - 1 else |str|;
    var sub := "";
    for i := 0 to Missing(length, len)
      invariant sub == Zeros(i)
    {
      sub := sub + "0";
    }
    return if str[0] == '-' then "-" + sub + str[1..] else sub + str;
  }

  function Padded(str: string, length: nat): (r: string)
    requires |str| > 0
  {
    if str[0] == '-' then "-" + Zeros(Missing(length, |str| - 1)) + str[1..] else Zeros(Missing(length, |str|)) + str
  }

  /** The digits of a number, at least width of them. */
  function Pad(n: nat, width: nat): (s: string)
    ensures |s| > 0 && AllDigits(s)
  {
    Zeros(Missing(width, |Digits(n)|)) + Digits(n)
  }

  lemma {:induction false} PaddedNumber(n: int, width: nat)
    ensures Padded(ToCString(n), width) == (if n < 0 then "-" + Pad(-n, width) else Pad(n, width))
  {
    if n < 0 {
      assert ToCString(n)[1..] == Digits(-n);
      assert "-" + Zeros(Missing(width, |Digits(-n)|)) + Digits(-n) == "-" + Pad(-n, width);
    } else {
      assert IsDigit(Digits(n)[0]);
    }
  }

  lemma {:induction false} DigitsValue(n: nat)
    ensures Decimal(Digits(n)) == n
  {
    if n < 10 {
      assert Digits(n)[..0] == "";
    } else {
      DigitsValue(n / 10);
      assert Digits(n)[..|Digits(n)| - 1] == Digits(n / 10);
    }
  }

  lemma {:induction false} DigitsLength(n: nat, k: nat)
    requires k > 0
    ensures |Digits(n)| <= k <==> n < Pow10(k)
    decreases k
  {
    if n >= 10 && k > 1 {
      DigitsLength(n / 10, k - 1);
      assert n < Pow10(k) <==> n / 10 < Pow10(k - 1);
    } else if n < 10 {
      Pow10Monotone(1, k);
      assert Pow10(1) == 10;
    } else {
      assert Pow10(1) == 10;
      assert |Digits(n / 10)| > 0;
    }
  }

  lemma {:induction false} JoinDigits(a: string, b: string)
    requires AllDigits(a) && AllDigits(b)
    ensures AllDigits(a + b) && Decimal(a + b) == Decimal(a) * Pow10(|b|) + Decimal(b)
    decreases |b|
  {
    if b == "" {
      assert a + b == a;
    } else {
      var c, s := b[..|b| - 1], a + b;
      JoinDigits(a, c);
      assert s[..|s| - 1] == a + c && s[|s| - 1] == b[|b| - 1];
      Shift(Decimal(a), Pow10(|c|), Decimal(c), DigitOf(b[|b| - 1]));
    }
  }

  lemma Shift(a: nat, p: nat, c: nat, d: nat)
    ensures (a * p + c) * 10 + d == a * (10 * p) + (c * 10 + d)
  {
  }

  lemma {:induction false} ZerosValue(n: nat)
    ensures Decimal(Zeros(n)) == 0
  {
    if n > 0 {
      ZerosValue(n - 1);
      assert Zeros(n)[..n - 1] == Zeros(n - 1);
    }
  }

  /** Padded digits still have the value, and the width if the number fits it. */
  lemma {:induction false} PadValue(n: nat, width: nat)
    ensures Decimal(Pad(n, width)) == n
    ensures width > 0 && n < Pow10(width) ==> |Pad(n, width)| == width
  {
    hide Digits, Decimal, Zeros, Pow10, AllDigits;
    var z := Zeros(Missing(width, |Digits(n)|));
    JoinDigits(z, Digits(n));
    ZerosValue(|z|);
    DigitsValue(n);
    if width > 0 { DigitsLength(n, width); }
  }

  lemma {:induction false} PadToken(n: nat, width: nat)
    requires n <= MAX_DECIMAL
    ensures NumberToken(Pad(n, width)) == Number(n, |Pad(n, width)|)
    ensures width > 0 && n < Pow10(width) ==> NumberToken(Pad(n, width)) == Number(n, width)
  {
    PadValue(n, width);
    SmallNumber(Pad(n, width));
  }

  // ----- scanning printed text -----

  lemma {:induction false} SpanOfDigits(ds: string, tail: string)
    requires AllDigits(ds) && !IsDigit(First(tail))
    ensures DigitSpan(ds + tail) == |ds|
    decreases |ds|
  {
    hide IsDigit;
    var s := ds + tail;
    if ds == "" {
      assert s == tail;
    } else {
      assert s[0] == ds[0] && s[1..] == ds[1..] + tail;
      SpanOfDigits(ds[1..], tail);
    }
  }

  lemma {:induction false} SpanOfWord(w: string, tail: string)
    requires (forall i :: 0 <= i < |w| ==> IsAlpha(w[i])) && !IsAlpha(First(tail))
    ensures AlphaSpan(w + tail) == |w|
    decreases |w|
  {
    hide IsAlpha;
    var s := w + tail;
    if w == "" {
      assert s == tail;
    } else {
      assert s[0] == w[0] && s[1..] == w[1..] + tail;
      SpanOfWord(w[1..], tail);
    }
  }

  lemma {:induction false} ScanNumber(ds: string, tail: string)
    requires AllDigits(ds) && ds != "" && !IsDigit(First(tail))
    ensures Tokens(ds + tail) == Cons(NumberToken(ds), Tokens(tail))
  {
    hide DigitSpan, NumberToken;
    var s := ds + tail;
    SpanOfDigits(ds, tail);
    NumberIsNoEnd(ds);
    assert s[..|ds|] == ds && s[|ds|..] == tail && IsDigit(s[0]);
  }

  lemma NumberIsNoEnd(ds: string)
    requires AllDigits(ds)
    ensures NumberToken(ds).Number?
  {
  }

  lemma {:induction false} ScanSymbol(c: char, tail: string)
    requires c == ':' || c == '+' || c == '-' || c == '.'
    ensures Tokens([c] + tail) == Cons(Symbol(c), Tokens(tail))
  {
    var s := [c] + tail;
    assert s[1..] == tail;
    assert HeadToken(s) == Symbol(c) && HeadLength(s) == 1;
  }

  lemma {:induction false} ScanBlank(c: char, tail: string)
    requires c == ' ' || c == ',' || c == '/'
    ensures Tokens([c] + tail) == Cons(if c == ' ' then Space else Unknown, Tokens(tail))
  {
    var s := [c] + tail;
    assert s[1..] == tail;
    assert HeadToken(s) == (if c == ' ' then Space else Unknown) && HeadLength(s) == 1;
  }

  lemma ScanEnd()
    ensures Tokens("") == [StringEnd]
  {
  }

  /** A word in any case, of one or three letters. */
  lemma {:induction false} ScanWord(w: string, tail: string, lower: string)
    requires 0 < |w| <= 3 && (forall i :: 0 <= i < |w| ==> IsAlpha(w[i])) && !IsAlpha(First(tail))
    requires |lower| == |w| && forall i :: 0 <= i < |w| ==> lower[i] == GetLower(w[i])
    ensures Tokens(w + tail) == Cons(WordToken(lower), Tokens(tail))
  {
    hide AlphaSpan, WordToken;
    var s := w + tail;
    SpanOfWord(w, tail);
    WordIsNoEnd(lower);
    assert s[0] == w[0] && s[|w|..] == tail;
    assert Upto(s, |w|, 3) == w;
    assert Lower(w) == lower;
  }

  lemma WordIsNoEnd(w: string)
    ensures !WordToken(w).StringEnd?
  {
  }

  lemma {:induction false} ScanPad(n: nat, width: nat, tail: string)
    requires n <= MAX_DECIMAL && !IsDigit(First(tail))
    ensures Tokens(Pad(n, width) + tail) == Cons(Number(n, |Pad(n, width)|), Tokens(tail))
    ensures width > 0 && n < Pow10(width) ==> Tokens(Pad(n, width) + tail) == Cons(Number(n, width), Tokens(tail))
  {
    hide Tokens, Pad, NumberToken, Pow10;
    PadToken(n, width);
    ScanNumber(Pad(n, width), tail);
  }

  lemma Joined(a: string, b: string, c: string)
    ensures (a + b) + c == a + (b + c)
  {
  }
}
