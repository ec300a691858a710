/** The mixed hash of a string: a cached decimal integer (bit 31 set) or a 31-bit polynomial hash. */
module StringHash {
  import opened CodeUnits
  import opened Common

  const BIT31: int := 0x8000_0000
  const MAX_INTEGER_HASH_NUMBER: int := 0x3B9A_C9FF
  const MAX_ELEMENT_INDEX_LEN: nat := 10

  function MixHashcode(hash: Uint32, isInteger: bool): (r: Uint32) {
    if isInteger then hash % BIT31 + BIT31 else hash % BIT31
  }

  // ----- decimal numerals -----

  predicate IsDigit(u: int) { 0x30 <= u <= 0x39 }

  ghost predicate AllDigits(s: seq<CodeUnit>) {
    forall i :: 0 <= i < |s| ==> IsDigit(s[i])
  }

  /** A decimal numeral as the language prints it: digits without a superfluous leading zero. */
  ghost predicate IsNumeral(s: seq<CodeUnit>) {
    s != [] && AllDigits(s) && (s[0] == 0x30 ==> |s| == 1)
  }

  ghost function DecValue(s: seq<CodeUnit>): (n: nat)
    requires AllDigits(s)
    decreases |s|
  {
    if s == [] then 0 else 10 * DecValue(s[..|s| - 1]) + (s[|s| - 1] - 0x30)
  }

  lemma {:induction false} DecValueBound(s: seq<CodeUnit>)
    requires AllDigits(s)
    ensures DecValue(s) < Pow10(|s|)
    decreases |s|
  {
    if s != [] { DecValueBound(s[..|s| - 1]); }
  }

  lemma {:induction false} Pow10Nine()
    ensures Pow10(9) == MAX_INTEGER_HASH_NUMBER + 1 && Pow10(10) == 10_000_000_000
  {
    assert Pow10(3) == 1000;
    assert Pow10(6) == 1_000_000;
  }

  lemma {:induction false} ShortValue(s: seq<CodeUnit>)
    requires AllDigits(s) && |s| < MAX_ELEMENT_INDEX_LEN
    ensures DecValue(s) <= MAX_INTEGER_HASH_NUMBER < BIT31
  {
    DecValueBound(s);
    Pow10Monotone(|s|, 9);
    Pow10Nine();
  }

  // ----- the polynomial hash -----

  /** One step of the loop, (hash << 5) - hash + c on 32 bits. */
  function HashStep(hash: Uint32, c: CodeUnit): (r: Uint32) {
    ((hash * 32) % TWO32 - hash + c) % TWO32
  }

  ghost function Poly(data: seq<CodeUnit>, seed: Uint32): (r: Uint32)
    decreases |data|
  {
    if data == [] then seed else HashStep(Poly(data[..|data| - 1], seed), data[|data| - 1])
  }

  method ComputeHashForData(data: seq<CodeUnit>, seed: Uint32) returns (hash: Uint32)
    ensures hash == Poly(data, seed)
  {
    hide HashStep;
    hash := seed;
    for i := 0 to |data|
      invariant hash == Poly(data[..i], seed)
    {
      assert data[..i + 1][..i] == data[..i];
      hash := HashStep(hash, data[i]);
    }
    assert data[..|data|] == data;
  }

  lemma {:induction false} PolyAppend(a: seq<CodeUnit>, b: seq<CodeUnit>, seed: Uint32)
    ensures Poly(a + b, seed) == Poly(b, Poly(a, seed))
    decreases |b|
  {
    hide HashStep;
    if b == [] {
      assert a + b == a;
    } else {
      var b' := b[..|b| - 1];
      assert (a + b)[..|a + b| - 1] == a + b';
      PolyAppend(a, b', seed);
    }
  }

  lemma {:induction false} StepMod(h: Uint32, c: CodeUnit)
    ensures HashStep(h, c) % BIT31 == (31 * h + c) % BIT31
  {
    var q, r := (h * 32) / TWO32, (h * 32) % TWO32;
    assert h * 32 == q * TWO32 + r;
    var x := r - h + c;
    assert x == 31 * h + c - q * TWO32;
    ModMultiple(31 * h + c, -2 * q);
    var p := x / TWO32;
    ModMultiple(x, -2 * p);
  }

  lemma {:induction false} ModMultiple(x: int, k: int)
    ensures (x + k * BIT31) % BIT31 == x % BIT31
  {
    var q, r := x / BIT31, x % BIT31;
    assert x + k * BIT31 == (q + k) * BIT31 + r;
    ModUnique(x + k * BIT31, q + k, r);
  }

  lemma ModUnique(x: int, q: int, r: int)
    requires x == q * BIT31 + r && 0 <= r < BIT31
    ensures x % BIT31 == r
  {
  }

  // 31 is invertible modulo 2^31, so a step never merges two different hashes.
  lemma {:induction false} StepInjective(h: Uint32, g: Uint32, c: CodeUnit)
    ensures HashStep(h, c) % BIT31 == HashStep(g, c) % BIT31 <==> h % BIT31 == g % BIT31
  {
    StepMod(h, c);
    StepMod(g, c);
    var d := h - g;
    if (31 * h + c) % BIT31 == (31 * g + c) % BIT31 {
      var k := (31 * h + c) / BIT31 - (31 * g + c) / BIT31;
      assert 31 * d == k * BIT31;
      // 31 * 1108378657 == 16 * 2^31 - 1
      var m := 16 * d - 1108378657 * k;
      assert d == m * BIT31;
      ModMultiple(g, m);
    }
    if h % BIT31 == g % BIT31 {
      var k := h / BIT31 - g / BIT31;
      assert 31 * h + c == 31 * g + c + 31 * k * BIT31;
      ModMultiple(31 * g + c, 31 * k);
    }
  }

  lemma {:induction false} PolyInjective(data: seq<CodeUnit>, s: Uint32, t: Uint32)
    ensures Poly(data, s) % BIT31 == Poly(data, t) % BIT31 <==> s % BIT31 == t % BIT31
    decreases |data|
  {
    hide HashStep;
    if data != [] {
      var d' := data[..|data| - 1];
      PolyInjective(d', s, t);
      StepInjective(Poly(d', s), Poly(d', t), data[|data| - 1]);
    }
  }

  // ----- the integer hash -----

  /** The accumulator of the digit loop on 32 bits. Units reach it through a uint8_t parameter. */
  ghost function Wrapped(data: seq<CodeUnit>, seed: Uint32): (num: Uint32)
    decreases |data|
  {
    if data == [] then seed
    else WrapDigit(Wrapped(data[..|data| - 1], seed), data[|data| - 1])
  }

  ghost function WrapDigit(num: Uint32, c: CodeUnit): (r: Uint32) {
    (10 * num + c % 0x100 - 0x30) % TWO32
  }

  ghost predicate LowDigitsFrom(data: seq<CodeUnit>, from: nat) {
    forall i :: from <= i < |data| ==> IsDigit(data[i] % 0x100)
  }

  ghost predicate Leads(data: seq<CodeUnit>, seed: Uint32)
    requires data != []
  {
    IsDigit(data[0]) && (seed != 0 || data[0] != 0x30)
  }

  /** What HashIntegerString computes for any data and seed. */
  ghost function IntegerHash(data: seq<CodeUnit>, seed: Uint32): (r: Option<Uint32>)
    requires data != []
  {
    if Leads(data, seed) && LowDigitsFrom(data, 1) then
      if Wrapped(data, seed) <= MAX_INTEGER_HASH_NUMBER then Some(MixHashcode(Wrapped(data, seed), true)) else None
    else if seed == 0 && data == [0x30] then Some(BIT31)
    else None
  }

  lemma {:induction false} WrappedFirst(data: seq<CodeUnit>, seed: Uint32)
    requires |data| == 1 && IsDigit(data[0])
    ensures Wrapped(data, seed) == (10 * seed + data[0] - 0x30) % TWO32
  {
    assert data[..0] == [];
    assert data[0] % 0x100 == data[0];
    assert Wrapped([], seed) == seed;
  }

  method HashIntegerString(data: seq<CodeUnit>, seed: Uint32) returns (r: Option<Uint32>)
    requires data != []
    ensures r == IntegerHash(data, seed)
  {
    if IsDigit(data[0]) && (seed != 0 || data[0] != 0x30) {
      var num: Uint32 := (10 * seed + data[0] - 0x30) % TWO32;
      assert data[..1] == [data[0]];
      WrappedFirst(data[..1], seed);
      var i := 1;
      while i != |data|
        invariant 1 <= i <= |data| && num == Wrapped(data[..i], seed)
        invariant LowDigitsFrom(data[..i], 1)
      {
        var c := data[i] % 0x100;
        if !IsDigit(c) {
          assert !LowDigitsFrom(data, 1);
          return None;
        }
        assert data[..i + 1][..i] == data[..i];
        num := (10 * num + c - 0x30) % TWO32;
        i := i + 1;
      }
      assert data[..|data|] == data;
      return if num <= MAX_INTEGER_HASH_NUMBER then Some(MixHashcode(num, true)) else None;
    }
    if seed == 0 && |data| == 1 && data[0] == 0x30 {
      return Some(MixHashcode(0, true));
    }
    return None;
  }

  lemma {:induction false} WrapStep(x: int, d: int)
    ensures (10 * (x % TWO32) + d) % TWO32 == (10 * x + d) % TWO32
  {
    var q := x / TWO32;
    assert 10 * x + d == 10 * (x % TWO32) + d + 10 * q * TWO32;
    WrapMultiple(10 * (x % TWO32) + d, 10 * q);
  }

  lemma {:induction false} WrapMultiple(x: int, k: int)
    ensures (x + k * TWO32) % TWO32 == x % TWO32
  {
    var q, r := x / TWO32, x % TWO32;
    assert x + k * TWO32 == (q + k) * TWO32 + r;
  }

  lemma {:induction false} WrapDigitValue(x: nat, c: CodeUnit)
    requires IsDigit(c)
    ensures WrapDigit(x % TWO32, c) == (10 * x + (c - 0x30)) % TWO32
  {
    assert c % 0x100 == c;
    WrapStep(x, c - 0x30);
  }

  lemma {:induction false} WrapDigitCarry(x: nat, c: CodeUnit)
    requires IsDigit(c) && x < BIT31
    ensures WrapDigit(x + BIT31, c) == (10 * x + (c - 0x30)) % TWO32
  {
    assert c % 0x100 == c;
    WrapMultiple(10 * x + (c - 0x30), 5);
  }

  /** On digits the accumulator is the decimal value, modulo 2^32. */
  lemma {:induction false} WrappedIsValue(s: seq<CodeUnit>)
    requires AllDigits(s)
    ensures Wrapped(s, 0) == DecValue(s) % TWO32
    decreases |s|
  {
    hide WrapDigit;
    if s != [] {
      WrappedIsValue(s[..|s| - 1]);
      WrapDigitValue(DecValue(s[..|s| - 1]), s[|s| - 1]);
    }
  }

  /** Continuing from the hash of a first numeral: its bit 31 disappears in the first multiplication by 10. */
  lemma {:induction false} WrappedContinues(a: seq<CodeUnit>, b: seq<CodeUnit>)
    requires AllDigits(a) && AllDigits(b) && b != [] && DecValue(a) < BIT31
    ensures AllDigits(a + b) && Wrapped(b, DecValue(a) + BIT31) == DecValue(a + b) % TWO32
    decreases |b|
  {
    hide WrapDigit;
    var b', c := b[..|b| - 1], b[|b| - 1];
    assert (a + b)[..|a + b| - 1] == a + b';
    assert (a + b)[|a + b| - 1] == b[|b| - 1];
    if b' == [] {
      assert a + b' == a;
      WrapDigitCarry(DecValue(a), c);
    } else {
      WrappedContinues(a, b');
      WrapDigitValue(DecValue(a + b'), c);
    }
  }

  /** The hash a content ought to have, whatever the layout, the lookup or the cache it is computed through. */
  ghost function HashOf(s: seq<CodeUnit>): (r: Uint32)
    ensures r >= BIT31 <==> |s| < MAX_ELEMENT_INDEX_LEN && IsNumeral(s)
  {
    if s == [] then 0
    else if |s| < MAX_ELEMENT_INDEX_LEN && IsNumeral(s) then ShortValue(s); BIT31 + DecValue(s)
    else Poly(s, 0) % BIT31
  }

  lemma NumeralIsCompressible(s: seq<CodeUnit>)
    requires AllDigits(s)
    ensures Compressible(s)
  {
  }

  /** On single-byte data the digit loop finds exactly the short numerals. */
  lemma {:induction false} IntegerHashCanonical(s: seq<CodeUnit>)
    requires s != [] && |s| < MAX_ELEMENT_INDEX_LEN && Compressible(s)
    ensures IntegerHash(s, 0) == if IsNumeral(s) then Some(HashOf(s)) else None
  {
    hide Poly, Wrapped, DecValue, Compressible, LowDigitsFrom, IsNumeral;
    if Leads(s, 0) && LowDigitsFrom(s, 1) {
      NarrowIsLow(s);
      LowBytes(s);
      NumeralDigits(s);
      WrappedIsValue(s);
      ShortValue(s);
    } else {
      OtherNumeral(s);
    }
  }

  lemma NarrowIsLow(s: seq<CodeUnit>)
    requires Compressible(s)
    ensures forall i :: 0 <= i < |s| ==> s[i] < 0x100
  {
  }

  lemma NumeralDigits(s: seq<CodeUnit>)
    requires IsNumeral(s)
    ensures AllDigits(s)
  {
  }

  /** A numeral that the digit loop does not take is the one digit 0. */
  lemma {:induction false} OtherNumeral(s: seq<CodeUnit>)
    requires s != [] && !(Leads(s, 0) && LowDigitsFrom(s, 1))
    ensures IsNumeral(s) <==> s == [0x30]
    ensures s == [0x30] ==> DecValue(s) == 0
  {
    if IsNumeral(s) {
      if s[0] != 0x30 { LowFromDigits(s); }
      assert s == [0x30];
    }
    if s == [0x30] { assert s[..0] == []; }
  }

  lemma {:induction false} LowBytes(s: seq<CodeUnit>)
    requires s != [] && Leads(s, 0) && LowDigitsFrom(s, 1) && forall i :: 0 <= i < |s| ==> s[i] < 0x100
    ensures IsNumeral(s)
  {
    forall i | 0 <= i < |s| ensures IsDigit(s[i]) {
      if i > 0 { assert s[i] % 0x100 == s[i]; }
    }
  }

  // ----- the hash of one string, of two parts, and of raw UTF-16 data -----

  /** ComputeRawHashcode of a string with content s: the hash before masking, and whether it is an integer. */
  ghost function RawHash(s: seq<CodeUnit>): (r: (Uint32, bool)) {
    if s == [] then (0, false)
    else if Compressible(s) && |s| < MAX_ELEMENT_INDEX_LEN && IntegerHash(s, 0).Some? then (IntegerHash(s, 0).value, true)
    else (Poly(s, 0), false)
  }

  /** ComputeHashcode(rawHashSeed, isInteger) of a string with content s. */
  ghost function SeededHash(s: seq<CodeUnit>, seed: Uint32, isInteger: bool): (r: Uint32) {
    if s == [] then MixHashcode(seed, isInteger)
    else if Compressible(s) && (seed == 0 || isInteger) && |s| < MAX_ELEMENT_INDEX_LEN && IntegerHash(s, seed).Some?
    then IntegerHash(s, seed).value
    else MixHashcode(Poly(s, seed), false)
  }

  lemma {:induction false} RawHashCases(s: seq<CodeUnit>)
    requires s != []
    ensures |s| < MAX_ELEMENT_INDEX_LEN && IsNumeral(s) ==> RawHash(s) == (HashOf(s), true)
    ensures !(|s| < MAX_ELEMENT_INDEX_LEN && IsNumeral(s)) ==> RawHash(s) == (Poly(s, 0), false)
  {
    hide Poly, IntegerHash;
    if Compressible(s) && |s| < MAX_ELEMENT_INDEX_LEN { IntegerHashCanonical(s); }
    if IsNumeral(s) { NumeralIsCompressible(s); }
  }

  lemma {:induction false} RawHashIsCanonical(s: seq<CodeUnit>)
    ensures MixHashcode(RawHash(s).0, RawHash(s).1) == HashOf(s)
  {
    hide Poly, IntegerHash;
    if s != [] {
      RawHashCases(s);
      if IsNumeral(s) && |s| < MAX_ELEMENT_INDEX_LEN { ShortValue(s); }
    }
  }

  ghost function TwoPartHash(a: seq<CodeUnit>, b: seq<CodeUnit>): (r: Uint32) {
    SeededHash(b, RawHash(a).0, RawHash(a).1)
  }

  ghost predicate ShortNumeral(s: seq<CodeUnit>) {
    |s| < MAX_ELEMENT_INDEX_LEN && IsNumeral(s)
  }

  /** The second part continues the digits of the first in the integer loop, and the loop accepts the total. */
  ghost predicate Continues(a: seq<CodeUnit>, b: seq<CodeUnit>)
    requires AllDigits(a)
  {
    && |b| < MAX_ELEMENT_INDEX_LEN && AllDigits(b) && AllDigits(a + b)
    && DecValue(a + b) % TWO32 <= MAX_INTEGER_HASH_NUMBER
  }

  /** Exactly when looking two parts up finds the hash of their concatenation:
      - one part is empty; or
      - the first part is a short numeral other than "0", continued by digits to at most nine; or
      - the first part is a short numeral not so continued, whose polynomial hash happens to be its value; or
      - the first part is no short numeral, unless its polynomial hash is zero and the second is a short numeral. */
  ghost predicate PartsAgree(a: seq<CodeUnit>, b: seq<CodeUnit>) {
    || a == [] || b == []
    || if ShortNumeral(a) then
         if Continues(a, b) then a[0] != 0x30 && |a| + |b| < MAX_ELEMENT_INDEX_LEN
         else Poly(a, 0) % BIT31 == DecValue(a)
       else !(Poly(a, 0) == 0 && ShortNumeral(b))
  }

  lemma {:induction false} TwoPartWithEmpty(a: seq<CodeUnit>, b: seq<CodeUnit>)
    requires a == [] || b == []
    ensures TwoPartHash(a, b) == HashOf(a + b)
  {
    hide Poly, IntegerHash;
    if b == [] {
      assert a + b == a;
      RawHashIsCanonical(a);
    } else {
      assert a + b == b;
      RawHashIsCanonical(b);
      if Compressible(b) && |b| < MAX_ELEMENT_INDEX_LEN { IntegerHashCanonical(b); }
      if IsNumeral(b) { NumeralIsCompressible(b); }
    }
  }

  lemma {:induction false} NumeralPrefix(a: seq<CodeUnit>, b: seq<CodeUnit>)
    requires a != [] && b != []
    ensures ShortNumeral(a + b) <==> ShortNumeral(a) && a[0] != 0x30 && AllDigits(b) && |a| + |b| < MAX_ELEMENT_INDEX_LEN
  {
    var s := a + b;
    assert s[0] == a[0];
    if ShortNumeral(s) {
      forall i | 0 <= i < |a| ensures IsDigit(a[i]) { assert s[i] == a[i]; }
      forall i | 0 <= i < |b| ensures IsDigit(b[i]) { assert s[|a| + i] == b[i]; }
    }
  }

  lemma {:induction false} SeedOfNumeral(a: seq<CodeUnit>, b: seq<CodeUnit>)
    requires b != [] && ShortNumeral(a)
    ensures DecValue(a) <= MAX_INTEGER_HASH_NUMBER && RawHash(a) == (DecValue(a) + BIT31, true)
    ensures Continues(a, b) ==> TwoPartHash(a, b) == BIT31 + DecValue(a + b) % TWO32
    ensures !Continues(a, b) ==> TwoPartHash(a, b) == Poly(b, DecValue(a) + BIT31) % BIT31
  {
    hide Poly, Wrapped, RawHash, Compressible;
    RawHashCases(a);
    ShortValue(a);
    var seed := DecValue(a) + BIT31;
    if AllDigits(b) { LowFromDigits(b); }
    if |b| < MAX_ELEMENT_INDEX_LEN && Compressible(b) && Leads(b, seed) && LowDigitsFrom(b, 1) {
      DigitsFromLow(b);
      WrappedContinues(a, b);
    }
  }

  lemma {:induction false} LowFromDigits(b: seq<CodeUnit>)
    requires b != [] && AllDigits(b)
    ensures IsDigit(b[0]) && LowDigitsFrom(b, 1) && Compressible(b)
  {
    forall i | 1 <= i < |b| ensures IsDigit(b[i] % 0x100) { assert b[i] % 0x100 == b[i]; }
  }

  lemma {:induction false} DigitsFromLow(b: seq<CodeUnit>)
    requires b != [] && IsDigit(b[0]) && LowDigitsFrom(b, 1) && Compressible(b)
    ensures AllDigits(b)
  {
    forall i | 0 <= i < |b| ensures IsDigit(b[i]) {
      if i > 0 { assert b[i] % 0x100 == b[i]; }
    }
  }

  lemma {:induction false} TwoPartNumeralFirst(a: seq<CodeUnit>, b: seq<CodeUnit>)
    requires b != [] && ShortNumeral(a)
    ensures TwoPartHash(a, b) == HashOf(a + b) <==> PartsAgree(a, b)
  {
    hide Poly, IntegerHash, RawHash, SeededHash;
    SeedOfNumeral(a, b);
    NumeralPrefix(a, b);
    if Continues(a, b) {
      if ShortNumeral(a + b) { ShortValue(a + b); }
    } else {
      if ShortNumeral(a + b) {
        ShortValue(a + b);
        assert false;
      }
      PolyAppend(a, b, 0);
      PolyInjective(b, DecValue(a) + BIT31, Poly(a, 0));
      ModMultiple(DecValue(a), 1);
    }
  }

  lemma {:induction false} TwoPartOtherFirst(a: seq<CodeUnit>, b: seq<CodeUnit>)
    requires a != [] && b != [] && !ShortNumeral(a)
    ensures TwoPartHash(a, b) == HashOf(a + b) <==> PartsAgree(a, b)
  {
    hide Poly, IntegerHash, RawHash;
    RawHashCases(a);
    NumeralPrefix(a, b);
    PolyAppend(a, b, 0);
    if Compressible(b) && |b| < MAX_ELEMENT_INDEX_LEN { IntegerHashCanonical(b); }
    if IsNumeral(b) { NumeralIsCompressible(b); }
  }

  /** The two-part lookup computes the hash of the concatenation exactly when PartsAgree. */
  lemma {:induction false} TwoPartHashAgrees(a: seq<CodeUnit>, b: seq<CodeUnit>)
    ensures TwoPartHash(a, b) == HashOf(a + b) <==> PartsAgree(a, b)
  {
    hide Poly, IntegerHash, RawHash, SeededHash, HashOf;
    if a == [] || b == [] {
      TwoPartWithEmpty(a, b);
    } else if ShortNumeral(a) {
      TwoPartNumeralFirst(a, b);
    } else {
      TwoPartOtherFirst(a, b);
    }
  }

  /** Two inputs for which it does not: "0" followed by "5" is taken for the integer 5, and "1" followed by "a"
      is hashed from the integer 1 instead of from the character. */
  lemma {:induction false} TwoPartHashDisagrees()
    ensures TwoPartHash([0x30], [0x35]) != HashOf([0x30] + [0x35])
    ensures TwoPartHash([0x31], [0x61]) != HashOf([0x31] + [0x61])
  {
    hide IntegerHash, RawHash, SeededHash, HashOf, TwoPartHash;
    TwoPartHashAgrees([0x30], [0x35]);
    assert ([0x30] + [0x35])[..1] == [0x30] && [0x30][..0] == [];
    assert DecValue([0x30]) == 0 && DecValue([0x30] + [0x35]) == 5;
    TwoPartHashAgrees([0x31], [0x61]);
    assert [0x31][..0] == [];
    assert DecValue([0x31]) == 1 && Poly([0x31], 0) == 0x31;
  }

  // ----- raw UTF-16 data -----

  /** ComputeHashcodeUtf16 of non-empty data. */
  ghost function Utf16Hash(data: seq<CodeUnit>): (r: Uint32)
    requires data != []
  {
    if |data| < MAX_ELEMENT_INDEX_LEN && IntegerHash(data, 0).Some? then IntegerHash(data, 0).value
    else MixHashcode(Poly(data, 0), false)
  }

  /** Fewer than ten units, the first a digit 1..9, the low byte of each a digit, and some unit above 0xFF. */
  ghost predicate FalseNumeral(data: seq<CodeUnit>) {
    && 0 < |data| < MAX_ELEMENT_INDEX_LEN && Leads(data, 0) && LowDigitsFrom(data, 1)
    && exists i :: 0 <= i < |data| && data[i] >= 0x100
  }

  ghost function LowBytesOf(data: seq<CodeUnit>): (r: seq<CodeUnit>) {
    seq(|data|, i requires 0 <= i < |data| => data[i] % 0x100)
  }

  lemma {:induction false} WrapLowByte(num: Uint32, c: CodeUnit)
    ensures WrapDigit(num, c) == WrapDigit(num, c % 0x100)
  {
    assert (c % 0x100) % 0x100 == c % 0x100;
  }

  lemma {:induction false} WrappedLowBytes(data: seq<CodeUnit>)
    ensures Wrapped(data, 0) == Wrapped(LowBytesOf(data), 0)
    decreases |data|
  {
    hide WrapDigit;
    if data != [] {
      WrapLowByte(Wrapped(data[..|data| - 1], 0), data[|data| - 1]);
      WrappedLowBytes(data[..|data| - 1]);
      assert LowBytesOf(data)[..|data| - 1] == LowBytesOf(data[..|data| - 1]);
    }
  }

  lemma LowAreDigits(data: seq<CodeUnit>)
    requires 0 < |data| && Leads(data, 0) && LowDigitsFrom(data, 1)
    ensures AllDigits(LowBytesOf(data)) && |LowBytesOf(data)| == |data|
  {
  }

  lemma {:induction false} FalseNumeralIsInteger(data: seq<CodeUnit>)
    requires 0 < |data| < MAX_ELEMENT_INDEX_LEN && Leads(data, 0) && LowDigitsFrom(data, 1)
    ensures IntegerHash(data, 0).Some? && IntegerHash(data, 0).value >= BIT31
  {
    LowAreDigits(data);
    hide Wrapped, DecValue, LowBytesOf, LowDigitsFrom, AllDigits;
    var low := LowBytesOf(data);
    WrappedLowBytes(data);
    WrappedIsValue(low);
    ShortValue(low);
  }

  /** Hashing raw UTF-16 data gives the hash of the string exactly when the data is no false numeral: the
      digit test sees each unit through a uint8_t. */
  lemma {:induction false} Utf16HashAgrees(data: seq<CodeUnit>)
    requires data != []
    ensures Utf16Hash(data) == HashOf(data) <==> !FalseNumeral(data)
  {
    hide Poly, Wrapped;
    if FalseNumeral(data) {
      FalseNumeralIsInteger(data);
      assert !ShortNumeral(data);
    } else if |data| < MAX_ELEMENT_INDEX_LEN {
      Utf16HashShort(data);
    }
  }

  lemma {:induction false} Utf16HashShort(data: seq<CodeUnit>)
    requires 0 < |data| < MAX_ELEMENT_INDEX_LEN && !FalseNumeral(data)
    ensures Utf16Hash(data) == HashOf(data)
  {
    hide Poly, Wrapped;
    if Leads(data, 0) && LowDigitsFrom(data, 1) {
      LowBytes(data);
      NumeralIsCompressible(data);
      IntegerHashCanonical(data);
    } else if IsNumeral(data) {
      NumeralIsCompressible(data);
      IntegerHashCanonical(data);
    }
  }

  /** "1" followed by U+0130, whose low byte is the digit 0, is taken for the integer 10. */
  lemma {:induction false} Utf16HashDisagrees()
    ensures Utf16Hash([0x31, 0x130]) != HashOf([0x31, 0x130])
  {
    hide Utf16Hash, HashOf;
    var d: seq<CodeUnit> := [0x31, 0x130];
    assert d[1] >= 0x100 && d[1] % 0x100 == 0x30;
    Utf16HashAgrees(d);
  }
}
