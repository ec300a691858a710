/** Tagged values: the 64-bit words that stand for integers, doubles, holes and heap references. */
module TaggedWords {
  import opened Common
  import opened ElementKinds

  const TWO_32: int := 0x1_0000_0000
  const TWO_48: int := 0x1_0000_0000_0000
  const TWO_52: int := 0x10_0000_0000_0000
  const TWO_63: int := 0x8000_0000_0000_0000
  const TWO_64: int := 0x1_0000_0000_0000_0000

  type Word = w: int | 0 <= w < 0x1_0000_0000_0000_0000
  type Int32 = i: int | -0x8000_0000 <= i < 0x8000_0000

  const TAG_INT: Word := 0xFFFF_0000_0000_0000
  const DOUBLE_ENCODE_OFFSET: Word := 0x1_0000_0000_0000
  const VALUE_HOLE: Word := 5
  const SPECIAL_HOLE: Word := 0xFFFE_0000_0000_0001

  predicate IsInt(w: Word) { w / TWO_48 == 0xFFFF }

  predicate IsObject(w: Word) { w / TWO_48 == 0 }

  predicate IsDouble(w: Word) { !IsInt(w) && !IsObject(w) }

  predicate IsHole(w: Word) { w == VALUE_HOLE || w == 0 }

  predicate IsHeapObject(w: Word) { IsObject(w) && w % 8 < 2 }

  /** The tagged word of an integer: sign extended, with the top sixteen bits set. */
  function FromInt(i: Int32): (w: Word) { if i >= 0 then TAG_INT + i else TWO_64 + i }

  /** The conversion of a 64-bit word to int: its low 32 bits, read as a signed number. */
  function ToInt32(w: Word): (i: Int32) {
    var low := w % TWO_32;
    if low < 0x8000_0000 then low else low - TWO_32
  }

  /** The conversion of an int to a 64-bit word. */
  function ToRaw(i: Int32): (w: Word) { if i >= 0 then i else TWO_64 + i }

  /** A double whose bits survive the encoding offset. */
  predicate Pure(bits: Word) { bits < TAG_INT - DOUBLE_ENCODE_OFFSET }

  function FromDouble(bits: Word): (w: Word)
    requires Pure(bits)
  {
    bits + DOUBLE_ENCODE_OFFSET
  }

  function GetDouble(w: Word): (bits: Word)
    requires IsDouble(w)
  {
    w - DOUBLE_ENCODE_OFFSET
  }

  function GetInt(w: Word): (i: Int32)
    requires IsInt(w)
  {
    ToInt32(w % TWO_48)
  }

  // Words a value can have: an integer word is the sign extension of its low half.
  ghost predicate IsValue(w: Word) {
    IsInt(w) ==> w == FromInt(GetInt(w))
  }

  lemma {:induction false} IntRoundTrip(i: Int32)
    ensures IsInt(FromInt(i)) && GetInt(FromInt(i)) == i && IsValue(FromInt(i))
    ensures ToInt32(ToRaw(i)) == i && ToRaw(i) != SPECIAL_HOLE
    ensures FromInt(i) != SPECIAL_HOLE && !IsHole(FromInt(i))
  {
    if i >= 0 {
      assert FromInt(i) / TWO_48 == 0xFFFF && FromInt(i) % TWO_48 == i;
    } else {
      assert FromInt(i) / TWO_48 == 0xFFFF && FromInt(i) % TWO_48 == TWO_48 + i;
      assert (TWO_48 + i) % TWO_32 == TWO_32 + i;
      assert (TWO_64 + i) % TWO_32 == TWO_32 + i;
    }
  }

  /** An int as a 64-bit word is its two's complement, and its tagged word is that with the top sixteen bits set. */
  lemma TaggedIntWord(i: Int32)
    ensures ToRaw(i) == i % TWO_64
    ensures FromInt(i) / TWO_48 == 0xFFFF && FromInt(i) % TWO_48 == ToRaw(i) % TWO_48
  {
    if i >= 0 {
      assert FromInt(i) / TWO_48 == 0xFFFF && FromInt(i) % TWO_48 == i;
    } else {
      assert FromInt(i) / TWO_48 == 0xFFFF && FromInt(i) % TWO_48 == TWO_48 + i;
    }
  }

  const TAG_SPECIAL: Word := 2
  const TAG_BOOLEAN: Word := 4

  /** The bit b, a power of two, of a word. */
  ghost predicate HasBit(w: Word, b: nat)
    requires b > 0
  {
    w / b % 2 == 1
  }

  /** Heap references are the words with none of the tag, special and boolean bits, aligned or marked weak. */
  lemma HeapWords(w: Word)
    ensures IsHeapObject(w) <==> w / TWO_48 == 0 && !HasBit(w, TAG_SPECIAL) && !HasBit(w, TAG_BOOLEAN)
    ensures IsHeapObject(w) ==> !IsInt(w) && !IsDouble(w) && w != VALUE_HOLE
  {
    LowBits(w / 8, w % 8);
  }

  lemma {:induction false} LowBits(q: nat, r: nat)
    requires r < 8
    ensures (8 * q + r) / 2 % 2 == r / 2 % 2 && (8 * q + r) / 4 % 2 == r / 4
  {
    Halved(4 * q + r / 2, r % 2);
    Halved(2 * q + r / 4, r / 2 % 2);
    assert (8 * q + r) / 4 == (8 * q + r) / 2 / 2;
    EvenPart(2 * q, r / 2);
    EvenPart(q, r / 4);
  }

  lemma Halved(a: nat, b: nat)
    requires b < 2
    ensures (2 * a + b) / 2 == a
  {
  }

  lemma EvenPart(a: nat, b: nat)
    ensures (2 * a + b) % 2 == b % 2
  {
  }

  lemma DoubleRoundTrip(bits: Word)
    requires Pure(bits)
    ensures IsDouble(FromDouble(bits)) && GetDouble(FromDouble(bits)) == bits && IsValue(FromDouble(bits))
    ensures bits != SPECIAL_HOLE && !IsHole(FromDouble(bits))
  {
  }

  lemma DoubleIsPure(w: Word)
    requires IsDouble(w)
    ensures Pure(GetDouble(w)) && FromDouble(GetDouble(w)) == w
  {
  }

  function FloorLog2(n: nat): (e: nat)
    requires n > 0
    ensures Pow2(e) <= n < Pow2(e + 1)
  {
    if n == 1 then 0 else FloorLog2(n / 2) + 1
  }

  function Abs(i: int): (n: nat) { if i < 0 then -i else i }

  /** The IEEE 754 fraction of the number m, whose leading bit has weight 2^e. */
  function Fraction(m: nat, e: nat): (f: nat)
    requires e <= 52 && Pow2(e) <= m < Pow2(e + 1)
    ensures f < TWO_52
    ensures (TWO_52 + f) * Pow2(e) == m * TWO_52
  {
    FractionExact(m, e);
    (m - Pow2(e)) * Pow2(52 - e)
  }

  lemma {:induction false} Pow2Split(a: nat, b: nat)
    ensures Pow2(a) * Pow2(b) == Pow2(a + b)
  {
    if a > 0 {
      Pow2Split(a - 1, b);
      assert Pow2(a) * Pow2(b) == 2 * (Pow2(a - 1) * Pow2(b));
    }
  }

  lemma {:induction false} Pow2Values()
    ensures Pow2(16) == 65536 && Pow2(32) == TWO_32 && Pow2(52) == TWO_52
  {
    assert Pow2(4) == 16;
    hide Pow2;
    Pow2Split(4, 4);
    Pow2Split(8, 8);
    Pow2Split(16, 16);
    Pow2Split(16, 4);
    Pow2Split(32, 20);
  }

  lemma {:induction false} Pow2Grows(a: nat, b: nat)
    requires a <= b
    ensures Pow2(a) <= Pow2(b)
  {
    if a < b { Pow2Grows(a, b - 1); }
  }

  lemma {:induction false} FractionExact(m: nat, e: nat)
    requires e <= 52 && Pow2(e) <= m < Pow2(e + 1)
    ensures 0 <= (m - Pow2(e)) * Pow2(52 - e) < TWO_52
    ensures (TWO_52 + (m - Pow2(e)) * Pow2(52 - e)) * Pow2(e) == m * TWO_52
  {
    assert Pow2(e + 1) == 2 * Pow2(e);
    hide Pow2;
    Pow2Values();
    Pow2Split(e, 52 - e);
    Scale(m - Pow2(e), Pow2(e), Pow2(52 - e));
    Spread(m - Pow2(e), Pow2(e), Pow2(52 - e));
  }

  lemma Scale(d: nat, p: nat, q: nat)
    requires d < p && q > 0
    ensures 0 <= d * q < p * q
  {
  }

  lemma Spread(d: nat, p: nat, q: nat)
    ensures (p * q + d * q) * p == (p + d) * (p * q)
  {
  }

  lemma {:induction false} Exponent31(n: nat, e: nat)
    requires 0 < n <= 0x8000_0000 && Pow2(e) <= n
    ensures e <= 31
  {
    hide Pow2;
    Pow2Values();
    if e > 31 { Pow2Grows(32, e); }
  }

  /** The double with the value of an integer. */
  function IntToDouble(i: Int32): (bits: Word)
    ensures Pure(bits) && bits < 0xC200_0000_0000_0000
  {
    if i == 0 then 0
    else
      var e := FloorLog2(Abs(i));
      Exponent31(Abs(i), e);
      (if i < 0 then TWO_63 else 0) + (1023 + e) * TWO_52 + Fraction(Abs(i), e)
  }

  /** IEEE 754 double fields: sign, biased exponent, fraction. */
  function SignOf(bits: Word): (s: int) { if bits >= TWO_63 then -1 else 1 }
  function ExponentOf(bits: Word): (e: int) { (bits % TWO_63) / TWO_52 }
  function FractionOf(bits: Word): (f: int) { bits % TWO_52 }

  /** Converting is exact: the normal double with these fields has the value of i. */
  lemma {:induction false} IntToDoubleExact(i: Int32)
    requires i != 0
    ensures var b := IntToDouble(i); var e := ExponentOf(b) - 1023;
      0 <= e <= 31 && SignOf(b) * (TWO_52 + FractionOf(b)) * Pow2(e) == i * TWO_52
  {
    hide Pow2;
    var e := FloorLog2(Abs(i));
    Exponent31(Abs(i), e);
    var f := Fraction(Abs(i), e);
    var b := IntToDouble(i);
    Fields(i < 0, e, f, b);
    if i < 0 {
      assert SignOf(b) * (TWO_52 + f) * Pow2(e) == -((TWO_52 + f) * Pow2(e)) by { Negate(TWO_52 + f, Pow2(e)); }
    }
  }

  lemma Negate(a: int, b: int)
    ensures -1 * a * b == -(a * b)
  {
  }

  lemma Fields(negative: bool, e: nat, f: nat, b: Word)
    requires e <= 31 && f < TWO_52
    requires b == (if negative then TWO_63 else 0) + (1023 + e) * TWO_52 + f
    ensures SignOf(b) == (if negative then -1 else 1) && ExponentOf(b) == 1023 + e && FractionOf(b) == f
  {
  }

  // ----- from doubles back to integers -----

  /** The double's magnitude is below 2^63, or it is -2^63: its conversion to a 64-bit integer is defined. */
  predicate Truncates(bits: Word) {
    ExponentOf(bits) <= 1023 + 62 || (bits >= TWO_63 && ExponentOf(bits) == 1023 + 63 && FractionOf(bits) == 0)
  }

  /** The conversion to a 64-bit integer, towards zero. */
  function Truncate(bits: Word): (n: int)
    requires Truncates(bits)
    ensures -TWO_63 <= n < TWO_63
  {
    var e := ExponentOf(bits) - 1023;
    if e < 0 then 0
    else
      TruncateBound(FractionOf(bits), e);
      SignOf(bits) * ((TWO_52 + FractionOf(bits)) * Pow2(e) / TWO_52)
  }

  lemma {:induction false} TruncateBound(f: nat, e: nat)
    requires f < TWO_52 && e <= 63 && (e == 63 ==> f == 0)
    ensures 0 <= (TWO_52 + f) * Pow2(e) / TWO_52 <= TWO_63
    ensures e <= 62 ==> (TWO_52 + f) * Pow2(e) / TWO_52 < TWO_63
  {
    Pow2Big();
    hide Pow2;
    var a, p := TWO_52 + f, Pow2(e);
    if e <= 62 {
      Pow2Grows(e, 62);
      MulMono(a, 2 * TWO_52 - 1, p, 0x4000_0000_0000_0000);
    }
  }

  lemma {:induction false} Pow2Fifteen()
    ensures Pow2(15) == 32768
  {
    assert Pow2(5) == 32;
    Pow2Split(5, 5);
    Pow2Split(10, 5);
  }

  lemma {:induction false} Pow2Big()
    ensures Pow2(62) == 0x4000_0000_0000_0000 && Pow2(63) == TWO_63
  {
    Pow2Values();
    Pow2Fifteen();
    assert Pow2(63) == 2 * Pow2(62);
    hide Pow2;
    Pow2Split(32, 15);
    Pow2Split(47, 15);
  }

  lemma MulMono(a: nat, b: nat, p: nat, q: nat)
    requires a <= b && p <= q
    ensures a * p <= b * q
  {
  }

  /** The magnitude of a finite double, in units of the smallest one, 2^-1074. */
  ghost function Magnitude(bits: Word): (m: nat)
    requires ExponentOf(bits) < 0x7FF
  {
    if ExponentOf(bits) == 0 then FractionOf(bits)
    else (TWO_52 + FractionOf(bits)) * Pow2(ExponentOf(bits) - 1)
  }

  /** The conversion yields the integer nearest to zero: n <= x < n + 1 in magnitude, with the sign of x. */
  lemma TruncateNearestZero(bits: Word)
    requires Truncates(bits)
    ensures var n := Truncate(bits);
      && Abs(n) * Pow2(1074) <= Magnitude(bits) < (Abs(n) + 1) * Pow2(1074)
      && (bits < TWO_63 ==> n >= 0) && (bits >= TWO_63 ==> n <= 0)
  {
    hide Pow2;
    if ExponentOf(bits) < 1023 {
      BelowOne(bits);
    } else {
      AtLeastOne(FractionOf(bits), ExponentOf(bits) - 1023);
    }
  }

  lemma AtLeastOne(f: nat, e: nat)
    requires f < TWO_52 && e <= 63 && (e == 63 ==> f == 0)
    ensures var q := (TWO_52 + f) * Pow2(e) / TWO_52;
      0 <= q && q * Pow2(1074) <= (TWO_52 + f) * Pow2(e + 1022) < (q + 1) * Pow2(1074)
  {
    hide Pow2;
    TruncateBound(f, e);
    Pow2Values();
    Pow2Split(e, 1022);
    Pow2Split(52, 1022);
    var a, p := TWO_52 + f, Pow2(e);
    Quotient52(a * p, a * p / TWO_52);
    ScaleQuotient(a, p, a * p / TWO_52, TWO_52, Pow2(1022));
  }

  lemma ScaleQuotient(a: nat, p: nat, q: nat, d: nat, s: nat)
    requires q * d <= a * p < (q + 1) * d && s > 0
    ensures q * (d * s) <= a * (p * s) < (q + 1) * (d * s)
  {
    Associate(q, d, s);
    Associate(q + 1, d, s);
    Associate(a, p, s);
    Ordered(q * d, a * p, s);
    Ordered(a * p + 1, (q + 1) * d, s);
    StrictlyLess(a * p, s);
  }

  lemma Associate(a: nat, b: nat, c: nat)
    ensures a * b * c == a * (b * c)
  {
  }

  lemma Quotient52(x: nat, q: nat)
    requires q == x / TWO_52
    ensures q * TWO_52 <= x < (q + 1) * TWO_52
  {
  }

  lemma Ordered(a: nat, b: nat, p: nat)
    requires a <= b
    ensures a * p <= b * p
  {
  }

  lemma StrictlyLess(a: nat, p: nat)
    requires p > 0
    ensures a * p < (a + 1) * p
  {
  }

  lemma {:induction false} BelowOne(bits: Word)
    requires ExponentOf(bits) < 1023
    ensures Magnitude(bits) < Pow2(1074)
  {
    hide Pow2;
    SmallScale(FractionOf(bits), if ExponentOf(bits) == 0 then 0 else ExponentOf(bits) - 1);
  }

  lemma SmallScale(f: nat, k: nat)
    requires f < TWO_52 && k <= 1021
    ensures (TWO_52 + f) * Pow2(k) < Pow2(1074) && f < Pow2(1074)
  {
    hide Pow2;
    Pow2Values();
    Pow2Split(1, 52);
    PowOne();
    Pow2Split(53, 1021);
    Pow2Grows(k, 1021);
    Pow2Grows(52, 1074);
    MulMono(TWO_52 + f, 2 * TWO_52 - 1, Pow2(k), Pow2(1021));
    StrictlyLess(2 * TWO_52 - 1, Pow2(1021));
  }

  lemma PowOne()
    ensures Pow2(1) == 2
  {
  }

  /** Converting an integer to a double and back is the identity. */
  lemma {:induction false} TruncateOfInt(i: Int32)
    ensures Truncates(IntToDouble(i)) && Truncate(IntToDouble(i)) == i
  {
    if i != 0 {
      IntToDoubleExact(i);
      var b := IntToDouble(i);
      hide IntToDouble, Pow2;
      var m := (TWO_52 + FractionOf(b)) * Pow2(ExponentOf(b) - 1023);
      if SignOf(b) < 0 { Negate(TWO_52 + FractionOf(b), Pow2(ExponentOf(b) - 1023)); }
      assert m == Abs(i) * TWO_52;
    }
  }

  /** Some integer has this double as its value. */
  ghost predicate Integral(bits: Word) {
    exists i: Int32 :: bits == IntToDouble(i)
  }

  /** The word stored for a double that becomes an integer. */
  function Narrowed(bits: Word): (raw: Word)
    requires Truncates(bits)
  {
    var n := Truncate(bits);
    if n >= 0 then n else TWO_64 + n
  }

  lemma {:induction false} NarrowedInt(i: Int32)
    ensures Truncates(IntToDouble(i)) && Narrowed(IntToDouble(i)) == ToRaw(i)
  {
    hide IntToDouble, Truncate;
    TruncateOfInt(i);
  }

  // What a value means to a program: numbers are equal whichever tag they carry.
  datatype Meaning = AHole | ANumber(bits: int) | AnythingElse(word: int)

  ghost function MeaningOf(w: Word): (m: Meaning) {
    if IsHole(w) then AHole
    else if IsInt(w) then ANumber(IntToDouble(GetInt(w)))
    else if IsDouble(w) then ANumber(GetDouble(w))
    else AnythingElse(w)
  }

  /** The class of a value, in the order in which it is examined; strings are the words of string objects. */
  function ClassOf(w: Word, strings: set<Word>): (c: Class) {
    if IsInt(w) then IntValue
    else if IsDouble(w) then DoubleValue
    else if IsHeapObject(w) && w in strings then StringValue
    else if IsHeapObject(w) then ObjectValue
    else if IsHole(w) then HoleValue
    else OtherValue
  }
}
