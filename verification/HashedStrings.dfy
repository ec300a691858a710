/** Hashing heap strings, caching the hash, and reading a string as an array index. */
module HashedStrings {
  import opened CodeUnits
  import opened Common
  import opened StringHash
  import opened Ropes
  import opened StringHeap

  const MAX_ELEMENT_INDEX: int := 0xFFFF_FFFF

  /** The units of a string without changing it: its own data, a window, or a scratch copy of a rope. */
  method FlatData(h: Heap, i: Id) returns (d: seq<CodeUnit>)
    requires WellFormed(h) && i < |h|
    ensures d == Val(h, i)
  {
    hide Compressible, HashOf;
    assert NodeOk(h, h[i]);
    match h[i].body {
      case Line(data) => d := data;
      case Constant(data) => d := data;
      case Sliced(parent, start) =>
        assert NodeOk(h, h[parent]);
        d := h[parent].body.data[start..start + h[i].length];
      case Tree(first, second) =>
        if IsFlatTree(h, h[i]) {
          FlatTreeFirst(h, i);
          d := h[first].body.data;
        } else {
          var buf := new CodeUnit[h[i].length];
          ghost var levels := WriteToFlat(h, i, buf, 0, h[i].length, h[i].utf8);
          d := buf[..];
        }
    }
  }

  method ComputeRawHashcode(h: Heap, i: Id) returns (hash: Uint32, isInteger: bool)
    requires WellFormed(h) && i < |h|
    ensures (hash, isInteger) == RawHash(Val(h, i))
  {
    hide Compressible, IntegerHash, Poly, Val, NodeOk, WellFormed;
    if h[i].length == 0 {
      return 0, false;
    }
    NarrowIffCompressible(h, i);
    if h[i].utf8 && h[i].length < MAX_ELEMENT_INDEX_LEN {
      // Read straight from the string: sound because a string this short is a line or a constant.
      ShortIsLineOrConstant(h, i);
      var r := HashIntegerString(h[i].body.data, 0);
      if r.Some? {
        return r.value, true;
      }
    }
    var data := FlatData(h, i);
    hash := ComputeHashForData(data, 0);
    isInteger := false;
  }

  method ComputeHashcode(h: Heap, i: Id) returns (r: Uint32)
    requires WellFormed(h) && i < |h|
    ensures r == HashOf(Val(h, i))
  {
    var hash, isInteger := ComputeRawHashcode(h, i);
    RawHashIsCanonical(Val(h, i));
    r := MixHashcode(hash, isInteger);
  }

  method ComputeSeededHashcode(h: Heap, i: Id, seed: Uint32, isInteger: bool) returns (r: Uint32)
    requires WellFormed(h) && i < |h|
    ensures r == SeededHash(Val(h, i), seed, isInteger)
  {
    hide Compressible, IntegerHash, Poly, Val, NodeOk, WellFormed;
    if h[i].length == 0 {
      return MixHashcode(seed, isInteger);
    }
    NarrowIffCompressible(h, i);
    if h[i].utf8 && (seed == 0 || isInteger) && h[i].length < MAX_ELEMENT_INDEX_LEN {
      ShortIsLineOrConstant(h, i);
      var m := HashIntegerString(h[i].body.data, seed);
      if m.Some? {
        return m.value;
      }
    }
    var data := FlatData(h, i);
    var hash := ComputeHashForData(data, seed);
    r := MixHashcode(hash, false);
  }

  /** Storing a hash in the header changes no string. */
  function WithHash(h: Heap, i: Id, v: Uint32): (g: Heap)
    requires i < |h|
  {
    h[i := h[i].(hash := v)]
  }

  lemma {:induction false} HeaderChange(h: Heap, g: Heap, i: Id)
    requires WellFormed(h) && i < |h| == |g| && g[i].body == h[i].body
    requires g[i].length == h[i].length && g[i].utf8 == h[i].utf8
    requires forall j :: 0 <= j < |h| && j != i ==> g[j] == h[j]
    ensures WellFormed(g) && forall j :: 0 <= j < |h| ==> Val(g, j) == Val(h, j)
  {
    hide Compressible, HashOf;
    forall j | 0 <= j < |g| ensures NodeOk(g, g[j]) {
      assert NodeOk(h, h[j]);
    }
    assert forall j :: 0 <= j < |h| ==> SameOrRedirected(h, g, j);
    forall j | 0 <= j < |h| ensures Val(g, j) == Val(h, j) {
      EvolvesKeepsVal(h, g, j);
    }
  }

  lemma {:induction false} CachingKeeps(h: Heap, i: Id, v: Uint32)
    requires WellFormed(h) && i < |h| && v == HashOf(Val(h, i))
    ensures Preserves(h, WithHash(h, i, v)) && HashOk(WithHash(h, i, v), i)
  {
    hide HashOf, Val, NodeOk;
    HeaderChange(h, WithHash(h, i, v), i);
  }

  /** The hash of a string, computed once and cached. */
  method GetHashcode(heap: EcmaStringHeap, i: Id) returns (r: Uint32)
    requires heap.Valid() && i < |heap.nodes| && HashOk(heap.nodes, i)
    modifies heap`nodes
    ensures heap.Valid() && Preserves(old(heap.nodes), heap.nodes) && |heap.nodes| == |old(heap.nodes)|
    ensures r == HashOf(Val(old(heap.nodes), i)) && (heap.nodes[i].hash == r)
    ensures heap.nodes == WithHash(old(heap.nodes), i, r)
  {
    hide HashOf, Val, NodeOk, KeepsStrings;
    r := heap.nodes[i].hash;
    PreservesRefl(heap.nodes);
    if r == 0 && heap.nodes[i].length != 0 {
      r := ComputeHashcode(heap.nodes, i);
      CachingKeeps(heap.nodes, i, r);
      heap.nodes := WithHash(heap.nodes, i, r);
      RootsKept(old(heap.nodes), heap.nodes, heap.emptyString, heap.singleChars);
    } else if r == 0 {
      EmptyHash(Val(heap.nodes, i));
    }
  }

  lemma EmptyHash(s: seq<CodeUnit>)
    requires s == []
    ensures HashOf(s) == 0
  {
  }

  // ----- array indices -----

  /** How the language prints a natural number. */
  ghost function Decimal(n: nat): (s: seq<CodeUnit>) {
    if n < 10 then [0x30 + n] else Decimal(n / 10) + [0x30 + n % 10]
  }

  lemma {:induction false} DecimalIsNumeral(n: nat)
    ensures IsNumeral(Decimal(n)) && DecValue(Decimal(n)) == n && (n > 0 ==> Decimal(n)[0] != 0x30)
  {
    var s := Decimal(n);
    if n < 10 {
      assert s[..0] == [];
    } else {
      DecimalIsNumeral(n / 10);
      assert s[..|s| - 1] == Decimal(n / 10);
      assert s[0] == Decimal(n / 10)[0];
    }
  }

  lemma {:induction false} NumeralIsDecimal(s: seq<CodeUnit>)
    requires IsNumeral(s)
    ensures s == Decimal(DecValue(s))
    ensures |s| > 1 ==> DecValue(s) >= Pow10(|s| - 1)
    decreases |s|
  {
    var n := |s| - 1;
    if n == 0 {
      assert s[..0] == [];
      assert s == [s[0]];
    } else {
      var p := s[..n];
      assert IsNumeral(p);
      NumeralIsDecimal(p);
      if n == 1 { assert p[..0] == []; }
      assert DecValue(s) / 10 == DecValue(p) && DecValue(s) % 10 == s[n] - 0x30;
      assert s == p + [s[n]];
    }
  }

  const TWO_64: int := 0x1_0000_0000_0000_0000

  lemma {:induction false} NextDigit64(x: nat, d: nat)
    ensures (x % TWO_64 * 10 + d) % TWO_64 == (x * 10 + d) % TWO_64
  {
    var q := x / TWO_64;
    assert x * 10 + d == (x % TWO_64 * 10 + d) + 10 * q * TWO_64;
    Multiple64(x % TWO_64 * 10 + d, 10 * q);
  }

  lemma {:induction false} Multiple64(x: nat, k: nat)
    ensures (x + k * TWO_64) % TWO_64 == x % TWO_64
    decreases k
  {
    if k > 0 { Multiple64(x, k - 1); }
  }

  /** The value of the digits from loopStart on, on 64 bits. */
  method ToUInt64FromLoopStart(data: seq<CodeUnit>, loopStart: nat) returns (r: Option<nat>)
    ensures r.Some? <==> loopStart < |data| && AllDigits(data[loopStart..])
    ensures r.Some? ==> r.value == DecValue(data[loopStart..]) % TWO_64
  {
    hide DecValue;
    if loopStart >= |data| {
      return None;
    }
    var n: nat := 0;
    ghost var ds := data[loopStart..];
    NoDigits(ds);
    for i := loopStart to |data|
      invariant AllDigits(ds[..i - loopStart]) && n == DecValue(ds[..i - loopStart]) % TWO_64
    {
      var c := data[i];
      assert c == ds[i - loopStart];
      if c < 0x30 || c > 0x39 {
        return None;
      }
      LastDigit(ds, i - loopStart);
      NextDigit64(DecValue(ds[..i - loopStart]), c - 0x30);
      n := (n * 10 + (c - 0x30)) % TWO_64;
    }
    assert ds[..|data| - loopStart] == ds;
    return Some(n);
  }

  lemma {:induction false} NoDigits(ds: seq<CodeUnit>)
    ensures AllDigits(ds[..0]) && DecValue(ds[..0]) == 0
  {
    assert ds[..0] == [];
  }

  lemma {:induction false} LastDigit(ds: seq<CodeUnit>, k: nat)
    requires k < |ds| && AllDigits(ds[..k]) && IsDigit(ds[k])
    ensures AllDigits(ds[..k + 1]) && DecValue(ds[..k + 1]) == DecValue(ds[..k]) * 10 + (ds[k] - 0x30)
  {
    assert ds[..k + 1][..k] == ds[..k];
    var t := ds[..k + 1];
    forall i | 0 <= i < |t| ensures IsDigit(t[i]) { if i < k { assert ds[..k][i] == t[i]; } }
  }

  /** A string is an array index exactly when it is how some number below MAX_ELEMENT_INDEX is printed; the
      answer is that number, whether it comes from the cached hash or from the digits. */
  method ToElementIndex(heap: EcmaStringHeap, i: Id) returns (r: Option<nat>)
    requires heap.Valid() && i < |heap.nodes| && HashOk(heap.nodes, i)
    modifies heap`nodes
    ensures heap.Valid() && Preserves(old(heap.nodes), heap.nodes)
    ensures r.Some? ==> r.value < MAX_ELEMENT_INDEX && Val(old(heap.nodes), i) == Decimal(r.value)
    ensures r.None? ==> forall n: nat :: n < MAX_ELEMENT_INDEX ==> Val(old(heap.nodes), i) != Decimal(n)
  {
    hide Val, KeepsStrings, HashOk, Decimal;
    PreservesRefl(heap.nodes);
    ghost var s := Val(heap.nodes, i);
    IndexSpec(s);
    var len := heap.nodes[i].length;
    if len == 0 || len > MAX_ELEMENT_INDEX_LEN {
      return None;
    }
    NarrowIffCompressible(heap.nodes, i);
    if !heap.nodes[i].utf8 {
      return None;
    }
    var hash := GetHashcode(heap, i);
    if hash >= BIT31 {
      return Some(hash - BIT31);
    }
    SameLength(old(heap.nodes), heap.nodes, i);
    var data := FlatData(heap.nodes, i);
    if data[0] == 0x30 {
      return if len == 1 then Some(0) else None;
    }
    var n := ToUInt64FromLoopStart(data, 0);
    assert data[0..] == data;
    if n.Some? { TenDigitsFit(data); }
    if n.Some? && n.value < MAX_ELEMENT_INDEX {
      return n;
    }
    return None;
  }

  lemma {:induction false} TenDigitsFit(s: seq<CodeUnit>)
    requires AllDigits(s) && |s| <= MAX_ELEMENT_INDEX_LEN
    ensures DecValue(s) % TWO_64 == DecValue(s)
  {
    hide DecValue;
    DecValueBound(s);
    Pow10Monotone(|s|, 10);
    Pow10Nine();
  }

  ghost function IndexOf(s: seq<CodeUnit>): (r: Option<nat>) {
    if IsNumeral(s) && DecValue(s) < MAX_ELEMENT_INDEX then Some(DecValue(s)) else None
  }

  lemma {:induction false} IndexSpec(s: seq<CodeUnit>)
    ensures IndexOf(s).Some? ==> IndexOf(s).value < MAX_ELEMENT_INDEX && s == Decimal(IndexOf(s).value)
    ensures IndexOf(s).None? ==> forall n: nat :: n < MAX_ELEMENT_INDEX ==> s != Decimal(n)
    ensures |s| > MAX_ELEMENT_INDEX_LEN || !Compressible(s) ==> IndexOf(s).None?
  {
    forall n: nat | s == Decimal(n) ensures IsNumeral(s) && DecValue(s) == n {
      DecimalIsNumeral(n);
    }
    if IsNumeral(s) {
      NumeralIsDecimal(s);
      NumeralIsCompressible(s);
      if |s| > MAX_ELEMENT_INDEX_LEN {
        Pow10Monotone(10, |s| - 1);
        Pow10Nine();
      }
    }
  }
}
