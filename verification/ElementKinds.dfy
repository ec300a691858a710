/** Element kinds: which values an array may hold, and how the kinds merge. */
module ElementKinds {

  datatype Kind =
    | NONE | HOLE | INT | HOLE_INT | NUMBER | HOLE_NUMBER | STRING | HOLE_STRING | OBJECT | HOLE_OBJECT
    | TAGGED | HOLE_TAGGED

  // What the kind of an array can tell about a value.
  datatype Class = HoleValue | IntValue | DoubleValue | StringValue | ObjectValue | OtherValue

  /** The bit pattern of a kind. */
  function ToBits(k: Kind): (b: bv8) {
    match k
    case NONE => 0x00 case HOLE => 0x01 case INT => 0x02 case HOLE_INT => 0x03
    case NUMBER => 0x06 case HOLE_NUMBER => 0x07 case STRING => 0x08 case HOLE_STRING => 0x09
    case OBJECT => 0x10 case HOLE_OBJECT => 0x11 case TAGGED => 0x1E case HOLE_TAGGED => 0x1F
  }

  /** A merged bit pattern that is no kind of its own becomes TAGGED, with or without holes. */
  function FixElementsKind(b: bv8): (k: Kind) {
    if b == 0x00 then NONE else if b == 0x01 then HOLE else if b == 0x02 then INT else if b == 0x03 then HOLE_INT
    else if b == 0x06 then NUMBER else if b == 0x07 then HOLE_NUMBER else if b == 0x08 then STRING
    else if b == 0x09 then HOLE_STRING else if b == 0x10 then OBJECT else if b == 0x11 then HOLE_OBJECT
    else if b & 1 == 1 then HOLE_TAGGED else TAGGED
  }

  function MergeElementsKind(a: Kind, b: Kind): (k: Kind) {
    FixElementsKind(ToBits(a) | ToBits(b))
  }

  /** The values an array of kind k may hold. */
  ghost predicate Admits(k: Kind, c: Class) {
    match c
    case HoleValue => k.HOLE? || k.HOLE_INT? || k.HOLE_NUMBER? || k.HOLE_STRING? || k.HOLE_OBJECT? || k.HOLE_TAGGED?
    case IntValue => k.INT? || k.HOLE_INT? || k.NUMBER? || k.HOLE_NUMBER? || k.TAGGED? || k.HOLE_TAGGED?
    case DoubleValue => k.NUMBER? || k.HOLE_NUMBER? || k.TAGGED? || k.HOLE_TAGGED?
    case StringValue => k.STRING? || k.HOLE_STRING? || k.TAGGED? || k.HOLE_TAGGED?
    case ObjectValue => k.OBJECT? || k.HOLE_OBJECT? || k.TAGGED? || k.HOLE_TAGGED?
    case OtherValue => k.TAGGED? || k.HOLE_TAGGED?
  }

  ghost predicate Wider(a: Kind, b: Kind) {
    forall c :: Admits(a, c) ==> Admits(b, c)
  }

  // ----- kinds as sets of bits -----

  ghost predicate Within(x: bv8, y: bv8) { x & y == x }

  /** The bits that a value of class c asks for. */
  ghost function Mask(c: Class): (m: bv8) {
    match c
    case HoleValue => 0x01 case IntValue => 0x02 case DoubleValue => 0x06
    case StringValue => 0x08 case ObjectValue => 0x10 case OtherValue => 0x1E
  }

  lemma {:induction false} AdmitsBits(k: Kind, c: Class)
    ensures Admits(k, c) <==> Within(Mask(c), ToBits(k))
  {
    match c
    case HoleValue => case IntValue => case DoubleValue => case StringValue => case ObjectValue => case OtherValue =>
  }

  lemma WithinOr(x: bv8, y: bv8, z: bv8)
    ensures Within(x, z) && Within(y, z) <==> Within(x | y, z)
  {
  }

  lemma WithinTrans(x: bv8, y: bv8, z: bv8)
    requires Within(x, y) && Within(y, z)
    ensures Within(x, z)
  {
  }

  lemma FixWidens(x: bv8)
    requires x & 0xE0 == 0
    ensures Within(x, ToBits(FixElementsKind(x)))
  {
  }

  lemma KindBits(k: Kind)
    ensures ToBits(k) & 0xE0 == 0 && (ToBits(k) & 4 == 0 || ToBits(k) & 2 == 2)
  {
  }

  lemma OrBits(x: bv8, y: bv8)
    requires x & 0xE0 == 0 && (x & 4 == 0 || x & 2 == 2) && y & 0xE0 == 0 && (y & 4 == 0 || y & 2 == 2)
    ensures (x | y) & 0xE0 == 0 && ((x | y) & 4 == 0 || (x | y) & 2 == 2)
  {
  }

  /** A pattern that is no kind of its own lies within no kind but the tagged ones. */
  lemma {:induction false} FixIsLeast(x: bv8, k: Kind)
    requires x & 0xE0 == 0 && (x & 4 == 0 || x & 2 == 2) && Within(x, ToBits(k))
    ensures Within(ToBits(FixElementsKind(x)), ToBits(k))
  {
    match k
    case NONE => case HOLE => case INT => case HOLE_INT => case NUMBER => case HOLE_NUMBER =>
    case STRING => case HOLE_STRING => case OBJECT => case HOLE_OBJECT => case TAGGED => case HOLE_TAGGED =>
  }

  /** A kind is wider than another exactly when it has all its bits. */
  lemma {:induction false} WiderBits(a: Kind, k: Kind)
    ensures Wider(a, k) <==> Within(ToBits(a), ToBits(k))
  {
    hide Admits;
    if Wider(a, k) {
      WiderAllClasses(a, k);
    } else {
      var c :| Admits(a, c) && !Admits(k, c);
      AdmitsBits(a, c);
      AdmitsBits(k, c);
      hide ToBits, Mask;
      if Within(ToBits(a), ToBits(k)) { WithinTrans(Mask(c), ToBits(a), ToBits(k)); }
    }
  }

  lemma {:induction false} WiderAllClasses(a: Kind, k: Kind)
    requires Wider(a, k)
    ensures Within(ToBits(a), ToBits(k))
  {
    WiderMask(a, k, HoleValue);
    WiderMask(a, k, IntValue);
    WiderMask(a, k, DoubleValue);
    WiderMask(a, k, StringValue);
    WiderMask(a, k, ObjectValue);
    WiderMask(a, k, OtherValue);
    hide Wider, Admits;
    MasksCover(a, ToBits(k));
  }

  lemma {:induction false} WiderMask(a: Kind, k: Kind, c: Class)
    requires Wider(a, k)
    ensures Within(Mask(c), ToBits(a)) ==> Within(Mask(c), ToBits(k))
  {
    hide Admits;
    AdmitsBits(a, c);
    AdmitsBits(k, c);
  }

  lemma {:induction false} MasksCover(a: Kind, x: bv8)
    requires Within(Mask(HoleValue), ToBits(a)) ==> Within(Mask(HoleValue), x)
    requires Within(Mask(IntValue), ToBits(a)) ==> Within(Mask(IntValue), x)
    requires Within(Mask(DoubleValue), ToBits(a)) ==> Within(Mask(DoubleValue), x)
    requires Within(Mask(StringValue), ToBits(a)) ==> Within(Mask(StringValue), x)
    requires Within(Mask(ObjectValue), ToBits(a)) ==> Within(Mask(ObjectValue), x)
    requires Within(Mask(OtherValue), ToBits(a)) ==> Within(Mask(OtherValue), x)
    ensures Within(ToBits(a), x)
  {
    match a
    case NONE => case HOLE => case INT => case HOLE_INT => case NUMBER => case HOLE_NUMBER =>
    case STRING => case HOLE_STRING => case OBJECT => case HOLE_OBJECT => case TAGGED => case HOLE_TAGGED =>
  }

  // ----- merging -----

  lemma {:induction false} MergeBits(a: Kind, b: Kind)
    ensures Within(ToBits(a), ToBits(MergeElementsKind(a, b))) && Within(ToBits(b), ToBits(MergeElementsKind(a, b)))
  {
    KindBits(a);
    KindBits(b);
    var x, y := ToBits(a), ToBits(b);
    OrBits(x, y);
    FixWidens(x | y);
    hide ToBits, FixElementsKind;
    WithinOr(x, y, ToBits(MergeElementsKind(a, b)));
  }

  /** Merging loses nothing: what either kind admits, the merged kind admits. */
  lemma {:induction false} MergeAdmits(a: Kind, b: Kind, c: Class)
    ensures Admits(a, c) || Admits(b, c) ==> Admits(MergeElementsKind(a, b), c)
  {
    hide Admits, ToBits, Mask, MergeElementsKind;
    var m := MergeElementsKind(a, b);
    MergeBits(a, b);
    AdmitsBits(a, c);
    AdmitsBits(b, c);
    AdmitsBits(m, c);
    if Admits(a, c) { WithinTrans(Mask(c), ToBits(a), ToBits(m)); }
    if Admits(b, c) { WithinTrans(Mask(c), ToBits(b), ToBits(m)); }
  }

  /** Merging gives the least kind above both: any kind that admits what either admits is at least as wide. */
  lemma {:induction false} MergeIsLeast(a: Kind, b: Kind, k: Kind)
    requires Wider(a, k) && Wider(b, k)
    ensures Wider(MergeElementsKind(a, b), k)
  {
    hide Admits, Wider, ToBits, FixElementsKind;
    WiderBits(a, k);
    WiderBits(b, k);
    WiderBits(MergeElementsKind(a, b), k);
    KindBits(a);
    KindBits(b);
    OrBits(ToBits(a), ToBits(b));
    WithinOr(ToBits(a), ToBits(b), ToBits(k));
    FixIsLeast(ToBits(a) | ToBits(b), k);
  }

  lemma {:induction false} WiderAntisymmetric(a: Kind, b: Kind)
    requires Wider(a, b) && Wider(b, a)
    ensures a == b
  {
    forall c: Class ensures Admits(a, c) <==> Admits(b, c) {}
    assert Admits(a, HoleValue) <==> Admits(b, HoleValue);
    assert Admits(a, IntValue) <==> Admits(b, IntValue);
    assert Admits(a, DoubleValue) <==> Admits(b, DoubleValue);
    assert Admits(a, StringValue) <==> Admits(b, StringValue);
    assert Admits(a, ObjectValue) <==> Admits(b, ObjectValue);
    assert Admits(a, OtherValue) <==> Admits(b, OtherValue);
  }

  function KindOfClass(c: Class): (k: Kind) {
    match c
    case IntValue => INT case DoubleValue => NUMBER case StringValue => STRING
    case ObjectValue => OBJECT case HoleValue => HOLE case OtherValue => TAGGED
  }

  function ToElementsKind(c: Class, kind: Kind): (k: Kind) {
    MergeElementsKind(KindOfClass(c), kind)
  }

  /** Classifying the values one after the other, starting from NONE. */
  ghost function KindOfAll(cs: seq<Class>): (k: Kind) {
    if cs == [] then NONE else ToElementsKind(cs[|cs| - 1], KindOfAll(cs[..|cs| - 1]))
  }

  ghost predicate AdmitsAll(k: Kind, cs: seq<Class>) {
    forall i :: 0 <= i < |cs| ==> Admits(k, cs[i])
  }

  lemma {:induction false} KindOfAllAdmits(cs: seq<Class>)
    ensures AdmitsAll(KindOfAll(cs), cs)
  {
    hide MergeElementsKind, Admits;
    if cs != [] {
      var n := |cs| - 1;
      KindOfAllAdmits(cs[..n]);
      ClassAdmits(cs[n]);
      forall i | 0 <= i < |cs| ensures Admits(KindOfAll(cs), cs[i]) {
        if i < n { assert cs[..n][i] == cs[i]; }
        MergeAdmits(KindOfClass(cs[n]), KindOfAll(cs[..n]), cs[i]);
      }
    }
  }

  lemma ClassAdmits(c: Class)
    ensures Admits(KindOfClass(c), c)
  {
  }

  /** Any kind that admits a value is at least as wide as the kind of that value. */
  lemma ClassIsLeast(c: Class, k: Kind)
    requires Admits(k, c)
    ensures Wider(KindOfClass(c), k)
  {
  }

  /** Folding yields the least kind that admits every value. */
  lemma {:induction false} KindOfAllIsLeast(cs: seq<Class>, k: Kind)
    requires AdmitsAll(k, cs)
    ensures Wider(KindOfAll(cs), k)
  {
    hide MergeElementsKind, Admits;
    if cs == [] {
      NoneIsLeast(k);
    } else {
      var n := |cs| - 1;
      forall i | 0 <= i < n ensures Admits(k, cs[..n][i]) { assert cs[..n][i] == cs[i]; }
      KindOfAllIsLeast(cs[..n], k);
      ClassIsLeast(cs[n], k);
      MergeIsLeast(KindOfClass(cs[n]), KindOfAll(cs[..n]), k);
    }
  }

  lemma NoneIsLeast(k: Kind)
    ensures Wider(NONE, k)
  {
  }

  /** The order in which values are classified does not matter. */
  lemma {:induction false} KindOfAllOrderFree(cs: seq<Class>, ds: seq<Class>)
    requires multiset(cs) == multiset(ds)
    ensures KindOfAll(cs) == KindOfAll(ds)
  {
    hide MergeElementsKind, Admits;
    KindOfAllAdmits(cs);
    KindOfAllAdmits(ds);
    SameMembers(KindOfAll(ds), cs, ds);
    SameMembers(KindOfAll(cs), ds, cs);
    KindOfAllIsLeast(cs, KindOfAll(ds));
    KindOfAllIsLeast(ds, KindOfAll(cs));
    WiderAntisymmetric(KindOfAll(cs), KindOfAll(ds));
  }

  lemma {:induction false} SameMembers(k: Kind, cs: seq<Class>, ds: seq<Class>)
    requires multiset(cs) == multiset(ds) && AdmitsAll(k, ds)
    ensures AdmitsAll(k, cs)
  {
    hide Admits;
    forall i | 0 <= i < |cs| ensures Admits(k, cs[i]) {
      assert cs[i] in multiset(ds);
      assert cs[i] in ds;
    }
  }
}
