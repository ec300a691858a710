/** Array stores by element kind: raw integers, raw doubles or tagged words, and the migrations between them. */
module ElementArrays {
  import opened ElementKinds
  import opened TaggedWords

  // The kind under which a store without a raw form is read and written.
  const GENERIC: Kind := HOLE_TAGGED

  predicate IsIntKind(k: Kind) { k.INT? || k.HOLE_INT? }

  predicate IsNumberKind(k: Kind) { k.NUMBER? || k.HOLE_NUMBER? }

  predicate IsInNumbers(k: Kind) { IsIntKind(k) || IsNumberKind(k) }

  /** The values a store read under kind k can hold. */
  ghost predicate Holds(k: Kind, w: Word) {
    && (IsIntKind(k) ==> IsHole(w) || IsInt(w))
    && (IsNumberKind(k) ==> IsHole(w) || IsInt(w) || IsDouble(w))
    && !k.OBJECT? && !k.HOLE_OBJECT?
  }

  /** The words that stand for a value in a store read under kind k. */
  ghost predicate Stored(k: Kind, raw: Word) {
    && (IsIntKind(k) ==> raw == SPECIAL_HOLE || raw == ToRaw(ToInt32(raw)))
    && (IsNumberKind(k) ==> raw == SPECIAL_HOLE || Pure(raw))
    && (!IsInNumbers(k) ==> IsValue(raw))
    && !k.OBJECT? && !k.HOLE_OBJECT?
  }

  /** A word that can be read under kind k: the bits of a double must survive tagging, and no store is read as OBJECT. */
  predicate Readable(k: Kind, raw: Word) {
    (IsNumberKind(k) ==> raw == SPECIAL_HOLE || Pure(raw)) && !k.OBJECT? && !k.HOLE_OBJECT?
  }

  /** Reads a stored word. */
  function GetTaggedValueWithElementsKind(raw: Word, k: Kind): (w: Word)
    requires Readable(k, raw)
  {
    if raw == SPECIAL_HOLE then VALUE_HOLE
    else if IsIntKind(k) then FromInt(ToInt32(raw))
    else if IsNumberKind(k) then FromDouble(raw)
    else raw
  }

  /** The word to store for a value. */
  function ConvertTaggedValueWithElementsKind(w: Word, k: Kind): (raw: Word)
    requires Holds(k, w)
  {
    if IsHole(w) && IsInNumbers(k) then SPECIAL_HOLE
    else if IsIntKind(k) then ToRaw(GetInt(w))
    else if IsNumberKind(k) then if IsInt(w) then IntToDouble(GetInt(w)) else GetDouble(w)
    else w
  }

  /** The word that a tagged store cannot tell from the stored mark of a hole. */
  predicate Lost(k: Kind, w: Word) { !IsInNumbers(k) && w == SPECIAL_HOLE }

  /** What a value becomes once stored. */
  ghost function Settled(k: Kind, w: Word): (r: Word) {
    if Lost(k, w) then VALUE_HOLE else w
  }

  /** The stored word raw reads as value w under kind k, numbers up to their tag. */
  ghost predicate Reads(k: Kind, raw: Word, w: Word) {
    Stored(k, raw) && MeaningOf(GetTaggedValueWithElementsKind(raw, k)) == MeaningOf(Settled(k, w))
  }

  lemma HoleMeans()
    ensures IsValue(VALUE_HOLE) && IsHole(VALUE_HOLE) && MeaningOf(VALUE_HOLE) == AHole
    ensures IsDouble(SPECIAL_HOLE) && Pure(GetDouble(SPECIAL_HOLE)) && !IsHole(SPECIAL_HOLE)
  {
  }

  /** Reading back what was stored gives the value. */
  lemma {:induction false} ConvertedReads(w: Word, k: Kind)
    requires IsValue(w) && Holds(k, w)
    ensures Reads(k, ConvertTaggedValueWithElementsKind(w, k), w)
  {
    hide IntToDouble;
    if IsInt(w) { IntRoundTrip(GetInt(w)); DoubleRoundTrip(IntToDouble(GetInt(w))); }
    if IsDouble(w) { DoubleIsPure(w); DoubleRoundTrip(GetDouble(w)); }
    HoleMeans();
  }

  lemma {:induction false} ReadIsValue(raw: Word, k: Kind)
    requires Stored(k, raw)
    ensures var w := GetTaggedValueWithElementsKind(raw, k); IsValue(w) && Holds(k, w) && !Lost(k, w)
  {
    hide IntToDouble;
    HoleMeans();
    if IsIntKind(k) { IntRoundTrip(ToInt32(raw)); }
    if IsNumberKind(k) && raw != SPECIAL_HOLE { DoubleRoundTrip(raw); }
  }

  /** A value reads back as it was written if and only if it is not the lost word in a tagged store. */
  lemma {:induction false} ReadsBackExactly(w: Word, k: Kind)
    requires IsValue(w) && Holds(k, w)
    ensures var raw := ConvertTaggedValueWithElementsKind(w, k);
      Readable(k, raw) && (MeaningOf(GetTaggedValueWithElementsKind(raw, k)) == MeaningOf(w) <==> !Lost(k, w))
  {
    hide IntToDouble;
    ConvertedReads(w, k);
    HoleMeans();
  }

  /** The lost word is written as it is and read back as a hole. */
  lemma {:induction false} LostReadsAsHole()
    ensures IsValue(SPECIAL_HOLE) && IsDouble(SPECIAL_HOLE) && Holds(GENERIC, SPECIAL_HOLE)
    ensures var raw := ConvertTaggedValueWithElementsKind(SPECIAL_HOLE, GENERIC);
      MeaningOf(GetTaggedValueWithElementsKind(raw, GENERIC)) == AHole != MeaningOf(SPECIAL_HOLE)
  {
    HoleMeans();
  }

  /** The lost value is a NaN: all exponent bits set and a non-zero fraction. */
  lemma LostValueIsNaN()
    ensures var bits := GetDouble(SPECIAL_HOLE); ExponentOf(bits) == 0x7FF && FractionOf(bits) != 0
  {
  }

  // ----- kinds and values -----

  /** What an array of kind k may contain: what the kind admits, and holes in slots not yet written. */
  ghost predicate Fits(k: Kind, w: Word, strings: set<Word>) {
    IsHole(w) || Admits(k, ClassOf(w, strings))
  }

  function StoreKind(k: Kind, mutant: bool): (e: Kind) { if mutant then k else GENERIC }

  lemma FitsHolds(k: Kind, w: Word, strings: set<Word>, mutant: bool)
    requires Fits(k, w, strings) && (mutant ==> IsInNumbers(k))
    ensures Holds(StoreKind(k, mutant), w)
  {
  }

  lemma {:induction false} FitsWider(k: Kind, l: Kind, w: Word, strings: set<Word>)
    requires Fits(k, w, strings) && Wider(k, l)
    ensures Fits(l, w, strings)
  {
    hide Admits, ClassOf, IsHole;
  }

  lemma {:induction false} MergeWidens(a: Kind, b: Kind)
    ensures Wider(a, MergeElementsKind(a, b)) && Wider(b, MergeElementsKind(a, b))
  {
    hide Admits, MergeElementsKind;
    forall c | Admits(a, c) ensures Admits(MergeElementsKind(a, b), c) { MergeAdmits(a, b, c); }
    forall c | Admits(b, c) ensures Admits(MergeElementsKind(a, b), c) { MergeAdmits(a, b, c); }
  }

  /** A raw store can only hold what its kind admits. */
  lemma {:induction false} RawFits(k: Kind, raw: Word, strings: set<Word>)
    requires IsInNumbers(k) && Stored(k, raw)
    ensures Fits(k, GetTaggedValueWithElementsKind(raw, k), strings)
  {
    hide IntToDouble;
    HoleMeans();
    if IsIntKind(k) { IntRoundTrip(ToInt32(raw)); }
    if IsNumberKind(k) && raw != SPECIAL_HOLE { DoubleRoundTrip(raw); }
  }

  predicate IsStringWord(w: Word, strings: set<Word>) { IsHeapObject(w) && w in strings }

  /** Which words an array of kind k may hold, said of the words themselves. */
  ghost predicate WordAdmitted(k: Kind, w: Word, strings: set<Word>) {
    match k
    case NONE => false
    case HOLE => IsHole(w)
    case INT => IsInt(w)
    case HOLE_INT => IsInt(w) || IsHole(w)
    case NUMBER => IsInt(w) || IsDouble(w)
    case HOLE_NUMBER => IsInt(w) || IsDouble(w) || IsHole(w)
    case STRING => IsStringWord(w, strings)
    case HOLE_STRING => IsStringWord(w, strings) || IsHole(w)
    case OBJECT => IsHeapObject(w) && !IsStringWord(w, strings)
    case HOLE_OBJECT => (IsHeapObject(w) && !IsStringWord(w, strings)) || IsHole(w)
    case TAGGED => !IsHole(w)
    case HOLE_TAGGED => true
  }

  lemma {:induction false} ClassOfWord(k: Kind, w: Word, strings: set<Word>)
    requires w != 0
    ensures Admits(k, ClassOf(w, strings)) <==> WordAdmitted(k, w, strings)
  {
    match k
    case NONE => case HOLE => case INT => case HOLE_INT => case NUMBER => case HOLE_NUMBER =>
    case STRING => case HOLE_STRING => case OBJECT => case HOLE_OBJECT => case TAGGED => case HOLE_TAGGED =>
  }

  /** A kind is at least as wide as a merged one exactly when it is as wide as both. */
  lemma {:induction false} MergeUnder(a: Kind, b: Kind, k: Kind)
    ensures Wider(MergeElementsKind(a, b), k) <==> Wider(a, k) && Wider(b, k)
  {
    hide Admits, MergeElementsKind;
    MergeWidens(a, b);
    if Wider(a, k) && Wider(b, k) { MergeIsLeast(a, b, k); }
  }

  lemma {:induction false} ClassUnder(c: Class, k: Kind)
    ensures Wider(KindOfClass(c), k) <==> Admits(k, c)
  {
    hide Admits;
    ClassAdmits(c);
    if Admits(k, c) { ClassIsLeast(c, k); }
  }

  /** The kind of an array after one more value, said of the value's word. */
  lemma {:induction false} TransitUnder(kind: Kind, v: Word, extra: Kind, strings: set<Word>, k: Kind)
    requires kind == GENERIC || v != 0
    ensures Wider(MergeElementsKind(kind, ToElementsKind(ClassOf(v, strings), extra)), k) <==>
      Wider(kind, k) && Wider(extra, k) && WordAdmitted(k, v, strings)
  {
    var c := ClassOf(v, strings);
    MergeUnder(kind, ToElementsKind(c, extra), k);
    MergeUnder(KindOfClass(c), extra, k);
    ClassUnder(c, k);
    if v != 0 {
      ClassOfWord(k, v, strings);
    } else {
      GenericAbsorbs(ToElementsKind(c, extra));
      GenericUnder(extra, k);
    }
    hide Admits, MergeElementsKind, ClassOf, WordAdmitted, Wider;
  }

  lemma {:induction false} GenericUnder(extra: Kind, k: Kind)
    ensures Wider(GENERIC, k) ==> k == GENERIC && Wider(extra, k)
  {
    if Wider(GENERIC, k) {
      assert Admits(k, OtherValue) && Admits(k, HoleValue);
    }
  }

  /** The kind of a sequence of values, said of their words. */
  lemma {:induction false} KindUnder(ws: seq<Word>, cs: seq<Class>, strings: set<Word>, k: Kind)
    requires |cs| == |ws| && forall j :: 0 <= j < |ws| ==> ws[j] != 0 && cs[j] == ClassOf(ws[j], strings)
    ensures Wider(KindOfAll(cs), k) <==> forall j :: 0 <= j < |ws| ==> WordAdmitted(k, ws[j], strings)
  {
    hide Admits, ClassOf, WordAdmitted, KindOfAll;
    forall j | 0 <= j < |ws| ensures Admits(k, cs[j]) <==> WordAdmitted(k, ws[j], strings) { ClassOfWord(k, ws[j], strings); }
    KindOfAllAdmits(cs);
    if AdmitsAll(k, cs) { KindOfAllIsLeast(cs, k); }
  }

  // ----- migrations -----

  /** The value a word stands for. A tagged store holds values themselves. */
  ghost function Meant(raw: Word, k: Kind): (w: Word)
    requires Readable(k, raw)
  {
    if IsInNumbers(k) then GetTaggedValueWithElementsKind(raw, k) else raw
  }

  /** Every word of the new store reads under kind l as the value the old word stands for under kind k. */
  ghost predicate Migrated(was: seq<Word>, k: Kind, now: seq<Word>, l: Kind) {
    && |now| == |was|
    && forall i :: 0 <= i < |was| ==> MigratedWord(was[i], k, now[i], l)
  }

  ghost predicate MigratedWord(was: Word, k: Kind, now: Word, l: Kind) {
    Stored(k, was) && Reads(l, now, Meant(was, k))
  }

  ghost predicate AllStored(s: seq<Word>, k: Kind) {
    forall i :: 0 <= i < |s| ==> Stored(k, s[i])
  }

  lemma {:induction false} HeapWord(raw: Word, k: Kind)
    requires IsInNumbers(k) && Stored(k, raw)
    ensures MigratedWord(raw, k, GetTaggedValueWithElementsKind(raw, k), GENERIC)
  {
    hide IntToDouble;
    HoleMeans();
    ReadIsValue(raw, k);
  }

  /** A new tagged store for a raw one: each word becomes the value it stands for. */
  method MigrateFromRawValueToHeapValue(elements: array<Word>, k: Kind) returns (newElements: array<Word>)
    requires IsInNumbers(k) && AllStored(elements[..], k)
    ensures fresh(newElements) && newElements.Length == elements.Length
    ensures forall i :: 0 <= i < elements.Length ==>
      Readable(k, elements[i]) && newElements[i] == GetTaggedValueWithElementsKind(elements[i], k)
  {
    hide FromInt, ToInt32;
    var length := elements.Length;
    newElements := new Word[length](_ => VALUE_HOLE);
    for i := 0 to length
      invariant elements[..] == old(elements[..])
      invariant forall j :: 0 <= j < i ==>
        Readable(k, elements[j]) && newElements[j] == GetTaggedValueWithElementsKind(elements[j], k)
    {
      var value := elements[i];
      assert Stored(k, elements[..][i]);
      if value == SPECIAL_HOLE {
        newElements[i] := VALUE_HOLE;
      } else if IsIntKind(k) {
        newElements[i] := FromInt(ToInt32(value));
      } else {
        newElements[i] := FromDouble(value);
      }
    }
  }

  /** A new raw store for a tagged one whose words it can hold. */
  method MigrateFromHeapValueToRawValue(elements: array<Word>, l: Kind) returns (newElements: array<Word>)
    requires IsInNumbers(l)
    requires forall i :: 0 <= i < elements.Length ==> IsValue(elements[i]) && Holds(l, elements[i])
    ensures fresh(newElements) && newElements.Length == elements.Length
    ensures forall i :: 0 <= i < elements.Length ==> Reads(l, newElements[i], elements[i])
  {
    hide Reads, Holds, IntToDouble;
    var length := elements.Length;
    newElements := new Word[length](_ => VALUE_HOLE);
    for i := 0 to length
      invariant elements[..] == old(elements[..])
      invariant forall j :: 0 <= j < length ==> IsValue(elements[j]) && Holds(l, elements[j])
      invariant forall j :: 0 <= j < i ==> Reads(l, newElements[j], elements[j])
    {
      var value := elements[i];
      HoldsNumber(l, value);
      ConvertedReads(value, l);
      var convertedValue: Word := 0;
      if IsHole(value) {
        convertedValue := SPECIAL_HOLE;
      } else if IsIntKind(l) {
        convertedValue := ToRaw(GetInt(value));
      } else if IsInt(value) {
        convertedValue := IntToDouble(GetInt(value));
      } else {
        convertedValue := GetDouble(value);
      }
      newElements[i] := convertedValue;
    }
  }

  lemma HoldsNumber(l: Kind, w: Word)
    requires IsInNumbers(l) && Holds(l, w)
    ensures IsHole(w) || IsInt(w) || (IsNumberKind(l) && IsDouble(w))
  {
  }

  lemma {:induction false} IntWordAsDouble(raw: Word, k: Kind, l: Kind)
    requires IsIntKind(k) && IsNumberKind(l) && Stored(k, raw)
    ensures MigratedWord(raw, k, if raw == SPECIAL_HOLE then raw else IntToDouble(ToInt32(raw)), l)
  {
    hide IntToDouble;
    ReadIsValue(raw, k);
    IntRoundTrip(ToInt32(raw));
    ConvertedReads(GetTaggedValueWithElementsKind(raw, k), l);
  }

  /** Integers become doubles in place. */
  method MigrateFromHoleIntToHoleNumber(elements: array<Word>, k: Kind, l: Kind)
    requires IsIntKind(k) && IsNumberKind(l) && AllStored(elements[..], k)
    modifies elements
    ensures Migrated(old(elements[..]), k, elements[..], l)
  {
    hide MigratedWord, Stored, IntToDouble, ToInt32;
    for i := 0 to elements.Length
      invariant forall j :: i <= j < elements.Length ==> elements[j] == old(elements[..])[j]
      invariant forall j :: 0 <= j < i ==> MigratedWord(old(elements[..])[j], k, elements[j], l)
    {
      var value := elements[i];
      assert value == old(elements[..])[i];
      IntWordAsDouble(value, k, l);
      if value == SPECIAL_HOLE {
        continue;
      }
      elements[i] := IntToDouble(ToInt32(elements[i]));
    }
  }

  /** What becomes of the word of a double when the store turns to integers. */
  function NarrowedWord(raw: Word): (r: Word)
    requires raw == SPECIAL_HOLE || Truncates(raw)
  {
    if raw == SPECIAL_HOLE then raw else Narrowed(raw)
  }

  /** Doubles become integers in place, cut off towards zero. */
  method MigrateFromHoleNumberToHoleInt(elements: array<Word>)
    requires forall i :: 0 <= i < elements.Length ==> elements[i] == SPECIAL_HOLE || Truncates(elements[i])
    modifies elements
    ensures forall i :: 0 <= i < elements.Length ==> elements[i] == NarrowedWord(old(elements[i]))
  {
    hide Truncates, Narrowed;
    for i := 0 to elements.Length
      invariant forall j :: i <= j < elements.Length ==> elements[j] == old(elements[j])
      invariant forall j :: 0 <= j < i ==> elements[j] == NarrowedWord(old(elements[j]))
    {
      var value := elements[i];
      if value == SPECIAL_HOLE {
        continue;
      }
      elements[i] := Narrowed(elements[i]);
    }
  }

  /** An element survives the way from doubles to integers if and only if it is a hole or the double of some int. */
  lemma {:induction false} NarrowsExactly(raw: Word, k: Kind, l: Kind)
    requires IsNumberKind(k) && IsIntKind(l) && Stored(k, raw) && (raw == SPECIAL_HOLE || Truncates(raw))
    ensures MeaningOf(GetTaggedValueWithElementsKind(NarrowedWord(raw), l)) == MeaningOf(GetTaggedValueWithElementsKind(raw, k))
      <==> raw == SPECIAL_HOLE || Integral(raw)
    ensures raw == SPECIAL_HOLE || Integral(raw) ==> MigratedWord(raw, k, NarrowedWord(raw), l)
  {
    hide IntToDouble, Truncates, Narrowed;
    HoleMeans();
    if raw != SPECIAL_HOLE {
      DoubleRoundTrip(raw);
      var word := NarrowedWord(raw);
      IntRoundTrip(ToInt32(word));
      if Integral(raw) {
        var i: Int32 :| raw == IntToDouble(i);
        NarrowedInt(i);
        IntRoundTrip(i);
      }
    }
  }

  // ----- arrays -----

  /** An array's store: raw exactly where the kind calls for it and raw stores are enabled. */
  ghost predicate ArrayOk(s: seq<Word>, kind: Kind, mutant: bool, enabled: bool, strings: set<Word>) {
    && mutant == (enabled && IsInNumbers(kind))
    && AllStored(s, StoreKind(kind, mutant))
    && (!mutant ==> forall i :: 0 <= i < |s| ==> Fits(kind, s[i], strings))
  }

  ghost function ReadAll(s: seq<Word>, e: Kind): (ws: seq<Word>)
    requires AllStored(s, e)
    ensures |ws| == |s|
  {
    seq(|s|, i requires 0 <= i < |s| => GetTaggedValueWithElementsKind(s[i], e))
  }

  /** Stores of the same form read the same under either kind. */
  lemma {:induction false} SameForm(s: seq<Word>, k: Kind, l: Kind)
    requires AllStored(s, k) && !l.OBJECT? && !l.HOLE_OBJECT?
    requires IsIntKind(k) == IsIntKind(l) && IsNumberKind(k) == IsNumberKind(l)
    ensures Migrated(s, k, s, l) && AllStored(s, l)
  {
    hide IntToDouble;
    HoleMeans();
    forall i | 0 <= i < |s| ensures MigratedWord(s[i], k, s[i], l) { ReadIsValue(s[i], k); }
  }

  lemma {:induction false} MigratedStored(was: seq<Word>, k: Kind, now: seq<Word>, l: Kind)
    requires Migrated(was, k, now, l)
    ensures AllStored(now, l)
  {
    hide Stored;
    forall i | 0 <= i < |now| ensures Stored(l, now[i]) { assert MigratedWord(was[i], k, now[i], l); }
  }

  ghost predicate MigratedTo(was: seq<Word>, k: Kind, mutant: bool, now: seq<Word>, l: Kind, mutant': bool) {
    Migrated(was, StoreKind(k, mutant), now, StoreKind(l, mutant'))
  }

  /** The new kind admits what the word stands for. From doubles to ints that asks for the double of some int. */
  ghost predicate CanMigrate(raw: Word, k: Kind, mutant: bool, l: Kind, strings: set<Word>) {
    if mutant && IsNumberKind(k) && IsIntKind(l) then raw == SPECIAL_HOLE || Integral(raw)
    else Readable(StoreKind(k, mutant), raw) && Fits(l, Meant(raw, StoreKind(k, mutant)), strings)
  }

  ghost predicate AllCanMigrate(s: seq<Word>, k: Kind, mutant: bool, l: Kind, strings: set<Word>) {
    forall i :: 0 <= i < |s| ==> CanMigrate(s[i], k, mutant, l, strings)
  }

  /** Into a wider kind every store can migrate, and no tagged word is on its way that reads as a hole without being one. */
  lemma {:induction false} WiderCanMigrate(s: seq<Word>, k: Kind, l: Kind, mutant: bool, enabled: bool, strings: set<Word>)
    requires ArrayOk(s, k, mutant, enabled, strings) && Wider(k, l)
    ensures AllCanMigrate(s, k, mutant, l, strings)
    ensures !mutant && enabled && IsInNumbers(l) ==> SPECIAL_HOLE !in s
  {
    if mutant { WiderThanRaw(k, l); }
    forall i | 0 <= i < |s| ensures CanMigrate(s[i], k, mutant, l, strings) {
      assert Stored(StoreKind(k, mutant), s[i]);
      hide Fits, Wider, IntToDouble;
      if mutant { RawFits(k, s[i], strings); }
      FitsWider(k, l, Meant(s[i], StoreKind(k, mutant)), strings);
    }
    if !mutant && enabled && IsInNumbers(l) { OnlyHoles(s, k, l, strings); }
  }

  /** Nothing to do: the store's form does not depend on the kind, or both kinds call for the same form. */
  lemma {:induction false} NoMigration(s: seq<Word>, k: Kind, l: Kind, mutant: bool, enabled: bool, strings: set<Word>)
    requires ArrayOk(s, k, mutant, enabled, strings) && AllCanMigrate(s, k, mutant, l, strings)
    requires mutant ==> IsIntKind(k) == IsIntKind(l) && IsNumberKind(k) == IsNumberKind(l)
    requires !mutant && enabled ==> !IsInNumbers(l)
    ensures ArrayOk(s, l, mutant, enabled, strings) && MigratedTo(s, k, mutant, s, l, mutant)
  {
    hide Stored, MigratedWord, Fits;
    SameForm(s, StoreKind(k, mutant), StoreKind(l, mutant));
    if !mutant {
      forall i | 0 <= i < |s| ensures Fits(l, s[i], strings) { assert CanMigrate(s[i], k, mutant, l, strings); }
    }
  }

  /** From a raw store to a tagged one. */
  lemma {:induction false} ToHeap(was: seq<Word>, k: Kind, now: seq<Word>, l: Kind, strings: set<Word>)
    requires IsInNumbers(k) && !IsInNumbers(l) && AllStored(was, k) && AllCanMigrate(was, k, true, l, strings)
    requires |now| == |was|
    requires forall i :: 0 <= i < |was| ==> Readable(k, was[i]) && now[i] == GetTaggedValueWithElementsKind(was[i], k)
    ensures ArrayOk(now, l, false, true, strings) && MigratedTo(was, k, true, now, l, false)
  {
    hide MigratedWord, Fits, GetTaggedValueWithElementsKind;
    forall i | 0 <= i < |was| ensures MigratedWord(was[i], k, now[i], GENERIC) && Fits(l, now[i], strings) {
      assert Stored(k, was[i]) && CanMigrate(was[i], k, true, l, strings);
      HeapWord(was[i], k);
    }
    MigratedStored(was, k, now, GENERIC);
  }

  /** A kind without a raw form that widens to one with a raw form admits no value but holes. */
  lemma {:induction false} OnlyHoles(s: seq<Word>, k: Kind, l: Kind, strings: set<Word>)
    requires ArrayOk(s, k, false, true, strings) && Wider(k, l) && IsInNumbers(l)
    ensures forall i :: 0 <= i < |s| ==> IsHole(s[i])
  {
    hide IntToDouble, ClassOf;
    assert Admits(k, StringValue) ==> Admits(l, StringValue);
    assert Admits(k, ObjectValue) ==> Admits(l, ObjectValue);
    assert Admits(k, OtherValue) ==> Admits(l, OtherValue);
    assert k.NONE? || k.HOLE?;
    forall i | 0 <= i < |s| ensures IsHole(s[i]) {
      assert Fits(k, s[i], strings);
      if !IsHole(s[i]) { ClassNotHole(s[i], strings); assert false; }
    }
  }

  lemma ClassNotHole(w: Word, strings: set<Word>)
    requires !IsHole(w)
    ensures ClassOf(w, strings) != HoleValue
  {
  }

  /** The words of a tagged store whose kind is to become l can be held in the raw form of l. */
  lemma {:induction false} HeldInRaw(s: seq<Word>, k: Kind, l: Kind, strings: set<Word>)
    requires ArrayOk(s, k, false, true, strings) && IsInNumbers(l) && AllCanMigrate(s, k, false, l, strings)
    ensures forall i :: 0 <= i < |s| ==> IsValue(s[i]) && Holds(l, s[i])
  {
    hide Fits, Holds;
    forall i | 0 <= i < |s| ensures IsValue(s[i]) && Holds(l, s[i]) {
      assert Stored(GENERIC, s[i]) && CanMigrate(s[i], k, false, l, strings);
      FitsHolds(l, s[i], strings, true);
    }
  }

  /** From a tagged store to a raw one. */
  lemma {:induction false} ToRawStore(was: seq<Word>, k: Kind, now: seq<Word>, l: Kind, strings: set<Word>)
    requires ArrayOk(was, k, false, true, strings) && IsInNumbers(l) && |now| == |was|
    requires forall i :: 0 <= i < |was| ==> Reads(l, now[i], was[i])
    ensures ArrayOk(now, l, true, true, strings) && MigratedTo(was, k, false, now, l, true)
  {
    hide Fits, IntToDouble, Reads;
    forall i | 0 <= i < |was| ensures MigratedWord(was[i], GENERIC, now[i], l) {
      assert Stored(GENERIC, was[i]) && Reads(l, now[i], was[i]);
    }
    hide Stored, MigratedWord;
    MigratedStored(was, GENERIC, now, l);
  }

  /** From one raw form to the other. */
  lemma {:induction false} ToOtherRaw(was: seq<Word>, k: Kind, now: seq<Word>, l: Kind, strings: set<Word>)
    requires IsInNumbers(k) && IsInNumbers(l) && Migrated(was, k, now, l)
    ensures ArrayOk(now, l, true, true, strings) && MigratedTo(was, k, true, now, l, true)
  {
    hide Stored, MigratedWord;
    MigratedStored(was, k, now, l);
  }

  lemma {:induction false} CanTruncate(s: seq<Word>, k: Kind, l: Kind, strings: set<Word>)
    requires IsNumberKind(k) && IsIntKind(l) && AllCanMigrate(s, k, true, l, strings)
    ensures forall i :: 0 <= i < |s| ==> s[i] == SPECIAL_HOLE || Truncates(s[i])
  {
    hide Truncates, IntToDouble;
    forall i | 0 <= i < |s| ensures s[i] == SPECIAL_HOLE || Truncates(s[i]) {
      assert CanMigrate(s[i], k, true, l, strings);
      if s[i] != SPECIAL_HOLE {
        var n: Int32 :| s[i] == IntToDouble(n);
        TruncateOfInt(n);
      }
    }
  }

  lemma {:induction false} NarrowedMigrated(was: seq<Word>, k: Kind, now: seq<Word>, l: Kind, strings: set<Word>)
    requires IsNumberKind(k) && IsIntKind(l) && AllStored(was, k) && AllCanMigrate(was, k, true, l, strings) && |now| == |was|
    requires forall i :: 0 <= i < |was| ==> (was[i] == SPECIAL_HOLE || Truncates(was[i])) && now[i] == NarrowedWord(was[i])
    ensures Migrated(was, k, now, l)
  {
    hide Truncates, NarrowedWord, MigratedWord, Stored, Integral;
    forall i | 0 <= i < |was| ensures MigratedWord(was[i], k, now[i], l) {
      assert Stored(k, was[i]) && CanMigrate(was[i], k, true, l, strings);
      NarrowsExactly(was[i], k, l);
    }
  }

  /** A kind wider than that of raw doubles is not one of integers. */
  lemma {:induction false} WiderThanRaw(k: Kind, l: Kind)
    requires IsInNumbers(k) && Wider(k, l)
    ensures IsNumberKind(k) ==> !IsIntKind(l)
  {
    assert Admits(k, DoubleValue) ==> Admits(l, DoubleValue);
  }

  lemma {:induction false} ReadAllMigrated(was: seq<Word>, k: Kind, now: seq<Word>, l: Kind)
    requires Migrated(was, k, now, l) && AllStored(was, k) && AllStored(now, l)
    requires !IsInNumbers(k) && IsInNumbers(l) ==> SPECIAL_HOLE !in was
    ensures forall i :: 0 <= i < |was| ==> MeaningOf(ReadAll(now, l)[i]) == MeaningOf(Settled(l, ReadAll(was, k)[i]))
  {
    hide Stored, IntToDouble, MeaningOf;
    forall i | 0 <= i < |was| ensures MeaningOf(ReadAll(now, l)[i]) == MeaningOf(Settled(l, ReadAll(was, k)[i])) {
      assert MigratedWord(was[i], k, now[i], l);
    }
  }

  lemma {:induction false} NoChange(s: seq<Word>, kind: Kind, mutant: bool, enabled: bool, strings: set<Word>)
    requires ArrayOk(s, kind, mutant, enabled, strings)
    ensures MigratedTo(s, kind, mutant, s, kind, mutant)
  {
    hide Stored, MigratedWord, Fits;
    SameForm(s, StoreKind(kind, mutant), StoreKind(kind, mutant));
  }

  /** Writing one value keeps the store in order and leaves the other elements alone. */
  lemma {:induction false} WriteOk(s: seq<Word>, kind: Kind, mutant: bool, enabled: bool, strings: set<Word>, idx: nat, v: Word)
    requires ArrayOk(s, kind, mutant, enabled, strings) && idx < |s| && IsValue(v) && Fits(kind, v, strings)
    ensures Holds(StoreKind(kind, mutant), v)
    ensures var e := StoreKind(kind, mutant); var t := s[idx := ConvertTaggedValueWithElementsKind(v, e)];
      && ArrayOk(t, kind, mutant, enabled, strings)
      && MeaningOf(ReadAll(t, e)[idx]) == MeaningOf(Settled(e, v))
      && forall i :: 0 <= i < |s| && i != idx ==> ReadAll(t, e)[i] == ReadAll(s, e)[i]
  {
    FitsHolds(kind, v, strings, mutant);
    var e := StoreKind(kind, mutant);
    ConvertedReads(v, e);
    hide Stored, IntToDouble, MeaningOf, Holds, Fits;
    var t := s[idx := ConvertTaggedValueWithElementsKind(v, e)];
    forall i | 0 <= i < |t| ensures Stored(e, t[i]) { assert i != idx ==> Stored(e, s[i]); }
    if !mutant { forall i | 0 <= i < |t| ensures Fits(kind, t[i], strings) { assert i != idx ==> Fits(kind, s[i], strings); } }
  }

  /** The merged kind admits the written value. */
  lemma {:induction false} TransitFits(kind: Kind, v: Word, extra: Kind, strings: set<Word>)
    ensures var k := MergeElementsKind(kind, ToElementsKind(ClassOf(v, strings), extra));
      Wider(kind, k) && Fits(k, v, strings) && (kind == GENERIC ==> k == GENERIC)
  {
    var c := ClassOf(v, strings);
    MergeWidens(kind, ToElementsKind(c, extra));
    MergeWidens(KindOfClass(c), extra);
    ClassAdmits(c);
    GenericAbsorbs(ToElementsKind(c, extra));
    hide Admits, MergeElementsKind, ClassOf;
  }

  lemma GenericAbsorbs(k: Kind)
    ensures MergeElementsKind(GENERIC, k) == GENERIC
  {
  }

  /** Merging a value's own kind into the array's is one step of classifying a sequence of values. */
  lemma {:induction false} TransitIsFold(kind: Kind, c: Class)
    ensures MergeElementsKind(kind, ToElementsKind(c, NONE)) == ToElementsKind(c, kind)
  {
    var k := KindOfClass(c);
    assert MergeElementsKind(k, NONE) == k;
    assert ToBits(kind) | ToBits(k) == ToBits(k) | ToBits(kind);
  }

  class JSArray {
    var kind: Kind
    var mutant: bool
    var elements: array<Word>
    const enabled: bool
    const strings: set<Word>

    ghost predicate Valid() reads this, elements { ArrayOk(elements[..], kind, mutant, enabled, strings) }

    /** The array's elements, as reading them one by one gives them. */
    ghost function View(): (ws: seq<Word>)
      requires Valid()
      reads this, elements
    {
      ReadAll(elements[..], StoreKind(kind, mutant))
    }

    /** An empty literal with room for length elements. */
    constructor (length: nat, enabled: bool, strings: set<Word>)
      ensures Valid() && fresh(elements) && this.enabled == enabled && this.strings == strings
      ensures kind == NONE && |View()| == length && forall i :: 0 <= i < length ==> IsHole(View()[i])
    {
      kind, mutant, this.enabled, this.strings := NONE, false, enabled, strings;
      elements := new Word[length](_ => VALUE_HOLE);
    }

    method Get(idx: nat) returns (w: Word)
      requires Valid() && idx < elements.Length
      ensures w == View()[idx]
    {
      var k := kind;
      if !mutant { k := GENERIC; }
      assert Stored(k, elements[..][idx]);
      w := GetTaggedValueWithElementsKind(elements[idx], k);
    }

    /** Brings the store into the form the new kind calls for; every element reads as the value its word stands for. */
    method MigrateArrayWithKind(oldKind: Kind, newKind: Kind)
      requires kind == newKind && ArrayOk(elements[..], oldKind, mutant, enabled, strings)
      requires AllCanMigrate(elements[..], oldKind, mutant, newKind, strings)
      modifies this`elements, this`mutant, elements
      ensures Valid() && (elements == old(elements) || fresh(elements)) && elements.Length == old(elements.Length)
      ensures MigratedTo(old(elements[..]), oldKind, old(mutant), elements[..], newKind, mutant)
    {
      hide AllStored, Migrated, Fits, AllCanMigrate;
      if !enabled {
        NoMigration(elements[..], oldKind, newKind, mutant, enabled, strings);
        return;
      }
      if oldKind == newKind {
        NoMigration(elements[..], oldKind, newKind, mutant, enabled, strings);
        return;
      }
      if (oldKind.INT? && newKind.HOLE_INT?) || (oldKind.NUMBER? && newKind.HOLE_NUMBER?) {
        NoMigration(elements[..], oldKind, newKind, mutant, enabled, strings);
        return;
      } else if oldKind.INT? || oldKind.HOLE_INT? {
        if ToBits(newKind) >= ToBits(STRING) || newKind.NONE? || newKind.HOLE? {
          var newElements := MigrateFromRawValueToHeapValue(elements, oldKind);
          ToHeap(elements[..], oldKind, newElements[..], newKind, strings);
          elements, mutant := newElements, false;
        } else if newKind.NUMBER? || newKind.HOLE_NUMBER? {
          ghost var was := elements[..];
          MigrateFromHoleIntToHoleNumber(elements, oldKind, newKind);
          ToOtherRaw(was, oldKind, elements[..], newKind, strings);
        } else {
          NoMigration(elements[..], oldKind, newKind, mutant, enabled, strings);
        }
      } else if ToBits(oldKind) >= ToBits(NUMBER) && ToBits(oldKind) <= ToBits(HOLE_NUMBER) {
        if ToBits(newKind) >= ToBits(STRING) || newKind.NONE? || newKind.HOLE? {
          var newElements := MigrateFromRawValueToHeapValue(elements, oldKind);
          ToHeap(elements[..], oldKind, newElements[..], newKind, strings);
          elements, mutant := newElements, false;
        } else if newKind.INT? || newKind.HOLE_INT? {
          NarrowInPlace(oldKind, newKind);
        } else {
          NoMigration(elements[..], oldKind, newKind, mutant, enabled, strings);
        }
      } else {
        if IsInNumbers(newKind) {
          HeldInRaw(elements[..], oldKind, newKind, strings);
          var newElements := MigrateFromHeapValueToRawValue(elements, newKind);
          ToRawStore(elements[..], oldKind, newElements[..], newKind, strings);
          elements, mutant := newElements, true;
        } else {
          NoMigration(elements[..], oldKind, newKind, mutant, enabled, strings);
        }
      }
    }

    /** The branch from raw doubles to raw integers. */
    method NarrowInPlace(oldKind: Kind, newKind: Kind)
      requires kind == newKind && IsNumberKind(oldKind) && IsIntKind(newKind)
      requires mutant && enabled && AllStored(elements[..], oldKind)
      requires AllCanMigrate(elements[..], oldKind, true, newKind, strings)
      modifies elements
      ensures Valid() && MigratedTo(old(elements[..]), oldKind, true, elements[..], newKind, mutant)
    {
      hide AllStored, Migrated, AllCanMigrate, NarrowedWord, Truncates;
      ghost var was := elements[..];
      CanTruncate(was, oldKind, newKind, strings);
      MigrateFromHoleNumberToHoleInt(elements);
      NarrowedMigrated(was, oldKind, elements[..], newKind, strings);
      ToOtherRaw(was, oldKind, elements[..], newKind, strings);
    }

    /** Merges the value's kind into the array's; the store is left for the caller to migrate. */
    method TransitToElementsKind(v: Word, extraKind: Kind) returns (changed: bool)
      requires kind == GENERIC || v != 0
      modifies this`kind
      ensures kind == MergeElementsKind(old(kind), ToElementsKind(ClassOf(v, strings), extraKind))
      ensures changed <==> kind != old(kind)
      ensures forall k :: Wider(kind, k) <==> Wider(old(kind), k) && Wider(extraKind, k) && WordAdmitted(k, v, strings)
    {
      hide Wider, WordAdmitted, ClassOf, MergeElementsKind, ToElementsKind;
      forall k
        ensures Wider(MergeElementsKind(kind, ToElementsKind(ClassOf(v, strings), extraKind)), k) <==>
          Wider(kind, k) && Wider(extraKind, k) && WordAdmitted(k, v, strings)
      {
        TransitUnder(kind, v, extraKind, strings, k);
      }
      TransitFits(kind, v, extraKind, strings);
      if kind == GENERIC { return false; }
      var newKind := MergeElementsKind(kind, ToElementsKind(ClassOf(v, strings), extraKind));
      if newKind == kind { return false; }
      kind := newKind;
      return true;
    }

    /**
      * Writes one element: it then reads as the value written, every other element as before, numbers up to
      * their tag. The one exception is the word that a tagged store takes for a hole.
      */
    method Set(idx: nat, v: Word, needTransition: bool, extraKind: Kind)
      requires Valid() && idx < elements.Length && IsValue(v)
      requires if needTransition then kind == GENERIC || v != 0 else Fits(kind, v, strings)
      modifies this`kind, this`elements, this`mutant, elements
      ensures Valid() && (elements == old(elements) || fresh(elements)) && elements.Length == old(elements.Length)
      ensures kind == if needTransition then MergeElementsKind(old(kind), ToElementsKind(ClassOf(v, strings), extraKind)) else old(kind)
      ensures MeaningOf(View()[idx]) == MeaningOf(Settled(StoreKind(kind, mutant), v))
      ensures forall i :: 0 <= i < elements.Length && i != idx ==>
        MeaningOf(View()[i]) == MeaningOf(Settled(StoreKind(kind, mutant), old(View())[i]))
    {
      hide MeaningOf, Settled, Fits, Admits, Wider, MergeElementsKind, ToElementsKind, Migrated, AllStored, ReadAll,
        ConvertTaggedValueWithElementsKind;
      var oldKind := kind;
      ghost var was, e := elements[..], StoreKind(kind, mutant);
      if needTransition {
        TransitFits(kind, v, extraKind, strings);
        var changed := TransitToElementsKind(v, extraKind);
        if changed {
          WiderCanMigrate(was, oldKind, kind, mutant, enabled, strings);
          MigrateArrayWithKind(oldKind, kind);
        } else {
          NoChange(was, oldKind, mutant, enabled, strings);
        }
      } else {
        NoChange(was, oldKind, mutant, enabled, strings);
      }
      ReadAllMigrated(was, e, elements[..], StoreKind(kind, mutant));
      WriteOk(elements[..], kind, mutant, enabled, strings, idx, v);
      var k := kind;
      if !mutant { k := GENERIC; }
      ghost var before := elements[..];
      elements[idx] := ConvertTaggedValueWithElementsKind(v, k);
      assert elements[..] == before[idx := elements[idx]];
    }
  }

  // ----- whole runs -----

  datatype Write = Write(idx: nat, value: Word)

  /** Plain elements after the first k writes: no kinds, no stores. */
  ghost function Written(n: nat, ws: seq<Write>, k: nat): (m: seq<Meaning>)
    requires k <= |ws| && forall j :: 0 <= j < |ws| ==> ws[j].idx < n
    ensures |m| == n
  {
    if k == 0 then seq(n, _ => AHole) else Written(n, ws, k - 1)[ws[k - 1].idx := MeaningOf(ws[k - 1].value)]
  }

  ghost function Classes(ws: seq<Write>, strings: set<Word>): (cs: seq<Class>)
    ensures |cs| == |ws| && forall j :: 0 <= j < |ws| ==> cs[j] == ClassOf(ws[j].value, strings)
  {
    seq(|ws|, j requires 0 <= j < |ws| => ClassOf(ws[j].value, strings))
  }

  // The meaning of the lost word.
  ghost const LOST: Meaning := MeaningOf(SPECIAL_HOLE)

  ghost function SettledMeaning(k: Kind, m: Meaning): (r: Meaning) {
    if !IsInNumbers(k) && m == LOST then AHole else m
  }

  lemma {:induction false} LostMeans(w: Word)
    requires IsValue(w)
    ensures MeaningOf(w) == LOST <==> w == SPECIAL_HOLE
  {
    hide IntToDouble;
  }

  lemma {:induction false} SettledMeans(k: Kind, w: Word)
    requires IsValue(w)
    ensures MeaningOf(Settled(k, w)) == SettledMeaning(k, MeaningOf(w))
  {
    LostMeans(w);
    HoleMeans();
  }

  lemma {:induction false} KindStep(cs: seq<Class>, k: nat)
    requires k < |cs|
    ensures KindOfAll(cs[..k + 1]) == ToElementsKind(cs[k], KindOfAll(cs[..k]))
  {
    assert cs[..k + 1][..k] == cs[..k];
  }

  /** A tagged store whose kind admits doubles stays tagged under every wider kind. */
  lemma {:induction false} StaysTagged(k: Kind, l: Kind, enabled: bool)
    requires Wider(k, l) && Admits(k, DoubleValue) && !(enabled && IsInNumbers(k))
    ensures !(enabled && IsInNumbers(l)) && Admits(l, DoubleValue)
  {
    assert Admits(k, OtherValue) ==> Admits(l, OtherValue);
  }

  /** The elements read as the plain ones, except that a tagged store shows the lost word as a hole. */
  ghost predicate Agrees(view: seq<Word>, k: Kind, enabled: bool, m: seq<Meaning>) {
    && |view| == |m| && (LOST in m ==> Admits(k, DoubleValue))
    && forall i :: 0 <= i < |view| ==> IsValue(view[i]) && MeaningOf(view[i]) == SettledMeaning(FormKind(k, enabled), m[i])
  }

  ghost function FormKind(k: Kind, enabled: bool): (e: Kind) { StoreKind(k, enabled && IsInNumbers(k)) }

  lemma {:induction false} AgreesStep(view: seq<Word>, k: Kind, view': seq<Word>, l: Kind, enabled: bool, m: seq<Meaning>, idx: nat, v: Word)
    requires Agrees(view, k, enabled, m) && Wider(k, l) && idx < |view| == |view'| && IsValue(v)
    requires v == SPECIAL_HOLE ==> Admits(l, DoubleValue)
    requires forall i :: 0 <= i < |view'| ==> IsValue(view'[i])
    requires MeaningOf(view'[idx]) == MeaningOf(Settled(FormKind(l, enabled), v))
    requires forall i :: 0 <= i < |view| && i != idx ==>
      MeaningOf(view'[i]) == MeaningOf(Settled(FormKind(l, enabled), view[i]))
    ensures Agrees(view', l, enabled, m[idx := MeaningOf(v)])
  {
    hide MeaningOf, Settled, IsValue, FormKind, Admits;
    var e, m' := FormKind(l, enabled), m[idx := MeaningOf(v)];
    LostMeans(v);
    forall i | 0 <= i < |view'| ensures MeaningOf(view'[i]) == SettledMeaning(e, m'[i]) {
      if i == idx {
        SettledMeans(e, v);
      } else {
        SettledMeans(e, view[i]);
        if m[i] == LOST { assert LOST in m; LossIsFinal(k, l, enabled); }
      }
    }
    if LOST in m' {
      if MeaningOf(v) != LOST {
        var i :| 0 <= i < |m'| && m'[i] == LOST;
        assert m[i] in m;
      }
    }
  }

  lemma {:induction false} LossIsFinal(k: Kind, l: Kind, enabled: bool)
    requires Wider(k, l) && Admits(k, DoubleValue)
    ensures !IsInNumbers(FormKind(k, enabled)) ==> !IsInNumbers(FormKind(l, enabled))
  {
    hide Admits, Wider;
    if !(enabled && IsInNumbers(k)) { StaysTagged(k, l, enabled); }
  }

  lemma {:induction false} ReadAllValues(s: seq<Word>, e: Kind)
    requires AllStored(s, e)
    ensures forall i :: 0 <= i < |s| ==> IsValue(ReadAll(s, e)[i])
  {
    hide Stored, IsValue, GetTaggedValueWithElementsKind;
    forall i | 0 <= i < |s| ensures IsValue(ReadAll(s, e)[i]) { assert Stored(e, s[i]); ReadIsValue(s[i], e); }
  }

  lemma {:induction false} AgreesFirst(view: seq<Word>, enabled: bool, ws: seq<Write>)
    requires forall j :: 0 <= j < |ws| ==> ws[j].idx < |view|
    requires forall i :: 0 <= i < |view| ==> IsHole(view[i]) && IsValue(view[i])
    ensures Agrees(view, NONE, enabled, Written(|view|, ws, 0))
  {
    HoleMeans();
    hide IntToDouble;
  }

  /**
    * Any run of writes into a new array, whatever migrations it causes, leaves the elements a plain array would
    * hold (in a tagged store one NaN shows as a hole), and the kind is the least one that admits every value.
    */
  method Run(a: JSArray, ws: seq<Write>)
    requires a.Valid() && a.kind == NONE && forall i :: 0 <= i < a.elements.Length ==> IsHole(a.View()[i])
    requires forall j :: 0 <= j < |ws| ==> ws[j].idx < a.elements.Length && IsValue(ws[j].value) && ws[j].value != 0
    modifies a, a.elements
    ensures a.Valid() && a.elements.Length == old(a.elements.Length)
    ensures Agrees(a.View(), a.kind, a.enabled, Written(a.elements.Length, ws, |ws|))
    ensures a.kind == KindOfAll(Classes(ws, a.strings))
    ensures forall k :: Wider(a.kind, k) <==> AllAdmitted(k, ws, a.strings)
  {
    hide MeaningOf, Settled, Agrees, Stored, Fits, Admits, Wider, MergeElementsKind, ToElementsKind, ReadAll, FormKind,
      KindOfAll, ClassOf, IsValue, AllStored;
    var n := a.elements.Length;
    ghost var cs := Classes(ws, a.strings);
    ReadAllValues(a.elements[..], StoreKind(a.kind, a.mutant));
    AgreesFirst(a.View(), a.enabled, ws);
    assert cs[..0] == [];
    NothingWritten();
    for k := 0 to |ws|
      invariant a.Valid() && a.elements.Length == n && (a.elements == old(a.elements) || fresh(a.elements))
      invariant Agrees(a.View(), a.kind, a.enabled, Written(n, ws, k))
      invariant a.kind == KindOfAll(cs[..k])
    {
      ghost var view, kind := a.View(), a.kind;
      var v := ws[k].value;
      TransitFits(a.kind, v, NONE, a.strings);
      TransitIsFold(a.kind, cs[k]);
      KindStep(cs, k);
      a.Set(ws[k].idx, v, true, NONE);
      ReadAllValues(a.elements[..], StoreKind(a.kind, a.mutant));
      WrittenDouble(a.kind, v, a.strings);
      RawForm(a.elements[..], a.kind, a.mutant, a.enabled, a.strings);
      AgreesStep(view, kind, a.View(), a.kind, a.enabled, Written(n, ws, k), ws[k].idx, v);
    }
    assert cs[..|ws|] == cs;
    forall k ensures Wider(a.kind, k) <==> AllAdmitted(k, ws, a.strings) { RunUnder(ws, a.strings, k); }
  }

  ghost predicate AllAdmitted(k: Kind, ws: seq<Write>, strings: set<Word>) {
    forall j :: 0 <= j < |ws| ==> WordAdmitted(k, ws[j].value, strings)
  }

  lemma {:induction false} RunUnder(ws: seq<Write>, strings: set<Word>, k: Kind)
    requires forall j :: 0 <= j < |ws| ==> ws[j].value != 0
    ensures Wider(KindOfAll(Classes(ws, strings)), k) <==> AllAdmitted(k, ws, strings)
  {
    hide KindOfAll, WordAdmitted, ClassOf;
    var values := seq(|ws|, j requires 0 <= j < |ws| => ws[j].value);
    KindUnder(values, Classes(ws, strings), strings, k);
    assert forall j :: 0 <= j < |ws| ==> values[j] == ws[j].value;
  }

  ghost function Meanings(ws: seq<Word>): (m: seq<Meaning>)
    ensures |m| == |ws| && forall i :: 0 <= i < |ws| ==> m[i] == MeaningOf(ws[i])
  {
    seq(|ws|, i requires 0 <= i < |ws| => MeaningOf(ws[i]))
  }

  lemma {:induction false} AgreesItself(s: seq<Word>, k: Kind, mutant: bool, enabled: bool, strings: set<Word>)
    requires ArrayOk(s, k, mutant, enabled, strings)
    ensures var view := ReadAll(s, StoreKind(k, mutant)); Agrees(view, k, enabled, Meanings(view))
  {
    hide MeaningOf, IsValue, Stored, Fits, Admits;
    var e := StoreKind(k, mutant);
    var view := ReadAll(s, e);
    ReadAllValues(s, e);
    RawForm(s, k, mutant, enabled, strings);
    forall i | 0 <= i < |s|
      ensures MeaningOf(view[i]) == SettledMeaning(e, MeaningOf(view[i])) && (view[i] == SPECIAL_HOLE ==> IsNumberKind(k))
    {
      ReadNotLost(s[i], e);
      LostMeans(view[i]);
    }
    forall i | 0 <= i < |s| ensures MeaningOf(view[i]) == LOST ==> IsNumberKind(k) { LostMeans(view[i]); }
    NumbersAdmitDoubles(k);
  }

  lemma {:induction false} ReadNotLost(raw: Word, e: Kind)
    requires Stored(e, raw)
    ensures GetTaggedValueWithElementsKind(raw, e) == SPECIAL_HOLE ==> IsNumberKind(e)
  {
    ReadIsValue(raw, e);
    HoleMeans();
  }

  lemma NumbersAdmitDoubles(k: Kind)
    ensures IsNumberKind(k) ==> Admits(k, DoubleValue)
  {
  }

  /** The first n elements of one array in front of the others of another. */
  ghost function Overlaid(src: seq<Meaning>, n: nat, dst: seq<Meaning>): (m: seq<Meaning>)
    requires n <= |src| && n <= |dst|
  {
    src[..n] + dst[n..]
  }

  lemma OverlaidFirst(src: seq<Meaning>, dst: seq<Meaning>)
    ensures Overlaid(src, 0, dst) == dst
  {
  }

  lemma OverlaidStep(src: seq<Meaning>, n: nat, dst: seq<Meaning>)
    requires n < |src| && n < |dst|
    ensures Overlaid(src, n + 1, dst) == Overlaid(src, n, dst)[n := src[n]]
  {
  }

  /** Copies the first elements of one array over those of another, transitioning the destination as needed. */
  method CopyJSArrayObject(src: JSArray, dst: JSArray, effectiveLength: nat)
    requires src.Valid() && dst.Valid() && src != dst && src.elements != dst.elements
    requires effectiveLength <= src.elements.Length && effectiveLength <= dst.elements.Length
    requires dst.kind == GENERIC || forall i :: 0 <= i < effectiveLength ==> src.View()[i] != 0
    modifies dst, dst.elements
    ensures src.Valid() && src.View() == old(src.View()) && dst.Valid()
    ensures Agrees(dst.View(), dst.kind, dst.enabled, Overlaid(Meanings(src.View()), effectiveLength, old(Meanings(dst.View()))))
  {
    hide MeaningOf, Settled, Agrees, Stored, Fits, Admits, Wider, MergeElementsKind, ToElementsKind, ReadAll, FormKind,
      ClassOf, IsValue, AllStored, Overlaid, GetTaggedValueWithElementsKind;
    ghost var ms, md, n := Meanings(src.View()), Meanings(dst.View()), dst.elements.Length;
    AgreesItself(dst.elements[..], dst.kind, dst.mutant, dst.enabled, dst.strings);
    ReadAllValues(src.elements[..], StoreKind(src.kind, src.mutant));
    OverlaidFirst(ms, md);
    for i := 0 to effectiveLength
      invariant src.Valid() && src.View() == old(src.View()) && src.elements == old(src.elements)
      invariant src.elements[..] == old(src.elements[..]) && src.kind == old(src.kind) && src.mutant == old(src.mutant)
      invariant dst.Valid() && dst.elements.Length == n && (dst.elements == old(dst.elements) || fresh(dst.elements))
      invariant dst.elements != src.elements && (old(dst.kind) == GENERIC ==> dst.kind == GENERIC)
      invariant Agrees(dst.View(), dst.kind, dst.enabled, Overlaid(ms, i, md))
    {
      ghost var view, kind := dst.View(), dst.kind;
      var value := src.Get(i);
      TransitFits(dst.kind, value, NONE, dst.strings);
      dst.Set(i, value, true, NONE);
      ReadAllValues(dst.elements[..], StoreKind(dst.kind, dst.mutant));
      WrittenDouble(dst.kind, value, dst.strings);
      RawForm(dst.elements[..], dst.kind, dst.mutant, dst.enabled, dst.strings);
      AgreesStep(view, kind, dst.View(), dst.kind, dst.enabled, Overlaid(ms, i, md), i, value);
      OverlaidStep(ms, i, md);
    }
  }

  lemma NothingWritten()
    ensures KindOfAll([]) == NONE
  {
  }

  lemma WrittenDouble(k: Kind, v: Word, strings: set<Word>)
    requires Fits(k, v, strings)
    ensures v == SPECIAL_HOLE ==> Admits(k, DoubleValue)
  {
  }

  lemma RawForm(s: seq<Word>, k: Kind, mutant: bool, enabled: bool, strings: set<Word>)
    requires ArrayOk(s, k, mutant, enabled, strings)
    ensures StoreKind(k, mutant) == FormKind(k, enabled)
  {
  }
}
