/** The intern table: one object per content, so that identity decides equality of interned strings. */
module StringTable {
  import opened CodeUnits
  import opened Common
  import opened StringHash
  import opened Ropes
  import opened StringHeap
  import opened HashedStrings
  import StringSearch

  // One element of the multimap from hash codes to strings.
  datatype Entry = Entry(key: Uint32, str: Id)

  ghost predicate EntryOk(h: Heap, e: Entry)
    requires WellFormed(h)
  {
    e.str < |h| && !h[e.str].body.Tree? && h[e.str].interned && e.key == HashOf(Val(h, e.str))
  }

  ghost predicate HasContent(h: Heap, t: seq<Entry>, s: seq<CodeUnit>)
    requires WellFormed(h)
  {
    exists e :: 0 <= e < |t| && t[e].str < |h| && Val(h, t[e].str) == s
  }

  ghost predicate InTable(t: seq<Entry>, i: Id) {
    exists e :: 0 <= e < |t| && t[e].str == i
  }

  ghost predicate AllHashesOk(h: Heap)
    requires WellFormed(h)
  {
    forall i {:trigger HashOk(h, i)} :: 0 <= i < |h| ==> HashOk(h, i)
  }

  ghost predicate EntriesOk(h: Heap, t: seq<Entry>)
    requires WellFormed(h)
  {
    forall e :: 0 <= e < |t| ==> EntryOk(h, t[e])
  }

  /** No two entries have the same content. */
  ghost predicate Canonical(h: Heap, t: seq<Entry>)
    requires WellFormed(h) && EntriesOk(h, t)
  {
    forall d, e :: 0 <= d < e < |t| ==> Val(h, t[d].str) != Val(h, t[e].str)
  }

  ghost predicate InternedInTable(h: Heap, t: seq<Entry>) {
    forall i :: 0 <= i < |h| && h[i].interned ==> InTable(t, i)
  }

  ghost predicate TableOk(h: Heap, t: seq<Entry>) {
    && WellFormed(h) && AllHashesOk(h) && EntriesOk(h, t) && Canonical(h, t) && InternedInTable(h, t)
  }

  /** Interned strings are equal only when they are the same object. */
  lemma {:induction false} InternedEqualIsIdentical(h: Heap, t: seq<Entry>, i: Id, j: Id)
    requires TableOk(h, t) && i < |h| && j < |h| && h[i].interned && h[j].interned
    ensures Val(h, i) == Val(h, j) <==> i == j
  {
    hide Val, HashOf, WellFormed;
    assert InTable(t, i) && InTable(t, j);
    var d :| 0 <= d < |t| && t[d].str == i;
    var e :| 0 <= e < |t| && t[e].str == j;
    if d < e {
      assert Val(h, t[d].str) != Val(h, t[e].str);
    } else if e < d {
      assert Val(h, t[e].str) != Val(h, t[d].str);
    }
  }

  /** String operations elsewhere do not disturb the table. */
  lemma {:induction false} TableKept(h: Heap, g: Heap, t: seq<Entry>)
    requires TableOk(h, t) && Preserves(h, g)
    ensures TableOk(g, t)
  {
    hide Val, HashOf, WellFormed, NodeOk;
    forall i | 0 <= i < |g| ensures HashOk(g, i) {
      if i < |h| { assert HashOk(h, i); SameLength(h, g, i); }
    }
    forall e | 0 <= e < |t| ensures EntryOk(g, t[e]) {
      assert EntryOk(h, t[e]);
      SameLength(h, g, t[e].str);
    }
    forall d, e | 0 <= d < e < |t| ensures Val(g, t[d].str) != Val(g, t[e].str) {
      assert EntryOk(h, t[d]) && EntryOk(h, t[e]);
      SameLength(h, g, t[d].str);
      SameLength(h, g, t[e].str);
    }
  }

  // ----- inserting -----

  function Interned(h: Heap, i: Id, key: Uint32): (g: Heap)
    requires i < |h|
  {
    h[i := h[i].(hash := key, interned := true)]
  }

  lemma {:induction false} InternedKeeps(h: Heap, i: Id, key: Uint32)
    requires WellFormed(h) && i < |h| && key == HashOf(Val(h, i))
    ensures KeepsStrings(h, Interned(h, i, key))
  {
    hide HashOf, Val, NodeOk;
    HeaderChange(h, Interned(h, i, key), i);
  }

  lemma {:induction false} InsertKeepsTable(h: Heap, t: seq<Entry>, i: Id, key: Uint32)
    requires TableOk(h, t) && i < |h| && !h[i].body.Tree? && key == HashOf(Val(h, i)) && !HasContent(h, t, Val(h, i))
    ensures TableOk(Interned(h, i, key), t + [Entry(key, i)])
  {
    hide Val, HashOf, NodeOk, WellFormed;
    var g, t' := Interned(h, i, key), t + [Entry(key, i)];
    HeaderChange(h, g, i);
    forall j | 0 <= j < |g| ensures HashOk(g, j) { assert HashOk(h, j); }
    forall e | 0 <= e < |t'| ensures EntryOk(g, t'[e]) {
      if e < |t| { assert EntryOk(h, t[e]); }
    }
    forall d, e | 0 <= d < e < |t'| ensures Val(g, t'[d].str) != Val(g, t'[e].str) {
      assert EntryOk(h, t[d]);
      if e < |t| { assert EntryOk(h, t[e]) && Val(h, t[d].str) != Val(h, t[e].str); }
    }
    forall j | 0 <= j < |g| && g[j].interned ensures InTable(t', j) {
      if j == i {
        assert t'[|t|].str == i;
      } else {
        assert InTable(t, j);
        var e :| 0 <= e < |t| && t[e].str == j;
        assert t'[e].str == j;
      }
    }
  }

  // ----- comparing -----

  method EqualUnits(s: seq<CodeUnit>, t: seq<CodeUnit>) returns (r: bool)
    requires |s| == |t|
    ensures r <==> s == t
  {
    for i := 0 to |s|
      invariant s[..i] == t[..i]
    {
      if s[i] != t[i] {
        return false;
      }
    }
    assert s[..|s|] == s && t[..|t|] == t;
    return true;
  }

  // What the UTF-8 decoder yields at one step: a low unit, and before it a high one unless that is 0.
  datatype Decoded = Decoded(high: CodeUnit, low: CodeUnit)

  ghost function UnitsOf(steps: seq<Decoded>): (s: seq<CodeUnit>) {
    if steps == [] then []
    else
      var d := steps[|steps| - 1];
      UnitsOf(steps[..|steps| - 1]) + if d.high != 0 then [d.high, d.low] else [d.low]
  }

  /** Walks decoded UTF-8 data along wide data. It stops at the end of the UTF-8 data, so it answers whether that is a
      prefix; equal lengths are the caller's business. */
  method IsUtf8EqualsUtf16(steps: seq<Decoded>, units: seq<CodeUnit>) returns (r: bool)
    requires units == [] ==> forall i :: 0 <= i < |steps| ==> steps[i].high == 0
    ensures r <==> UnitsOf(steps) <= units
  {
    hide UnitsOf;
    var pos: nat := 0;
    UnitsFirst(steps);
    for i := 0 to |steps|
      invariant pos <= |units| && UnitsOf(steps[..i]) == units[..pos]
    {
      var d := steps[i];
      UnitsStep(steps, i);
      if d.high != 0 {
        if pos >= |units| - 1 || units[pos] != d.high {
          NoPrefix(steps, i, units, pos);
          return false;
        }
        pos := pos + 1;
      }
      if pos >= |units| || units[pos] != d.low {
        NoPrefix(steps, i, units, if d.high != 0 then pos - 1 else pos);
        return false;
      }
      pos := pos + 1;
    }
    assert steps[..|steps|] == steps;
    return true;
  }

  lemma {:induction false} UnitsFirst(steps: seq<Decoded>)
    ensures UnitsOf(steps[..0]) == []
  {
    assert steps[..0] == [];
  }

  lemma {:induction false} UnitsStep(steps: seq<Decoded>, i: nat)
    requires i < |steps|
    ensures UnitsOf(steps[..i + 1]) ==
      UnitsOf(steps[..i]) + if steps[i].high != 0 then [steps[i].high, steps[i].low] else [steps[i].low]
  {
    assert steps[..i + 1][..i] == steps[..i];
  }

  lemma {:induction false} UnitsGrow(steps: seq<Decoded>, i: nat)
    requires i <= |steps|
    ensures UnitsOf(steps[..i]) <= UnitsOf(steps)
    decreases |steps| - i
  {
    if i < |steps| {
      UnitsStep(steps, i);
      UnitsGrow(steps, i + 1);
    } else {
      assert steps[..i] == steps;
    }
  }

  /** A step whose units do not match rules a prefix out. */
  lemma {:induction false} NoPrefix(steps: seq<Decoded>, i: nat, units: seq<CodeUnit>, pos: nat)
    requires i < |steps| && pos <= |units| && UnitsOf(steps[..i]) == units[..pos]
    requires var d := steps[i];
      if d.high != 0 then pos + 1 >= |units| || units[pos] != d.high || units[pos + 1] != d.low
      else pos >= |units| || units[pos] != d.low
    ensures !(UnitsOf(steps) <= units)
  {
    hide UnitsOf;
    UnitsStep(steps, i);
    UnitsGrow(steps, i + 1);
    var u := UnitsOf(steps[..i + 1]);
    assert u[pos] == if steps[i].high != 0 then steps[i].high else steps[i].low;
    assert steps[i].high != 0 ==> u[pos + 1] == steps[i].low;
  }

  /** ASCII bytes decode to one unit each. */
  function AsciiSteps(data: seq<CodeUnit>): (steps: seq<Decoded>)
    ensures |steps| == |data| && forall i :: 0 <= i < |data| ==> steps[i] == Decoded(0, data[i])
  {
    seq(|data|, i requires 0 <= i < |data| => Decoded(0, data[i]))
  }

  lemma {:induction false} AsciiUnits(data: seq<CodeUnit>)
    ensures UnitsOf(AsciiSteps(data)) == data
  {
    if data != [] {
      var n := |data| - 1;
      AsciiUnits(data[..n]);
      assert AsciiSteps(data)[..n] == AsciiSteps(data[..n]);
    }
  }

  /** Equality of two heap strings by content, with the shortcuts on identity, length and cached hashes. */
  method StringsAreEqual(h: Heap, a: Id, b: Id) returns (r: bool)
    requires WellFormed(h) && a < |h| && b < |h| && HashOk(h, a) && HashOk(h, b)
    ensures r <==> Val(h, a) == Val(h, b)
  {
    hide Val, HashOf, NodeOk, WellFormed;
    if a == b {
      return true;
    }
    if h[a].length != h[b].length {
      return false;
    }
    if h[a].length == 0 {
      return true;
    }
    if h[a].hash != 0 && h[b].hash != 0 && h[a].hash != h[b].hash {
      return false;
    }
    var s := FlatData(h, a);
    var t := FlatData(h, b);
    r := EqualUnits(s, t);
  }

  method StringIsEqualUint8Data(h: Heap, a: Id, data: seq<CodeUnit>) returns (r: bool)
    requires WellFormed(h) && a < |h| && Compressible(data)
    ensures r <==> Val(h, a) == data
  {
    hide Val, NodeOk, WellFormed, Compressible;
    NarrowIffCompressible(h, a);
    if !h[a].body.Sliced? && !h[a].utf8 {
      return false;
    }
    if h[a].length != |data| {
      return false;
    }
    var s := FlatData(h, a);
    if h[a].utf8 {
      r := EqualUnits(s, data);
    } else {
      AsciiUnits(data);
      r := IsUtf8EqualsUtf16(AsciiSteps(data), s);
    }
  }

  method StringsAreEqualUtf16(h: Heap, a: Id, data: seq<CodeUnit>) returns (r: bool)
    requires WellFormed(h) && a < |h|
    ensures r <==> Val(h, a) == data
  {
    hide Val, NodeOk, WellFormed, Compressible;
    NarrowIffCompressible(h, a);
    if h[a].length != |data| {
      return false;
    }
    var s := FlatData(h, a);
    if h[a].utf8 {
      AsciiUnits(s);
      r := IsUtf8EqualsUtf16(AsciiSteps(s), data);
    } else {
      r := EqualUnits(s, data);
    }
  }

  method EqualToSplicedString(h: Heap, a: Id, first: Id, second: Id) returns (r: bool)
    requires WellFormed(h) && a < |h| && first < |h| && second < |h|
    ensures r <==> Val(h, a) == Val(h, first) + Val(h, second)
  {
    hide Val, NodeOk, WellFormed, Compressible;
    ghost var u, v := Val(h, first), Val(h, second);
    if h[a].length != h[first].length + h[second].length {
      return false;
    }
    NarrowIffCompressible(h, a);
    var data := FlatData(h, a);
    var front, back := data[..h[first].length], data[h[first].length..];
    assert front + back == data;
    assert (u + v)[..|u|] == u && (u + v)[|u|..] == v;
    if h[a].utf8 {
      CompressibleAppend(front, back);
      r := StringIsEqualUint8Data(h, first, front);
      if r { r := StringIsEqualUint8Data(h, second, back); }
    } else {
      r := StringsAreEqualUtf16(h, first, front);
      if r { r := StringsAreEqualUtf16(h, second, back); }
    }
  }

  // ----- looking up -----

  // What a lookup compares the strings of a bucket with.
  datatype Query = ByString(str: Id) | ByUtf8(data: seq<CodeUnit>) | ByUtf16(data: seq<CodeUnit>) | ByParts(first: Id, second: Id)

  ghost predicate QueryOk(h: Heap, q: Query) {
    && WellFormed(h)
    && match q
       case ByString(i) => i < |h|
       case ByUtf8(d) => Compressible(d)
       case ByUtf16(d) => true
       case ByParts(a, b) => a < |h| && b < |h|
  }

  ghost function QueryContent(h: Heap, q: Query): (s: seq<CodeUnit>)
    requires QueryOk(h, q)
  {
    match q
    case ByString(i) => Val(h, i)
    case ByUtf8(d) => d
    case ByUtf16(d) => d
    case ByParts(a, b) => Val(h, a) + Val(h, b)
  }

  method Matches(h: Heap, found: Id, q: Query) returns (r: bool)
    requires QueryOk(h, q) && AllHashesOk(h) && found < |h|
    ensures r <==> Val(h, found) == QueryContent(h, q)
  {
    hide Val, NodeOk, WellFormed, Compressible;
    match q {
      case ByString(i) =>
        assert HashOk(h, found) && HashOk(h, i);
        r := StringsAreEqual(h, found, i);
      case ByUtf8(d) => r := StringIsEqualUint8Data(h, found, d);
      case ByUtf16(d) => r := StringsAreEqualUtf16(h, found, d);
      case ByParts(a, b) => r := EqualToSplicedString(h, found, a, b);
    }
  }

  /** Searches the bucket of a hash code. */
  method Find(h: Heap, t: seq<Entry>, hash: Uint32, q: Query) returns (r: Option<Id>)
    requires QueryOk(h, q) && AllHashesOk(h) && EntriesOk(h, t)
    ensures r.Some? ==> InTable(t, r.value) && r.value < |h| && Val(h, r.value) == QueryContent(h, q)
    ensures r.Some? ==> hash == HashOf(QueryContent(h, q))
    ensures r.None? ==> forall e :: 0 <= e < |t| && t[e].key == hash ==> Val(h, t[e].str) != QueryContent(h, q)
  {
    hide Val, NodeOk, WellFormed, Compressible, QueryContent, HashOf, AllHashesOk;
    for e := 0 to |t|
      invariant forall d :: 0 <= d < e && t[d].key == hash ==> Val(h, t[d].str) != QueryContent(h, q)
    {
      if t[e].key == hash {
        assert EntryOk(h, t[e]);
        var m := Matches(h, t[e].str, q);
        if m {
          return Some(t[e].str);
        }
      }
    }
    return None;
  }

  lemma {:induction false} NotInBucketNotInTable(h: Heap, t: seq<Entry>, s: seq<CodeUnit>)
    requires WellFormed(h) && EntriesOk(h, t)
    requires forall e :: 0 <= e < |t| && t[e].key == HashOf(s) ==> Val(h, t[e].str) != s
    ensures !HasContent(h, t, s)
  {
    hide Val, HashOf, WellFormed;
    forall e | 0 <= e < |t| && t[e].str < |h| ensures Val(h, t[e].str) != s {
      assert EntryOk(h, t[e]);
    }
  }

  // ----- the table -----

  /** r is the table's one object with content s. */
  ghost predicate InternedAs(h: Heap, t: seq<Entry>, r: Id, s: seq<CodeUnit>) {
    WellFormed(h) && r < |h| && h[r].interned && InTable(t, r) && Val(h, r) == s
  }

  lemma {:induction false} FoundIsInterned(h: Heap, t: seq<Entry>, r: Id, s: seq<CodeUnit>)
    requires TableOk(h, t) && InTable(t, r) && r < |h| && Val(h, r) == s
    ensures InternedAs(h, t, r, s)
  {
    var e :| 0 <= e < |t| && t[e].str == r;
    assert EntryOk(h, t[e]);
  }

  lemma {:induction false} InternedIsInTable(h: Heap, t: seq<Entry>, i: Id)
    requires TableOk(h, t) && i < |h| && h[i].interned
    ensures InternedAs(h, t, i, Val(h, i)) && HasContent(h, t, Val(h, i)) && !h[i].body.Tree?
  {
    assert InTable(t, i);
    var e :| 0 <= e < |t| && t[e].str == i;
    assert EntryOk(h, t[e]);
  }

  /** Flattening string i yields a string that is interned. */
  ghost predicate FlatIsInterned(h: Heap, i: Id)
    requires i < |h|
  {
    if !h[i].body.Tree? then h[i].interned
    else !IsOpenTree(h, i) && h[i].body.first < |h| && h[h[i].body.first].interned
  }

  lemma FlatInterned(h: Heap, g: Heap, i: Id, r: Id)
    requires Preserves(h, g) && i < |h| && r < |g|
    requires !h[i].body.Tree? ==> r == i && g == h
    requires IsOpenTree(h, i) ==> r == |h|
    requires h[i].body.Tree? && !IsOpenTree(h, i) ==> r == h[i].body.first && g == h
    ensures g[r].interned <==> FlatIsInterned(h, i)
  {
  }

  lemma FlatInternedAfter(g: Heap, i: Id, r: Id, key: Uint32)
    requires i < |g| && !IsOpenTree(g, i) && r == FlatOf(g, i) && r < |g|
    ensures var k := Interned(g, r, key); FlatIsInterned(k, i) && r == FlatOf(k, i)
    ensures g[r].interned ==> FlatIsInterned(g, i)
  {
  }

  method FlattenBoth(heap: EcmaStringHeap, i: Id, j: Id) returns (first: Id, second: Id)
    requires heap.Valid() && i < |heap.nodes| && j < |heap.nodes|
    modifies heap`nodes
    ensures heap.Valid() && Preserves(old(heap.nodes), heap.nodes)
    ensures first < |heap.nodes| && Val(heap.nodes, first) == Val(old(heap.nodes), i)
    ensures second < |heap.nodes| && Val(heap.nodes, second) == Val(old(heap.nodes), j)
  {
    hide Val, HashOf, NodeOk, KeepsStrings, WellFormed, IsOpenTree;
    first := heap.Flatten(i);
    ghost var mid := heap.nodes;
    SameLength(old(heap.nodes), mid, j);
    second := heap.Flatten(j);
    SameLength(mid, heap.nodes, first);
    PreservesTransitive(old(heap.nodes), mid, heap.nodes);
  }

  /** Concatenates and flattens: the result is new unless one operand is empty. */
  method ConcatFlat(heap: EcmaStringHeap, i: Id, j: Id) returns (o: Outcome<Id>)
    requires heap.Valid() && i < |heap.nodes| && j < |heap.nodes|
    modifies heap`nodes
    ensures heap.Valid() && Preserves(old(heap.nodes), heap.nodes)
    ensures o.RangeError? <==> old(heap.nodes)[i].length + old(heap.nodes)[j].length >= MAX_STRING_LENGTH
    ensures o.Ok? ==> o.value < |heap.nodes| && !heap.nodes[o.value].body.Tree?
    ensures o.Ok? ==> Val(heap.nodes, o.value) == Val(old(heap.nodes), i) + Val(old(heap.nodes), j)
    ensures o.Ok? && old(heap.nodes)[i].length > 0 && old(heap.nodes)[j].length > 0 ==> !heap.nodes[o.value].interned
  {
    hide Val, HashOf, NodeOk, KeepsStrings, WellFormed, IsOpenTree;
    o := heap.Concat(i, j);
    if o.Ok? {
      ghost var mid := heap.nodes;
      var flat := heap.Flatten(o.value);
      PreservesTransitive(old(heap.nodes), mid, heap.nodes);
      o := Ok(flat);
    }
  }

  // Concatenating two strings to intern the result does not check for the null that a failed concatenation returns.
  datatype PartsOutcome = Answer(value: Id) | NullDereference

  class EcmaStringTable {
    const heap: EcmaStringHeap
    var table: seq<Entry>

    ghost predicate Valid()
      reads this, heap
    {
      heap.Valid() && TableOk(heap.nodes, table)
    }

    constructor (heap: EcmaStringHeap)
      requires heap.Valid() && forall i :: 0 <= i < |heap.nodes| ==> !heap.nodes[i].interned && heap.nodes[i].hash == 0
      ensures Valid() && this.heap == heap && table == []
    {
      this.heap := heap;
      table := [];
    }

    /** Adds string i under the hash in its header, which is computed when it is unset, and marks it interned. A string
        that is interned already is left as it is. */
    method InternStringThreadUnsafe(i: Id)
      requires heap.Valid() && i < |heap.nodes|
      modifies this`table, heap`nodes
      ensures var h := old(heap.nodes);
        var key := if h[i].hash == 0 then HashOf(Val(h, i)) else h[i].hash;
        if h[i].interned then heap.nodes == h && table == old(table)
        else heap.nodes == Interned(h, i, key) && table == old(table) + [Entry(key, i)]
    {
      hide Val, HashOf, NodeOk, KeepsStrings, WellFormed;
      if heap.nodes[i].interned {
        return;
      }
      var hash := heap.nodes[i].hash;
      if hash == 0 && heap.nodes[i].length != 0 {
        hash := ComputeHashcode(heap.nodes, i);
      } else if hash == 0 {
        EmptyHash(Val(heap.nodes, i));
      }
      table := table + [Entry(hash, i)];
      heap.nodes := Interned(heap.nodes, i, hash);
    }

    /** Interning a new content: string i becomes the one object for it. */
    method InternNew(i: Id)
      requires Valid() && i < |heap.nodes| && !heap.nodes[i].body.Tree?
      requires !HasContent(heap.nodes, table, Val(heap.nodes, i))
      modifies this`table, heap`nodes
      ensures Valid() && KeepsStrings(old(heap.nodes), heap.nodes)
      ensures InternedAs(heap.nodes, table, i, Val(old(heap.nodes), i))
      ensures table == old(table) + [Entry(HashOf(Val(old(heap.nodes), i)), i)]
    {
      hide Val, HashOf, NodeOk, KeepsStrings, WellFormed, HasContent, EntriesOk, Canonical;
      ghost var h, key := heap.nodes, HashOf(Val(heap.nodes, i));
      if h[i].interned { InternedIsInTable(h, table, i); }
      assert HashOk(h, i);
      InternStringThreadUnsafe(i);
      InternedKeeps(h, i, key);
      InsertKeepsTable(h, old(table), i, key);
      RootsKept(h, heap.nodes, heap.emptyString, heap.singleChars);
      assert table[|table| - 1].str == i;
      SameLength(h, heap.nodes, i);
    }

    /** Flattens a string and interns the result without looking its content up. The table stays canonical exactly when
        that result is interned already or its content is new. */
    method InsertStringToTable(i: Id) returns (r: Id)
      requires Valid() && i < |heap.nodes|
      modifies this`table, heap`nodes
      ensures heap.Valid() && WellFormed(heap.nodes) && r < |heap.nodes| && heap.nodes[r].interned
      ensures Val(heap.nodes, r) == Val(old(heap.nodes), i)
      ensures TableOk(heap.nodes, table) <==>
        FlatIsInterned(old(heap.nodes), i) || !HasContent(old(heap.nodes), old(table), Val(old(heap.nodes), i))
      ensures i < |heap.nodes| && FlatIsInterned(heap.nodes, i) && r == FlatOf(heap.nodes, i)
      ensures FlatIsInterned(old(heap.nodes), i) ==> heap.nodes == old(heap.nodes) && table == old(table)
    {
      hide Val, HashOf, NodeOk, KeepsStrings, WellFormed, HasContent, TableOk, IsOpenTree;
      ghost var h, s := heap.nodes, Val(heap.nodes, i);
      r := heap.Flatten(i);
      ghost var g := heap.nodes;
      TableKept(h, g, table);
      ContentKept(h, g, table, s);
      FlatInterned(h, g, i, r);
      HashesOk(g, table);
      assert HashOk(g, r);
      InternStringThreadUnsafe(r);
      FlatInternedAfter(g, i, r, HashOf(s));
      if !g[r].interned {
        InsertUnder(g, old(table), r, HashOf(s));
        HeaderChange(g, heap.nodes, r);
        RootsSame(g, heap.nodes, heap.emptyString, heap.singleChars);
      }
    }

    /** Inserting a string again returns the same object and changes nothing, whenever the first insertion kept the table
        canonical. */
    method InsertTwice(i: Id) returns (first: Id, second: Id, ghost between: seq<Entry>)
      requires Valid() && i < |heap.nodes|
      requires FlatIsInterned(heap.nodes, i) || !HasContent(heap.nodes, table, Val(heap.nodes, i))
      modifies this`table, heap`nodes
      ensures second == first && table == between && Valid()
      ensures InternedAs(heap.nodes, table, first, Val(old(heap.nodes), i))
    {
      hide Val, HashOf, NodeOk, KeepsStrings, WellFormed, HasContent, TableOk, FlatIsInterned;
      first := InsertStringToTable(i);
      between := table;
      InternedIsInTable(heap.nodes, table, first);
      second := InsertStringToTable(i);
    }

    /** Interning a heap string. */
    method GetOrInternString(i: Id) returns (r: Id)
      requires Valid() && i < |heap.nodes|
      modifies this`table, heap`nodes
      ensures Valid() && KeepsStrings(old(heap.nodes), heap.nodes)
      ensures InternedAs(heap.nodes, table, r, Val(old(heap.nodes), i))
      ensures table == old(table) || (table == old(table) + [Entry(HashOf(Val(old(heap.nodes), i)), r)]
        && !HasContent(old(heap.nodes), old(table), Val(old(heap.nodes), i)))
    {
      hide Val, HashOf, NodeOk, KeepsStrings, WellFormed, HasContent, TableOk;
      ghost var h := heap.nodes;
      PreservesRefl(h);
      if heap.nodes[i].interned {
        InternedIsInTable(h, table, i);
        return i;
      }
      var f := heap.Flatten(i);
      ghost var g := heap.nodes;
      TableKept(h, g, table);
      if heap.nodes[f].interned {
        InternedIsInTable(g, table, f);
        return f;
      }
      HashesOk(g, table);
      assert HashOk(g, f);
      var hash := GetHashcode(heap, f);
      ghost var k := heap.nodes;
      SameLength(g, k, f);
      PreservesTransitive(h, g, k);
      TableKept(g, k, table);
      HashesOk(k, table);
      var found := Find(heap.nodes, table, hash, ByString(f));
      if found.Some? {
        FoundIsInterned(k, table, found.value, Val(h, i));
        return found.value;
      }
      NotInBucketNotInTable(k, table, Val(h, i));
      ContentKept(h, k, table, Val(h, i));
      InternNew(f);
      KeepsTransitive(h, k, heap.nodes);
      return f;
    }

    /** Interning non-empty ASCII data. */
    method GetOrInternUtf8(data: seq<CodeUnit>) returns (r: Id)
      requires Valid() && 0 < |data| < MAX_STRING_LENGTH && Compressible(data)
      modifies this`table, heap`nodes
      ensures Valid() && KeepsStrings(old(heap.nodes), heap.nodes)
      ensures InternedAs(heap.nodes, table, r, data)
      ensures table == old(table) || (table == old(table) + [Entry(HashOf(data), r)] && !HasContent(old(heap.nodes), old(table), data))
    {
      hide Val, HashOf, NodeOk, KeepsStrings, WellFormed, HasContent, TableOk, Compressible;
      ghost var h := heap.nodes;
      PreservesRefl(h);
      HashesOk(h, table);
      var hash := ComputeHashcodeUtf8(data);
      var found := Find(heap.nodes, table, hash, ByUtf8(data));
      if found.Some? {
        FoundIsInterned(h, table, found.value, data);
        return found.value;
      }
      NotInBucketNotInTable(h, table, data);
      r := heap.NewLineString(data, true);
      ghost var g := heap.nodes;
      TableKept(h, g, table);
      ContentKept(h, g, table, data);
      InternFresh(r, hash);
      KeepsTransitive(h, g, heap.nodes);
      FoundIsInterned(heap.nodes, table, r, data);
    }

    /** A fresh string inserted under a hash code computed by the caller. */
    method InternFresh(i: Id, hash: Uint32)
      requires Valid() && i < |heap.nodes| && !heap.nodes[i].body.Tree? && !heap.nodes[i].interned
      modifies this`table, heap`nodes
      ensures var h := old(heap.nodes); var s := Val(h, i);
        && (TableOk(heap.nodes, table) <==>
              (hash == HashOf(s) || hash == 0) && !HasContent(h, old(table), s))
        && (hash == HashOf(s) ==> KeepsStrings(h, heap.nodes))
      ensures table == old(table) + [Entry(if hash == 0 then HashOf(Val(old(heap.nodes), i)) else hash, i)] && InTable(table, i)
      ensures i < |heap.nodes| && heap.nodes[i].interned && heap.nodes[i].body == old(heap.nodes)[i].body
      ensures WellFormed(heap.nodes) && heap.Valid() && Val(heap.nodes, i) == Val(old(heap.nodes), i)
    {
      hide Val, HashOf, NodeOk, KeepsStrings, WellFormed, HasContent, TableOk;
      ghost var h := heap.nodes;
      heap.nodes := WithHash(heap.nodes, i, hash);
      HeaderChange(h, heap.nodes, i);
      RootsSame(h, heap.nodes, heap.emptyString, heap.singleChars);
      InternStringThreadUnsafe(i);
      ghost var key := if hash == 0 then HashOf(Val(h, i)) else hash;
      assert heap.nodes == Interned(h, i, key);
      HeaderChange(h, heap.nodes, i);
      RootsSame(h, heap.nodes, heap.emptyString, heap.singleChars);
      InsertUnder(h, old(table), i, key);
      if hash == HashOf(Val(h, i)) { InternedKeeps(h, i, key); }
      assert table[|table| - 1].str == i;
    }

    /** Interning non-empty raw UTF-16 data: the table stays canonical exactly when the data is no false numeral. */
    method GetOrInternUtf16(data: seq<CodeUnit>) returns (r: Id)
      requires Valid() && 0 < |data| < MAX_STRING_LENGTH
      modifies this`table, heap`nodes
      ensures TableOk(heap.nodes, table) <==> !FalseNumeral(data)
      ensures heap.Valid() && WellFormed(heap.nodes) && r < |heap.nodes| && heap.nodes[r].interned && Val(heap.nodes, r) == data
      ensures !FalseNumeral(data) ==> KeepsStrings(old(heap.nodes), heap.nodes)
      ensures table == old(table) || table == old(table) + [Entry(Utf16Hash(data), r)]
    {
      hide Val, HashOf, NodeOk, KeepsStrings, WellFormed, HasContent, TableOk, Compressible, FalseNumeral, Utf16Hash, EntriesOk;
      ghost var h := heap.nodes;
      PreservesRefl(h);
      HashesOk(h, table);
      Utf16HashAgrees(data);
      var hash := ComputeHashcodeUtf16(data);
      var found := Find(heap.nodes, table, hash, ByUtf16(data));
      if found.Some? {
        FoundIsInterned(h, table, found.value, data);
        return found.value;
      }
      var utf8 := CanBeCompressed(data);
      r := heap.NewLineString(data, utf8);
      ghost var g := heap.nodes;
      TableKept(h, g, table);
      if hash == HashOf(data) {
        NotInBucketNotInTable(h, table, data);
        ContentKept(h, g, table, data);
      }
      Utf16HashNonZero(data);
      InternFresh(r, hash);
      if hash == HashOf(data) { KeepsTransitive(h, g, heap.nodes); }
    }

    /** Interning the concatenation of two strings. At 2^30 units the concatenation fails and its null result is
        followed. Otherwise the table stays canonical exactly when the two-part hash is the hash of the concatenation,
        or is zero, in which case the insertion recomputes it, while the concatenation is not in the table yet. */
    method GetOrInternParts(i: Id, j: Id) returns (o: PartsOutcome)
      requires Valid() && i < |heap.nodes| && j < |heap.nodes|
      modifies this`table, heap`nodes
      ensures o.NullDereference? <==> old(heap.nodes)[i].length + old(heap.nodes)[j].length >= MAX_STRING_LENGTH
      ensures heap.Valid() && WellFormed(heap.nodes)
      ensures o.Answer? ==>
        var a, b := Val(old(heap.nodes), i), Val(old(heap.nodes), j);
        && o.value < |heap.nodes| && heap.nodes[o.value].interned && Val(heap.nodes, o.value) == a + b
        && (TableOk(heap.nodes, table) <==>
              PartsAgree(a, b) || (TwoPartHash(a, b) == 0 && !HasContent(old(heap.nodes), old(table), a + b)))
        && (PartsAgree(a, b) ==> KeepsStrings(old(heap.nodes), heap.nodes))
        && (table == old(table) || (|table| == |old(table)| + 1 && old(table) <= table && table[|old(table)|].str == o.value))
    {
      hide Val, HashOf, NodeOk, KeepsStrings, WellFormed, HasContent, TableOk, Compressible, EntriesOk, PartsAgree,
        RawHash, SeededHash, IsOpenTree;
      ghost var h, a, b := heap.nodes, Val(heap.nodes, i), Val(heap.nodes, j);
      TwoPartHashAgrees(a, b);
      var first, second := FlattenBoth(heap, i, j);
      ghost var g := heap.nodes;
      TableKept(h, g, table);
      HashesOk(g, table);
      ContentKept(h, g, table, a + b);
      var raw, isInteger := ComputeRawHashcode(heap.nodes, first);
      var hash := ComputeSeededHashcode(heap.nodes, second, raw, isInteger);
      assert hash == TwoPartHash(a, b);
      var found := Find(heap.nodes, table, hash, ByParts(first, second));
      if found.Some? {
        FoundIsInterned(g, table, found.value, a + b);
        NodeLength(g, found.value);
        return Answer(found.value);
      }
      if hash == HashOf(a + b) { NotInBucketNotInTable(g, table, a + b); }
      var c := ConcatFlat(heap, first, second);
      ghost var m := heap.nodes;
      PreservesTransitive(h, g, m);
      TableKept(g, m, table);
      if c.RangeError? {
        // The exception is pending, and flattening reads the type of the null string.
        return NullDereference;
      }
      ContentKept(g, m, table, a + b);
      if heap.nodes[c.value].interned {
        InternedIsInTable(m, table, c.value);
        PartsWithEmptyAgree(a, b);
        assert false;
      }
      InternFresh(c.value, hash);
      if hash == HashOf(a + b) { KeepsTransitive(h, m, heap.nodes); }
      return Answer(c.value);
    }

    /** Equality through the table: two interned strings are compared by identity alone. */
    method StringsAreEqualInterned(a: Id, b: Id) returns (r: bool)
      requires Valid() && a < |heap.nodes| && b < |heap.nodes|
      modifies heap`nodes
      ensures Valid() && Preserves(old(heap.nodes), heap.nodes)
      ensures r <==> Val(old(heap.nodes), a) == Val(old(heap.nodes), b)
    {
      hide Val, HashOf, NodeOk, KeepsStrings, WellFormed, EntriesOk, Canonical, Compressible;
      ghost var h := heap.nodes;
      PreservesRefl(h);
      if a == b {
        return true;
      }
      if heap.nodes[a].interned && heap.nodes[b].interned {
        InternedEqualIsIdentical(h, table, a, b);
        return false;
      }
      if heap.nodes[a].length != heap.nodes[b].length {
        return false;
      }
      if heap.nodes[a].length == 0 {
        return true;
      }
      assert HashOk(h, a) && HashOk(h, b);
      if heap.nodes[a].hash != 0 && heap.nodes[b].hash != 0 && heap.nodes[a].hash != heap.nodes[b].hash {
        return false;
      }
      var s, t, sUtf8, tUtf8 := StringSearch.FlatPair(heap, a, b);
      TableKept(h, heap.nodes, table);
      r := EqualUnits(s, t);
    }
  }

  /** The hash of compressible UTF-8 data, as the lookup computes it. */
  method ComputeHashcodeUtf8(data: seq<CodeUnit>) returns (r: Uint32)
    requires data != [] && Compressible(data)
    ensures r == HashOf(data)
  {
    hide Compressible, IntegerHash, Poly;
    RawHashIsCanonical(data);
    if |data| < MAX_ELEMENT_INDEX_LEN {
      var m := HashIntegerString(data, 0);
      IntegerHashCanonical(data);
      if m.Some? {
        return m.value;
      }
    }
    var hash := ComputeHashForData(data, 0);
    r := MixHashcode(hash, false);
  }

  method ComputeHashcodeUtf16(data: seq<CodeUnit>) returns (r: Uint32)
    requires data != []
    ensures r == Utf16Hash(data)
  {
    hide IntegerHash, Poly;
    if |data| < MAX_ELEMENT_INDEX_LEN {
      var m := HashIntegerString(data, 0);
      if m.Some? {
        return m.value;
      }
    }
    var hash := ComputeHashForData(data, 0);
    r := MixHashcode(hash, false);
  }

  // ----- inserting under a hash that was computed elsewhere -----

  /** Inserting string i under key keeps the table's invariant exactly when the key is the hash of the content
      and the content is new. */
  lemma {:induction false} InsertUnder(h: Heap, t: seq<Entry>, i: Id, key: Uint32)
    requires TableOk(h, t) && i < |h| && !h[i].body.Tree? && !h[i].interned
    ensures TableOk(Interned(h, i, key), t + [Entry(key, i)]) <==>
      key == HashOf(Val(h, i)) && !HasContent(h, t, Val(h, i))
  {
    hide Val, HashOf, NodeOk, WellFormed;
    var g, t' := Interned(h, i, key), t + [Entry(key, i)];
    HeaderChange(h, g, i);
    if key == HashOf(Val(h, i)) && !HasContent(h, t, Val(h, i)) {
      InsertKeepsTable(h, t, i, key);
    }
    if TableOk(g, t') {
      assert EntryOk(g, t'[|t|]);
      forall e | 0 <= e < |t| && t[e].str < |h| ensures Val(h, t[e].str) != Val(h, i) {
        assert t'[e] == t[e];
        assert Val(g, t'[e].str) != Val(g, t'[|t|].str);
      }
    }
  }

  lemma PartsWithEmptyAgree(a: seq<CodeUnit>, b: seq<CodeUnit>)
    ensures a == [] || b == [] ==> PartsAgree(a, b)
  {
  }

  lemma {:induction false} Utf16HashNonZero(data: seq<CodeUnit>)
    requires data != []
    ensures FalseNumeral(data) ==> Utf16Hash(data) != 0
  {
    hide IntegerHash, Poly;
    if FalseNumeral(data) { FalseNumeralIsInteger(data); }
  }

  lemma {:induction false} RootsSame(h: Heap, g: Heap, empty: Id, singles: seq<Id>)
    requires Roots(h, empty, singles) && WellFormed(g) && |g| == |h|
    requires forall j :: 0 <= j < |h| ==> Val(g, j) == Val(h, j) && g[j].length == h[j].length
    ensures Roots(g, empty, singles)
  {
    hide Val, NodeOk, WellFormed;
  }

  lemma HashesOk(h: Heap, t: seq<Entry>)
    requires TableOk(h, t)
    ensures WellFormed(h) && AllHashesOk(h) && EntriesOk(h, t)
  {
  }

  lemma {:induction false} ContentKept(h: Heap, g: Heap, t: seq<Entry>, s: seq<CodeUnit>)
    requires TableOk(h, t) && KeepsStrings(h, g)
    ensures HasContent(h, t, s) <==> HasContent(g, t, s)
  {
    hide Val, HashOf, NodeOk, WellFormed;
    forall e | 0 <= e < |t| ensures t[e].str < |h| <= |g| && Val(h, t[e].str) == Val(g, t[e].str) {
      assert EntryOk(h, t[e]);
      SameLength(h, g, t[e].str);
    }
  }

  // ----- whole runs -----

  datatype Request = Str(i: Id) | Ascii(data: seq<CodeUnit>)

  ghost predicate RequestOk(h: Heap, q: Request) {
    match q
    case Str(i) => i < |h|
    case Ascii(d) => 0 < |d| < MAX_STRING_LENGTH && Compressible(d)
  }

  ghost function RequestContent(h: Heap, q: Request): (s: seq<CodeUnit>)
    requires WellFormed(h) && RequestOk(h, q)
  {
    match q
    case Str(i) => Val(h, i)
    case Ascii(d) => d
  }

  lemma {:induction false} InternedAsKept(h: Heap, g: Heap, t: seq<Entry>, u: seq<Entry>, r: Id, s: seq<CodeUnit>)
    requires InternedAs(h, t, r, s) && KeepsStrings(h, g) && TableOk(g, u)
    ensures InternedAs(g, u, r, s)
  {
    hide Val, HashOf, NodeOk, KeepsStrings, WellFormed, EntriesOk, Canonical, AllHashesOk;
    SameLength(h, g, r);
    assert InTable(u, r);
  }

  method Serve(table: EcmaStringTable, q: Request) returns (r: Id)
    requires table.Valid() && RequestOk(table.heap.nodes, q)
    modifies table`table, table.heap`nodes
    ensures table.Valid() && KeepsStrings(old(table.heap.nodes), table.heap.nodes)
    ensures InternedAs(table.heap.nodes, table.table, r, RequestContent(old(table.heap.nodes), q))
  {
    hide Val, HashOf, NodeOk, KeepsStrings, WellFormed, TableOk, Compressible;
    match q {
      case Str(i) => r := table.GetOrInternString(i);
      case Ascii(d) => r := table.GetOrInternUtf8(d);
    }
  }

  /** Over any run of interning requests, two answers are the same object exactly when the contents are equal. */
  method InternAll(table: EcmaStringTable, qs: seq<Request>) returns (ids: seq<Id>)
    requires table.Valid() && forall k :: 0 <= k < |qs| ==> RequestOk(table.heap.nodes, qs[k])
    modifies table`table, table.heap`nodes
    ensures table.Valid() && KeepsStrings(old(table.heap.nodes), table.heap.nodes) && |ids| == |qs|
    ensures forall p, q :: 0 <= p < |qs| && 0 <= q < |qs| ==>
      (ids[p] == ids[q] <==>
        RequestContent(old(table.heap.nodes), qs[p]) == RequestContent(old(table.heap.nodes), qs[q]))
  {
    hide Val, HashOf, NodeOk, KeepsStrings, WellFormed, TableOk, Compressible, InternedAs;
    ghost var h := table.heap.nodes;
    PreservesRefl(h);
    ids := [];
    for k := 0 to |qs|
      invariant table.Valid() && KeepsStrings(h, table.heap.nodes) && |ids| == k
      invariant forall p :: 0 <= p < k ==> InternedAs(table.heap.nodes, table.table, ids[p], RequestContent(h, qs[p]))
    {
      ghost var g, t := table.heap.nodes, table.table;
      RequestKept(h, g, qs[k]);
      var r := Serve(table, qs[k]);
      KeepsTransitive(h, g, table.heap.nodes);
      forall p | 0 <= p < k ensures InternedAs(table.heap.nodes, table.table, ids[p], RequestContent(h, qs[p])) {
        InternedAsKept(g, table.heap.nodes, t, table.table, ids[p], RequestContent(h, qs[p]));
      }
      ids := ids + [r];
    }
    forall p, q | 0 <= p < |qs| && 0 <= q < |qs|
      ensures ids[p] == ids[q] <==> RequestContent(h, qs[p]) == RequestContent(h, qs[q])
    {
      AnswersAgree(table.heap.nodes, table.table, ids[p], RequestContent(h, qs[p]), ids[q], RequestContent(h, qs[q]));
    }
  }

  lemma {:induction false} RequestKept(h: Heap, g: Heap, q: Request)
    requires KeepsStrings(h, g) && RequestOk(h, q)
    ensures RequestOk(g, q) && RequestContent(g, q) == RequestContent(h, q)
  {
    if q.Str? { SameLength(h, g, q.i); }
  }

  lemma {:induction false} AnswersAgree(h: Heap, t: seq<Entry>, i: Id, s: seq<CodeUnit>, j: Id, u: seq<CodeUnit>)
    requires TableOk(h, t) && InternedAs(h, t, i, s) && InternedAs(h, t, j, u)
    ensures i == j <==> s == u
  {
    InternedEqualIsIdentical(h, t, i, j);
  }
}
