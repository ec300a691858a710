/** The string operations that build, share, index and flatten ropes. */
module StringHeap {
  import opened CodeUnits
  import opened Ropes
  import opened Common

  datatype Outcome<+T> = Ok(value: T) | RangeError

  // A flat view of a string: length units of a line or constant string, from start on.
  datatype FlatInfo = FlatInfo(str: Id, start: nat, length: nat)

  ghost predicate FlatViewOf(h: Heap, v: FlatInfo, i: Id)
    requires WellFormed(h) && i < |h|
  {
    && v.str < |h| && h[v.str].body.IsLineOrConstant() && v.length == h[i].length
    && v.start + v.length <= |h[v.str].body.data|
    && h[v.str].body.data[v.start..v.start + v.length] == Val(h, i)
    && h[v.str].utf8 == h[i].utf8
  }

  lemma ViewRange(h: Heap, v: FlatInfo, i: Id)
    requires WellFormed(h) && i < |h| && FlatViewOf(h, v, i)
    ensures v.str < |h| && h[v.str].body.IsLineOrConstant()
    ensures v.length == h[i].length && v.start + v.length <= |h[v.str].body.data|
    ensures h[v.str].utf8 == h[i].utf8
  {
  }

  // ----- indexing -----

  /** The layouts that hold or borrow their units directly answer an index at once. */
  method DirectAt(h: Heap, i: Id, index: nat) returns (u: CodeUnit)
    requires WellFormed(h) && i < |h| && !h[i].body.Tree? && index < h[i].length
    ensures u == Val(h, i)[index]
  {
    assert NodeOk(h, h[i]);
    match h[i].body {
      case Line(d) => u := d[index];
      case Constant(d) => u := d[index];
      case Sliced(parent, start) =>
        assert NodeOk(h, h[parent]);
        u := h[parent].body.data[start + index];
    }
  }

  /** Reads one unit of any string, descending a rope without flattening it. An index outside the
      string answers 0 when the caller asks for verification. */
  method At(h: Heap, i: Id, index: int, verify: bool) returns (u: CodeUnit)
    requires WellFormed(h) && i < |h| && (verify || 0 <= index < h[i].length)
    ensures 0 <= index < h[i].length ==> u == Val(h, i)[index]
    ensures !(0 <= index < h[i].length) ==> u == 0
  {
    if verify && (index < 0 || index >= h[i].length) {
      return 0;
    }
    var s: Id, k := i, index;
    assert NodeOk(h, h[i]);
    if h[i].body.Tree? && IsFlatTree(h, h[i]) {
      s := h[i].body.first;
      assert Val(h, h[i].body.second) == [];
    }
    while h[s].body.Tree?
      invariant s < |h| && 0 <= k < h[s].length && Val(h, s)[k] == Val(h, i)[index]
      decreases h[s].length, if h[s].body.Tree? then 1 else 0
    {
      assert NodeOk(h, h[s]);
      var first := h[s].body.first;
      if h[first].length > k {
        s := first;
      } else {
        s, k := h[s].body.second, k - h[first].length;
      }
    }
    u := DirectAt(h, s, k);
  }

  // ----- nesting of WriteToFlat -----

  /** 1 + floor(log2(n)) for n > 0: the nesting that flattening n units may need. */
  ghost function NestingBound(n: nat): (k: nat)
    ensures n > 0 ==> k > 0 && Pow2(k - 1) <= n < Pow2(k)
    ensures n == 0 ==> k == 0
  {
    if n == 0 then 0 else 1 + NestingBound(n / 2)
  }

  lemma {:induction false} NestingMonotone(m: nat, n: nat)
    requires m <= n
    ensures NestingBound(m) <= NestingBound(n)
  {
    if m > 0 { NestingMonotone(m / 2, n / 2); }
  }

  /** The shorter of two parts leaves room for one more activation. */
  lemma {:induction false} NestingHalf(m: nat, n: nat)
    requires 0 < n && 2 * m <= n
    ensures NestingBound(m) + 1 <= NestingBound(n)
  {
    NestingMonotone(m, n / 2);
  }

  // ----- copying units into a buffer -----

  /** Storing a unit into a one-byte buffer keeps its low byte only. */
  function Stored(u: CodeUnit, narrow: bool): (r: CodeUnit) {
    if narrow then u % 0x100 else u
  }

  /** b is a with v written from position at on. */
  ghost predicate Patched(a: seq<CodeUnit>, b: seq<CodeUnit>, at: nat, v: seq<CodeUnit>) {
    && |b| == |a| && at + |v| <= |a|
    && forall i :: 0 <= i < |a| ==> b[i] == if at <= i < at + |v| then v[i - at] else a[i]
  }

  method CopyChars(buf: array<CodeUnit>, at: nat, src: seq<CodeUnit>, from: nat, count: nat, narrow: bool)
    requires at + count <= buf.Length && from + count <= |src|
    requires narrow ==> Compressible(src)
    modifies buf
    ensures Patched(old(buf[..]), buf[..], at, src[from..from + count])
  {
    for i := 0 to count
      invariant forall j :: 0 <= j < buf.Length ==>
        buf[j] == if at <= j < at + i then src[from + j - at] else old(buf[j])
    {
      buf[at + i] := Stored(src[from + i], narrow);
    }
  }

  /** The self-doubled rope: the second half is copied from the half already in the buffer. */
  method CopyWithin(buf: array<CodeUnit>, at: nat, count: nat)
    requires at + 2 * count <= buf.Length
    modifies buf
    ensures Patched(old(buf[..]), buf[..], at + count, old(buf[at..at + count]))
  {
    for i := 0 to count
      invariant forall j :: 0 <= j < buf.Length ==>
        buf[j] == if at + count <= j < at + count + i then old(buf[j - count]) else old(buf[j])
    {
      buf[at + count + i] := buf[at + i];
    }
  }

  /** b is a with whole written from position at on, except that cells [p, p + n) are still to be written. */
  ghost predicate Pending(a: seq<CodeUnit>, b: seq<CodeUnit>, at: nat, whole: seq<CodeUnit>, p: nat, n: nat) {
    && |b| == |a| && at + |whole| <= |a| && at <= p && p + n <= at + |whole|
    && forall i :: 0 <= i < |a| && !(p <= i < p + n) ==>
         b[i] == if at <= i < at + |whole| then whole[i - at] else a[i]
  }

  lemma PendingDone(a: seq<CodeUnit>, b: seq<CodeUnit>, c: seq<CodeUnit>, at: nat, whole: seq<CodeUnit>, p: nat, n: nat)
    requires Pending(a, b, at, whole, p, n) && Patched(b, c, p, whole[p - at..p - at + n])
    ensures Patched(a, c, at, whole)
  {
  }

  lemma {:induction false} PendingFront(a: seq<CodeUnit>, b: seq<CodeUnit>, c: seq<CodeUnit>, at: nat, whole: seq<CodeUnit>, p: nat,
                     u: seq<CodeUnit>, v: seq<CodeUnit>)
    requires Pending(a, b, at, whole, p, |u| + |v|) && whole[p - at..p - at + |u| + |v|] == u + v
    requires Patched(b, c, p, u)
    ensures Pending(a, c, at, whole, p + |u|, |v|)
    ensures whole[p - at + |u|..p - at + |u| + |v|] == v
  {
    var w := whole[p - at..p - at + |u| + |v|];
    assert forall j :: 0 <= j < |u| ==> w[j] == u[j];
    assert w[|u|..] == v;
  }

  lemma {:induction false} PendingBack(a: seq<CodeUnit>, b: seq<CodeUnit>, c: seq<CodeUnit>, at: nat, whole: seq<CodeUnit>, p: nat,
                    u: seq<CodeUnit>, v: seq<CodeUnit>)
    requires Pending(a, b, at, whole, p, |u| + |v|) && whole[p - at..p - at + |u| + |v|] == u + v
    requires Patched(b, c, p + |u|, v)
    ensures Pending(a, c, at, whole, p, |u|)
    ensures whole[p - at..p - at + |u|] == u
  {
    var w := whole[p - at..p - at + |u| + |v|];
    assert forall j :: 0 <= j < |v| ==> w[|u| + j] == v[j];
    assert w[..|u|] == u;
  }

  lemma {:induction false} PatchDoubled(a: seq<CodeUnit>, b: seq<CodeUnit>, c: seq<CodeUnit>, at: nat, u: seq<CodeUnit>)
    requires Patched(a, b, at, u) && at + |u| <= |b| && Patched(b, c, at + |u|, b[at..at + |u|])
    ensures Patched(a, c, at, u + u)
  {
    assert b[at..at + |u|] == u;
  }

  lemma PatchNothing(a: seq<CodeUnit>, at: nat, v: seq<CodeUnit>)
    requires at <= |a| && v == []
    ensures Patched(a, a, at, v)
  {
  }

  lemma {:induction false} TreeShape(h: Heap, i: Id)
    requires WellFormed(h) && i < |h| && h[i].body.Tree?
    ensures NodeOk(h, h[i])
    ensures h[i].body.first < |h| && h[i].body.second < |h|
    ensures h[i].length == h[h[i].body.first].length + h[h[i].body.second].length && h[i].length >= MIN_TREE_LENGTH
    ensures h[h[i].body.second].length == 0 ==> h[h[i].body.first].body.Line?
    ensures h[h[i].body.second].length > 0 ==> h[h[i].body.first].length > 0
    ensures h[i].utf8 ==> h[h[i].body.first].utf8 && h[h[i].body.second].utf8
  {
    assert NodeOk(h, h[i]);
    assert NodeOk(h, h[h[i].body.second]);
  }

  /** The layouts that hold or borrow their units directly are copied in one go. */
  method WriteDirect(h: Heap, s: Id, buf: array<CodeUnit>, at: nat, narrow: bool)
    requires WellFormed(h) && s < |h| && !h[s].body.Tree? && at + h[s].length <= buf.Length
    requires narrow ==> h[s].utf8
    modifies buf
    ensures Patched(old(buf[..]), buf[..], at, Val(h, s))
  {
    assert NodeOk(h, h[s]);
    match h[s].body {
      case Line(d) =>
        CopyChars(buf, at, d, 0, h[s].length, narrow);
        assert d[0..h[s].length] == d;
      case Constant(d) =>
        CopyChars(buf, at, d, 0, h[s].length, narrow);
        assert d[0..h[s].length] == d;
      case Sliced(parent, start) =>
        assert NodeOk(h, h[parent]);
        CopyChars(buf, at, h[parent].body.data, start, h[s].length, narrow);
    }
  }

  /** The shorter first child of tree s; a rope doubled onto itself is finished by copying that half. levels counts
      the activations this nests. */
  method WriteFirst(h: Heap, s: Id, buf: array<CodeUnit>, at: nat, maxLength: nat, narrow: bool)
    returns (doubled: bool, ghost levels: nat)
    requires WellFormed(h) && s < |h| && h[s].body.Tree? && NodeOk(h, h[s])
    requires h[h[s].body.first].length <= h[h[s].body.second].length
    requires h[s].length <= maxLength && at + maxLength <= buf.Length
    requires narrow ==> h[s].utf8
    modifies buf
    ensures doubled <==> h[s].body.first == h[s].body.second
    ensures Patched(old(buf[..]), buf[..], at, if doubled then Val(h, s) else Val(h, h[s].body.first))
    ensures levels + 1 <= NestingBound(h[s].length)
    decreases h[s].length, 0
  {
    var first := h[s].body.first;
    assert 0 < h[first].length;
    NestingHalf(h[first].length, h[s].length);
    levels := WriteToFlat(h, first, buf, at, maxLength, narrow);
    doubled := first == h[s].body.second;
    if doubled {
      ghost var half := buf[..];
      CopyWithin(buf, at, h[first].length);
      PatchDoubled(old(buf[..]), half, buf[..], at, Val(h, first));
    }
  }

  /** The shorter second child of a tree: nothing, one unit, a narrow block, or a nested flattening. levels counts the
      activations this nests. */
  method WriteSecond(h: Heap, second: Id, buf: array<CodeUnit>, at: nat, maxLength: nat, narrow: bool)
    returns (ghost levels: nat)
    requires WellFormed(h) && second < |h|
    requires h[second].length <= maxLength && at + maxLength <= buf.Length
    requires narrow ==> h[second].utf8
    modifies buf
    ensures Patched(old(buf[..]), buf[..], at, Val(h, second))
    ensures levels <= NestingBound(h[second].length)
    decreases h[second].length, 2
  {
    levels := 0;
    var length := h[second].length;
    if length == 0 {
      PatchNothing(buf[..], at, Val(h, second));
    } else if length == 1 {
      var c := At(h, second, 0, false);
      NarrowIffCompressible(h, second);
      buf[at] := Stored(c, narrow);
    } else if h[second].body.IsLineOrConstant() && h[second].utf8 {
      ShortOrDirect(h, second);
      CopyChars(buf, at, h[second].body.data, 0, length, narrow);
      assert h[second].body.data[0..length] == Val(h, second);
    } else {
      levels := WriteToFlat(h, second, buf, at, maxLength, narrow);
    }
  }

  lemma {:induction false} ShortOrDirect(h: Heap, i: Id)
    requires WellFormed(h) && i < |h| && h[i].body.IsLineOrConstant()
    ensures Val(h, i) == h[i].body.data && |h[i].body.data| == h[i].length
    ensures h[i].utf8 <==> Compressible(h[i].body.data)
  {
    assert NodeOk(h, h[i]);
  }

  /** What the flattening loop knows: cells [p, p + |Val(h, s)|) are pending, with the content of s. */
  ghost predicate Flattening(h: Heap, a: seq<CodeUnit>, b: seq<CodeUnit>, at: nat, whole: seq<CodeUnit>, p: nat, s: Id)
    requires WellFormed(h) && s < |h|
  {
    && Pending(a, b, at, whole, p, h[s].length)
    && whole[p - at..p - at + h[s].length] == Val(h, s)
  }

  lemma {:induction false} FlatteningDone(h: Heap, a: seq<CodeUnit>, b: seq<CodeUnit>, c: seq<CodeUnit>, at: nat, whole: seq<CodeUnit>, p: nat, s: Id)
    requires WellFormed(h) && s < |h| && Flattening(h, a, b, at, whole, p, s) && Patched(b, c, p, Val(h, s))
    ensures Patched(a, c, at, whole)
  {
    PendingDone(a, b, c, at, whole, p, h[s].length);
  }

  lemma {:induction false} FlatteningFront(h: Heap, a: seq<CodeUnit>, b: seq<CodeUnit>, c: seq<CodeUnit>, at: nat, whole: seq<CodeUnit>, p: nat, s: Id)
    requires WellFormed(h) && s < |h| && h[s].body.Tree? && NodeOk(h, h[s])
    requires Flattening(h, a, b, at, whole, p, s) && Patched(b, c, p, Val(h, h[s].body.first))
    ensures Flattening(h, a, c, at, whole, p + h[h[s].body.first].length, h[s].body.second)
  {
    hide Pending, Patched, Compressible;
    PendingFront(a, b, c, at, whole, p, Val(h, h[s].body.first), Val(h, h[s].body.second));
  }

  lemma {:induction false} FlatteningBack(h: Heap, a: seq<CodeUnit>, b: seq<CodeUnit>, c: seq<CodeUnit>, at: nat, whole: seq<CodeUnit>, p: nat, s: Id)
    requires WellFormed(h) && s < |h| && h[s].body.Tree? && NodeOk(h, h[s])
    requires Flattening(h, a, b, at, whole, p, s)
    requires Patched(b, c, p + h[h[s].body.first].length, Val(h, h[s].body.second))
    ensures Flattening(h, a, c, at, whole, p, h[s].body.first)
  {
    hide Pending, Patched, Compressible;
    PendingBack(a, b, c, at, whole, p, Val(h, h[s].body.first), Val(h, h[s].body.second));
  }

  lemma FlatteningStart(h: Heap, a: seq<CodeUnit>, at: nat, s: Id)
    requires WellFormed(h) && s < |h| && at + h[s].length <= |a|
    ensures Flattening(h, a, a, at, Val(h, s), at, s)
  {
  }

  /** Writes the content of a rope into its buffer cells and no others. levels counts the activations that are open at
      the deepest point, this one included: the nested ones take the shorter child only, so there are at most
      1 + floor(log2(length)) of them. */
  method WriteToFlat(h: Heap, src: Id, buf: array<CodeUnit>, at: nat, maxLength: nat, narrow: bool)
    returns (ghost levels: nat)
    requires WellFormed(h) && src < |h|
    requires h[src].length <= maxLength && at + maxLength <= buf.Length
    requires narrow ==> h[src].utf8
    modifies buf
    ensures Patched(old(buf[..]), buf[..], at, Val(h, src))
    ensures levels >= 1 && (h[src].length > 0 ==> levels <= NestingBound(h[src].length))
    decreases h[src].length, 1
  {
    hide *;
    levels := 1;
    var length := h[src].length;
    if length == 0 {
      PatchNothing(buf[..], at, Val(h, src));
      return;
    }
    var s: Id, p: nat, max: nat := src, at, maxLength;
    ghost var whole, a := Val(h, src), buf[..];
    FlatteningStart(h, a, at, src);
    NestingHalf(0, length);
    while h[s].body.Tree?
      invariant s < |h| && length == h[s].length && 0 < length <= max && p + max <= at + maxLength
      invariant narrow ==> h[s].utf8
      invariant length <= h[src].length && 1 <= levels <= NestingBound(h[src].length)
      invariant Flattening(h, a, buf[..], at, whole, p, s)
      decreases length, if h[s].body.Tree? then 1 else 0
    {
      ghost var b, nested := buf[..], 0;
      TreeShape(h, s);
      NestingMonotone(length, h[src].length);
      var first, second := h[s].body.first, h[s].body.second;
      var firstLength, secondLength := h[first].length, h[second].length;
      if secondLength >= firstLength {
        // Nest for the first child, go on with the second.
        var doubled;
        doubled, nested := WriteFirst(h, s, buf, p, max, narrow);
        levels := if levels < nested + 1 then nested + 1 else levels;
        if doubled {
          FlatteningDone(h, a, b, buf[..], at, whole, p, s);
          return;
        }
        FlatteningFront(h, a, b, buf[..], at, whole, p, s);
        p, max, s, length := p + firstLength, max - firstLength, second, length - firstLength;
      } else {
        // Nest for the second child, if it needs that, and go on with the first.
        NestingHalf(secondLength, length);
        nested := WriteSecond(h, second, buf, p + firstLength, max - firstLength, narrow);
        levels := if levels < nested + 1 then nested + 1 else levels;
        FlatteningBack(h, a, b, buf[..], at, whole, p, s);
        max, s, length := firstLength, first, length - secondLength;
      }
    }
    ghost var b := buf[..];
    WriteDirect(h, s, buf, p, narrow);
    FlatteningDone(h, a, b, buf[..], at, whole, p, s);
  }

  // ----- the heap of strings -----

  /** The permanent strings: the empty string and one string per ASCII character. */
  ghost predicate Roots(h: Heap, empty: Id, singles: seq<Id>) {
    && WellFormed(h) && empty < |h| && h[empty].length == 0 && |singles| == 128
    && forall c :: 1 <= c < 128 ==> singles[c] < |h| && Val(h, singles[c]) == [c]
  }

  lemma {:induction false} RootsKept(h: Heap, g: Heap, empty: Id, singles: seq<Id>)
    requires Roots(h, empty, singles) && KeepsStrings(h, g)
    ensures Roots(g, empty, singles)
  {
    assert SameString(h, g, empty);
    forall c | 1 <= c < 128 ensures singles[c] < |g| && Val(g, singles[c]) == [c] {
      assert SameString(h, g, singles[c]);
    }
  }

  /** A tree that has not been flattened yet. */
  predicate IsOpenTree(h: Heap, i: Id)
    requires i < |h|
  {
    h[i].body.Tree? && h[i].body.second < |h| && !IsFlatTree(h, h[i])
  }

  lemma {:induction false} FlatTreeFirst(h: Heap, i: Id)
    requires WellFormed(h) && i < |h| && h[i].body.Tree? && NodeOk(h, h[i]) && IsFlatTree(h, h[i])
    ensures h[h[i].body.first].body == Line(Val(h, i)) && h[h[i].body.first].utf8 == h[i].utf8
    ensures h[h[i].body.first].length == h[i].length
  {
    assert Val(h, h[i].body.second) == [];
    assert NodeOk(h, h[h[i].body.first]);
  }

  /** Appending a flat copy of string i and redirecting i to it when it is a tree. */
  function Flattened(h: Heap, i: Id, d: seq<CodeUnit>, empty: Id): (g: Heap)
    requires i < |h|
  {
    var g := h + [NewLine(d, h[i].utf8)];
    if h[i].body.Tree? then Redirect(g, i, |h|, empty) else g
  }

  lemma {:induction false} FlattenedKeeps(h: Heap, i: Id, d: seq<CodeUnit>, empty: Id)
    requires WellFormed(h) && i < |h| && empty < |h| && h[empty].length == 0 && d == Val(h, i)
    ensures Preserves(h, Flattened(h, i, d, empty))
    ensures Flattened(h, i, d, empty)[|h|] == NewLine(d, h[i].utf8)
  {
    hide Compressible, Val;
    NarrowIffCompressible(h, i);
    assert NodeOk(h, h[i]);
    AllocLine(h, d, h[i].utf8);
    var g := h + [NewLine(d, h[i].utf8)];
    assert SameString(h, g, i) && SameString(h, g, empty);
    if h[i].body.Tree? {
      RedirectKeeps(g, i, |h|, empty);
      PreservesTransitive(h, g, Redirect(g, i, |h|, empty));
    }
  }

  lemma {:induction false} NodeLength(h: Heap, i: Id)
    requires WellFormed(h) && i < |h|
    ensures h[i].length < MAX_STRING_LENGTH
  {
    assert NodeOk(h, h[i]);
  }

  /** The heap at start-up: the empty string at 0, the string of character c at c. */
  function InitialNode(c: nat): (n: Node) {
    if 1 <= c < 128 then NewLine([c], true) else NewLine([], true)
  }

  lemma {:induction false} InitialRoots(h: Heap, singles: seq<Id>)
    requires |h| == 128 && |singles| == 128
    requires forall c :: 0 <= c < 128 ==> h[c] == InitialNode(c)
    requires forall c :: 0 <= c < 128 ==> singles[c] == c
    ensures Roots(h, 0, singles)
  {
    forall i | 0 <= i < |h| ensures NodeOk(h, h[i]) {
      assert h[i] == InitialNode(i);
    }
    forall c | 1 <= c < 128 ensures singles[c] < |h| && Val(h, singles[c]) == [c] {
      assert h[c] == InitialNode(c);
    }
  }

  /** A slice of the flat view v of string i is a well-formed node and denotes that part of i. */
  lemma {:induction false} SliceOk(h: Heap, i: Id, v: FlatInfo, start: nat, length: nat)
    requires WellFormed(h) && i < |h| && FlatViewOf(h, v, i) && start + length <= h[i].length
    requires length >= MIN_SLICED_LENGTH
    requires h[i].utf8 || !Compressible(Val(h, i)[start..start + length])
    ensures var n := SliceNode(h, v, start, length);
      && Preserves(h, h + [n])
      && Val(h + [n], |h|) == Val(h, i)[start..start + length]
  {
    hide Compressible, KeepsStrings, FlatViewOf;
    ViewRange(h, v, i);
    var n := SliceNode(h, v, start, length);
    SliceNodeOk(h, i, v, start, length);
    AllocKeeps(h, n);
    assert (h + [n])[|h|] == n;
  }

  lemma {:induction false} SliceNodeOk(h: Heap, i: Id, v: FlatInfo, start: nat, length: nat)
    requires WellFormed(h) && i < |h| && FlatViewOf(h, v, i) && start + length <= h[i].length
    requires length >= MIN_SLICED_LENGTH
    requires h[i].utf8 || !Compressible(Val(h, i)[start..start + length])
    ensures v.str < |h| && h[v.str].body.IsLineOrConstant() && v.start + start + length <= |h[v.str].body.data|
    ensures h[v.str].body.data[v.start + start..v.start + start + length] == Val(h, i)[start..start + length]
    ensures var n := SliceNode(h, v, start, length); NodeOk(h + [n], n)
  {
    hide Compressible, Val, FlatViewOf, WellFormed;
    ViewRange(h, v, i);
    ViewSlice(h, i, v, start, start + length);
    NodeLength(h, i);
    var n := SliceNode(h, v, start, length);
    assert (h + [n])[v.str] == h[v.str];
  }

  lemma {:induction false} ViewSlice(h: Heap, i: Id, v: FlatInfo, a: nat, b: nat)
    requires WellFormed(h) && i < |h| && FlatViewOf(h, v, i) && a <= b <= h[i].length
    ensures h[v.str].body.data[v.start + a..v.start + b] == Val(h, i)[a..b]
  {
    hide Val, WellFormed;
    SubSlice(h[v.str].body.data, v.start, v.start + v.length, a, b);
  }

  function SliceNode(h: Heap, v: FlatInfo, start: nat, length: nat): (n: Node)
    requires v.str < |h|
  {
    Node(length, h[v.str].utf8, false, 0, Sliced(v.str, v.start + start))
  }

  /** The string that flattening settles on: a flattened tree stands for its first child, any other string for itself. */
  function FlatOf(h: Heap, i: Id): (r: Id)
    requires i < |h|
  {
    if h[i].body.Tree? then h[i].body.first else i
  }

  /** The window that a flattened string is read through. */
  function FlatWindow(h: Heap, i: Id): (v: FlatInfo)
    requires i < |h|
  {
    match h[i].body
    case Tree(f, _) => FlatInfo(f, 0, h[i].length)
    case Sliced(p, start) => FlatInfo(p, start, h[i].length)
    case _ => FlatInfo(i, 0, h[i].length)
  }

  /** String i is the only one whose node changed: a tree now has the fresh string r as its first child and the empty
      string as its second. */
  ghost predicate OnlyRedirected(h: Heap, g: Heap, i: Id, r: Id) {
    && i < |h| == r && |g| == |h| + 1
    && (forall j :: 0 <= j < |h| && j != i ==> g[j] == h[j])
    && (!h[i].body.Tree? ==> g[i] == h[i])
    && (h[i].body.Tree? ==>
          && g[i].body.Tree? && g[i].body.first == r && g[i].body.second < |h| && h[g[i].body.second].length == 0
          && g[i] == h[i].(body := g[i].body))
  }

  lemma RedirectedIsFlat(h: Heap, g: Heap, i: Id, r: Id)
    requires OnlyRedirected(h, g, i, r) && h[i].body.Tree? && h[i].length > 0
    ensures !IsOpenTree(g, i) && FlatOf(g, i) == r
  {
    assert g[i].body.second != i;
  }

  lemma WindowKept(h: Heap, n: Node, i: Id)
    requires WellFormed(h) && i < |h|
    ensures FlatWindow(h + [n], i) == FlatWindow(h, i) && (IsOpenTree(h + [n], i) <==> IsOpenTree(h, i))
  {
    assert NodeOk(h, h[i]);
  }

  class EcmaStringHeap {
    var nodes: Heap
    var emptyString: Id
    var singleChars: seq<Id>

    ghost predicate Valid()
      reads this
    {
      Roots(nodes, emptyString, singleChars)
    }

    constructor ()
      ensures Valid()
      ensures forall i :: 0 <= i < |nodes| ==> !nodes[i].interned && nodes[i].hash == 0
    {
      nodes := seq(128, (c: nat) => InitialNode(c));
      emptyString := 0;
      singleChars := seq(128, c => c);
      new;
      InitialRoots(nodes, singleChars);
    }

    /** Copies a tree or slice into a line string and, for a tree, redirects it to the copy in place. */
    method SlowFlatten(i: Id) returns (r: Id)
      requires Valid() && i < |nodes| && (nodes[i].body.Tree? || nodes[i].body.Sliced?)
      modifies this`nodes
      ensures Valid() && Preserves(old(nodes), nodes)
      ensures r == |old(nodes)| < |nodes| && nodes[r] == NewLine(Val(old(nodes), i), old(nodes)[i].utf8)
      ensures OnlyRedirected(old(nodes), nodes, i, r)
    {
      hide Val, Compressible, KeepsStrings;
      var h, length := nodes, nodes[i].length;
      var buf := new CodeUnit[length];
      ghost var levels := WriteToFlat(h, i, buf, 0, length, h[i].utf8);
      var d := buf[..];
      assert d == Val(h, i);
      r := |nodes|;
      nodes := nodes + [NewLine(d, h[i].utf8)];
      if h[i].body.Tree? {
        nodes := Redirect(nodes, i, r, emptyString);
      }
      FlattenedKeeps(h, i, d, emptyString);
      RootsKept(h, nodes, emptyString, singleChars);
    }

    method Flatten(i: Id) returns (r: Id)
      requires Valid() && i < |nodes|
      modifies this`nodes
      ensures Valid() && Preserves(old(nodes), nodes)
      ensures r < |nodes| && !nodes[r].body.Tree? && Val(nodes, r) == Val(old(nodes), i)
      ensures nodes[r].length == old(nodes)[i].length && nodes[r].utf8 == old(nodes)[i].utf8
      ensures !old(nodes)[i].body.Tree? ==> r == i && nodes == old(nodes)
      ensures IsOpenTree(old(nodes), i) ==> r == |old(nodes)|
      ensures old(nodes)[i].body.Tree? && !IsOpenTree(old(nodes), i) ==> r == old(nodes)[i].body.first && nodes == old(nodes)
      ensures !IsOpenTree(nodes, i) && r == FlatOf(nodes, i)
      ensures IsOpenTree(old(nodes), i) ==> OnlyRedirected(old(nodes), nodes, i, r)
    {
      hide Compressible;
      assert NodeOk(nodes, nodes[i]);
      if !nodes[i].body.Tree? {
        r := i;
      } else if !IsFlatTree(nodes, nodes[i]) {
        r := SlowFlatten(i);
        RedirectedIsFlat(old(nodes), nodes, i, r);
      } else {
        FlatTreeFirst(nodes, i);
        r := nodes[i].body.first;
      }
    }

    /** A flat view of any string: its own data, the flat copy of a tree, or a window on the parent of a slice. */
    method FlattenAllString(i: Id) returns (v: FlatInfo)
      requires Valid() && i < |nodes|
      modifies this`nodes
      ensures Valid() && Preserves(old(nodes), nodes)
      ensures FlatViewOf(nodes, v, i)
      ensures !IsOpenTree(nodes, i) && v == FlatWindow(nodes, i)
      ensures !IsOpenTree(old(nodes), i) ==> nodes == old(nodes)
      ensures IsOpenTree(old(nodes), i) ==> OnlyRedirected(old(nodes), nodes, i, v.str)
    {
      hide Compressible;
      assert NodeOk(nodes, nodes[i]);
      if nodes[i].body.IsLineOrConstant() {
        v := FlatInfo(i, 0, nodes[i].length);
        assert nodes[i].body.data[0..nodes[i].length] == Val(nodes, i);
      } else if nodes[i].body.Tree? {
        var s;
        if !IsFlatTree(nodes, nodes[i]) {
          s := SlowFlatten(i);
          assert SameString(old(nodes), nodes, i);
          RedirectedIsFlat(old(nodes), nodes, i, s);
        } else {
          FlatTreeFirst(nodes, i);
          s := nodes[i].body.first;
        }
        v := FlatInfo(s, 0, nodes[i].length);
        assert nodes[s].body.data[0..nodes[i].length] == Val(nodes, i);
      } else {
        assert NodeOk(nodes, nodes[nodes[i].body.parent]);
        v := FlatInfo(nodes[i].body.parent, nodes[i].body.start, nodes[i].length);
      }
    }

    /** Flattening where no collection may happen: as Flatten, except that a slice is copied out too. */
    method FlattenNoGC(i: Id) returns (r: Id)
      requires Valid() && i < |nodes|
      modifies this`nodes
      ensures Valid() && Preserves(old(nodes), nodes)
      ensures r < |nodes| && nodes[r].body.IsLineOrConstant() && Val(nodes, r) == Val(old(nodes), i)
      ensures nodes[r].utf8 == old(nodes)[i].utf8
      ensures !IsOpenTree(nodes, i) && (!old(nodes)[i].body.Sliced? ==> r == FlatOf(nodes, i))
      ensures if old(nodes)[i].body.Sliced? || IsOpenTree(old(nodes), i) then OnlyRedirected(old(nodes), nodes, i, r)
        else nodes == old(nodes)
    {
      hide Compressible;
      assert NodeOk(nodes, nodes[i]);
      if nodes[i].body.IsLineOrConstant() {
        r := i;
      } else if nodes[i].body.Tree? && IsFlatTree(nodes, nodes[i]) {
        FlatTreeFirst(nodes, i);
        r := nodes[i].body.first;
      } else {
        r := SlowFlatten(i);
        if old(nodes)[i].body.Tree? { RedirectedIsFlat(old(nodes), nodes, i, r); }
      }
    }

    /** Allocates a line string whose encoding matches its content. */
    method NewLineString(d: seq<CodeUnit>, utf8: bool) returns (r: Id)
      requires Valid() && |d| < MAX_STRING_LENGTH && (utf8 <==> Compressible(d))
      modifies this`nodes
      ensures Valid() && Preserves(old(nodes), nodes)
      ensures r == |old(nodes)| && nodes == old(nodes) + [NewLine(d, utf8)] && Val(nodes, r) == d
    {
      hide Val, Compressible, KeepsStrings;
      AllocLine(nodes, d, utf8);
      r := |nodes|;
      nodes := nodes + [NewLine(d, utf8)];
      RootsKept(old(nodes), nodes, emptyString, singleChars);
    }

    /** Concatenation: an operand itself, a copied line below 13 units, a tree above; too long is a RangeError. */
    method Concat(left: Id, right: Id) returns (o: Outcome<Id>)
      requires Valid() && left < |nodes| && right < |nodes|
      modifies this`nodes
      ensures Valid() && Preserves(old(nodes), nodes)
      ensures o.Ok? <==> old(nodes)[left].length + old(nodes)[right].length < MAX_STRING_LENGTH
      ensures o.Ok? ==> o.value < |nodes| && Val(nodes, o.value) == Val(old(nodes), left) + Val(old(nodes), right)
      ensures o.RangeError? ==> nodes == old(nodes)
      ensures o.Ok? && old(nodes)[left].length > 0 && old(nodes)[right].length > 0 ==>
        && o.value == |old(nodes)| && nodes == old(nodes) + [nodes[o.value]]
        && (nodes[o.value].body.Tree? ==> IsOpenTree(nodes, o.value))
        && if nodes[o.value].length < MIN_TREE_LENGTH then nodes[o.value].body.Line? else nodes[o.value].body == Tree(left, right)
      ensures o.Ok? && old(nodes)[left].length == 0 && old(nodes)[right].length > 0 ==> o.value == right && nodes == old(nodes)
      ensures o.Ok? && old(nodes)[right].length == 0 && old(nodes)[left].length > 0 ==> o.value == left && nodes == old(nodes)
    {
      hide Compressible, Val;
      assert NodeOk(nodes, nodes[left]) && NodeOk(nodes, nodes[right]);
      var newLength := nodes[left].length + nodes[right].length;
      if newLength == 0 {
        assert NodeOk(nodes, nodes[emptyString]);
        return Ok(emptyString);
      }
      if nodes[left].length == 0 {
        assert Val(nodes, left) + Val(nodes, right) == Val(nodes, right);
        return Ok(right);
      }
      if nodes[right].length == 0 {
        assert Val(nodes, left) + Val(nodes, right) == Val(nodes, left);
        return Ok(left);
      }
      var compressed := nodes[left].utf8 && nodes[right].utf8;
      if newLength < MIN_TREE_LENGTH {
        ShortIsLineOrConstant(nodes, left);
        ShortIsLineOrConstant(nodes, right);
        NarrowIffCompressible(nodes, left);
        NarrowIffCompressible(nodes, right);
        CompressibleAppend(Val(nodes, left), Val(nodes, right));
        var r := NewLineString(nodes[left].body.data + nodes[right].body.data, compressed);
        return Ok(r);
      }
      if newLength >= MAX_STRING_LENGTH {
        return RangeError;
      }
      var r := NewTree(left, right, compressed);
      return Ok(r);
    }

    method NewTree(left: Id, right: Id, compressed: bool) returns (r: Id)
      requires Valid() && left < |nodes| && right < |nodes|
      requires nodes[left].length > 0 && nodes[right].length > 0
      requires MIN_TREE_LENGTH <= nodes[left].length + nodes[right].length < MAX_STRING_LENGTH
      requires compressed <==> nodes[left].utf8 && nodes[right].utf8
      modifies this`nodes
      ensures Valid() && Preserves(old(nodes), nodes)
      ensures r == |old(nodes)| < |nodes| && Val(nodes, r) == Val(old(nodes), left) + Val(old(nodes), right)
      ensures IsOpenTree(nodes, r) && nodes[r].body == Tree(left, right) && nodes == old(nodes) + [nodes[r]]
    {
      hide Compressible;
      var n := Node(nodes[left].length + nodes[right].length, compressed, false, 0, Tree(left, right));
      AllocKeeps(nodes, n);
      r := |nodes|;
      nodes := nodes + [n];
      RootsKept(old(nodes), nodes, emptyString, singleChars);
      assert SameString(old(nodes), nodes, left) && SameString(old(nodes), nodes, right);
      assert nodes[r] == n;
    }

    /** Units [start, start + length) of a string, read through its flat view, with the encoding they allow. */
    method CopyUnits(src: Id, start: nat, length: nat) returns (d: seq<CodeUnit>, utf8: bool)
      requires Valid() && src < |nodes| && start + length <= nodes[src].length
      modifies this`nodes
      ensures Valid() && Preserves(old(nodes), nodes)
      ensures d == Val(old(nodes), src)[start..start + length] && (utf8 <==> Compressible(d))
      ensures nodes[src].utf8 == old(nodes)[src].utf8 && Val(nodes, src) == Val(old(nodes), src)
      ensures |nodes| >= |old(nodes)|
    {
      hide Compressible, Val;
      var v := FlattenAllString(src);
      assert SameString(old(nodes), nodes, src);
      var data := nodes[v.str].body.data;
      d := data[v.start + start..v.start + start + length];
      ViewSlice(nodes, src, v, start, start + length);
      NarrowIffCompressible(nodes, src);
      if nodes[v.str].utf8 {
        utf8 := true;
        CompressibleSlice(Val(nodes, src), start, start + length);
      } else {
        utf8 := CanBeCompressed(d);
      }
    }

    /** A copied substring: the empty string, the source itself, or a fresh line string. */
    method FastSubString(src: Id, start: nat, length: nat) returns (r: Id)
      requires Valid() && src < |nodes| && start + length <= nodes[src].length
      modifies this`nodes
      ensures Valid() && Preserves(old(nodes), nodes)
      ensures r < |nodes| && Val(nodes, r) == Val(old(nodes), src)[start..start + length]
      ensures length == 0 ==> r == emptyString && nodes == old(nodes)
      ensures 0 < length == old(nodes)[src].length ==> r == src && nodes == old(nodes)
      ensures 0 < length < old(nodes)[src].length ==> r == |nodes| - 1 >= |old(nodes)| && nodes[r].body.Line?
    {
      hide Compressible, Val, KeepsStrings;
      if length == 0 {
        PreservesRefl(nodes);
        return emptyString;
      }
      if start == 0 && length == nodes[src].length {
        PreservesRefl(nodes);
        return src;
      }
      NodeLength(nodes, src);
      var d, utf8 := CopyUnits(src, start, length);
      ghost var mid := nodes;
      r := NewLineString(d, utf8);
      PreservesTransitive(old(nodes), mid, nodes);
    }

    /** A window on the flat data of the source: slices never point at trees or at other slices. */
    method GetSlicedString(src: Id, start: nat, length: nat) returns (r: Id)
      requires Valid() && src < |nodes| && start + length <= nodes[src].length && length >= MIN_SLICED_LENGTH
      requires nodes[src].utf8 || !Compressible(Val(nodes, src)[start..start + length])
      modifies this`nodes
      ensures Valid() && Preserves(old(nodes), nodes)
      ensures r == |nodes| - 1 >= |old(nodes)| && Val(nodes, r) == Val(old(nodes), src)[start..start + length]
      ensures var v := FlatWindow(nodes, src); !IsOpenTree(nodes, src) && nodes[r].body == Sliced(v.str, v.start + start)
    {
      hide Compressible, Val, KeepsStrings, FlatViewOf;
      var v := FlattenAllString(src);
      ghost var mid := nodes;
      SameLength(old(nodes), nodes, src);
      SliceOk(nodes, src, v, start, length);
      r := |nodes|;
      ViewRange(nodes, v, src);
      WindowKept(nodes, SliceNode(nodes, v, start, length), src);
      nodes := nodes + [SliceNode(nodes, v, start, length)];
      RootsKept(mid, nodes, emptyString, singleChars);
      PreservesTransitive(old(nodes), mid, nodes);
    }

    /** substring: a permanent one-character string, the source itself, a slice of at least 13 units,
        or a copy when it is short or turns out narrow. */
    method GetSubString(src: Id, start: nat, length: nat) returns (r: Id)
      requires Valid() && src < |nodes| && start + length <= nodes[src].length
      modifies this`nodes
      ensures Valid() && Preserves(old(nodes), nodes)
      ensures r < |nodes| && Val(nodes, r) == Val(old(nodes), src)[start..start + length]
      ensures length == 1 && 1 <= Val(old(nodes), src)[start] <= 0x7F ==> r == singleChars[Val(old(nodes), src)[start]]
      ensures length == 0 ==> r == emptyString
      ensures MIN_SLICED_LENGTH <= length == old(nodes)[src].length ==> r == src && nodes == old(nodes)
      ensures MIN_SLICED_LENGTH <= length < old(nodes)[src].length ==>
        && r == |nodes| - 1 >= |old(nodes)|
        && if old(nodes)[src].utf8 || !Compressible(Val(old(nodes), src)[start..start + length]) then nodes[r].body.Sliced?
           else nodes[r].body.Line?
    {
      hide Compressible, Val, KeepsStrings;
      PreservesRefl(nodes);
      if length == 1 {
        var c := At(nodes, src, start, false);
        AsciiRange(c);
        if IsAsciiCharacter(c) {
          return singleChars[c];
        }
      }
      if length >= MIN_SLICED_LENGTH {
        if start == 0 && length == nodes[src].length {
          return src;
        }
        NodeLength(nodes, src);
        ghost var mid := nodes;
        if !nodes[src].utf8 {
          var d, canBeCompressed := CopyUnits(src, start, length);
          mid := nodes;
          if canBeCompressed {
            r := NewLineString(d, true);
            PreservesTransitive(old(nodes), mid, nodes);
            return;
          }
        }
        SameLength(old(nodes), nodes, src);
        r := GetSlicedString(src, start, length);
        PreservesTransitive(old(nodes), mid, nodes);
        return;
      }
      r := FastSubString(src, start, length);
    }
  }
}
