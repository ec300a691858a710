/** indexOf, lastIndexOf and equality on strings of any layout and either encoding. */
module StringSearch {
  import opened CodeUnits
  import opened StringHash
  import opened Ropes
  import opened StringHeap

  ghost predicate MatchesAt(t: seq<CodeUnit>, p: seq<CodeUnit>, k: int) {
    0 <= k && k + |p| <= |t| && t[k..k + |p|] == p
  }

  /** r is the first match at or after from, or -1 when there is none. */
  ghost predicate FirstMatch(t: seq<CodeUnit>, p: seq<CodeUnit>, from: nat, r: int) {
    if r == -1 then forall k :: from <= k ==> !MatchesAt(t, p, k)
    else from <= r && MatchesAt(t, p, r) && forall k :: from <= k < r ==> !MatchesAt(t, p, k)
  }

  /** r is the last match at or before upto, or -1 when there is none. */
  ghost predicate LastMatch(t: seq<CodeUnit>, p: seq<CodeUnit>, upto: nat, r: int) {
    if r == -1 then forall k :: k <= upto ==> !MatchesAt(t, p, k)
    else r <= upto && MatchesAt(t, p, r) && forall k :: r < k <= upto ==> !MatchesAt(t, p, k)
  }

  lemma {:induction false} NoMatchByUnit(t: seq<CodeUnit>, p: seq<CodeUnit>, k: int, j: nat)
    requires 0 <= k && k + |p| <= |t| && j < |p| && t[k + j] != p[j]
    ensures !MatchesAt(t, p, k)
  {
    assert t[k..k + |p|][j] == t[k + j];
  }

  /** Compares the units after the first one, which the caller has matched. */
  method RestMatches(t: seq<CodeUnit>, p: seq<CodeUnit>, k: nat) returns (r: bool)
    requires |p| > 0 && k + |p| <= |t| && t[k] == p[0]
    ensures r <==> MatchesAt(t, p, k)
  {
    var j := 1;
    while j < |p| && t[k + j] == p[j]
      invariant 1 <= j <= |p| && forall i :: 0 <= i < j ==> t[k + i] == p[i]
    {
      j := j + 1;
    }
    if j < |p| {
      NoMatchByUnit(t, p, k, j);
    } else {
      assert t[k..k + |p|] == p;
    }
    return j == |p|;
  }

  method IndexOfSpan(t: seq<CodeUnit>, p: seq<CodeUnit>, pos: nat, max: int) returns (r: int)
    requires |p| > 0 && max == |t| - |p| && pos <= max
    ensures FirstMatch(t, p, pos, r)
  {
    var i := pos;
    while i <= max
      invariant pos <= i <= max + 2 && forall k :: pos <= k < i ==> !MatchesAt(t, p, k)
    {
      if t[i] != p[0] {
        NoMatchByUnit(t, p, i, 0);
        i := i + 1;
        while i <= max && t[i] != p[0]
          invariant pos < i <= max + 1 && forall k :: pos <= k < i ==> !MatchesAt(t, p, k)
        {
          NoMatchByUnit(t, p, i, 0);
          i := i + 1;
        }
      }
      if i <= max {
        var found := RestMatches(t, p, i);
        if found {
          return i;
        }
      }
      i := i + 1;
    }
    return -1;
  }

  method LastIndexOfSpan(t: seq<CodeUnit>, p: seq<CodeUnit>, pos: nat) returns (r: int)
    requires |p| > 0 && pos + |p| <= |t|
    ensures LastMatch(t, p, pos, r)
  {
    var i: int := pos;
    while i >= 0
      invariant -1 <= i <= pos && forall k :: i < k <= pos ==> !MatchesAt(t, p, k)
    {
      if t[i] != p[0] {
        NoMatchByUnit(t, p, i, 0);
      } else {
        var found := RestMatches(t, p, i);
        if found {
          return i;
        }
      }
      i := i - 1;
    }
    return -1;
  }

  /** A pattern that needs the wide encoding cannot occur in a narrow text. */
  lemma {:induction false} WidePatternInNarrowText(t: seq<CodeUnit>, p: seq<CodeUnit>, k: int)
    requires Compressible(t) && !Compressible(p)
    ensures !MatchesAt(t, p, k)
  {
    if MatchesAt(t, p, k) {
      CompressibleSlice(t, k, k + |p|);
    }
  }

  /** Flat views of both strings, taken one after the other: the second flattening leaves the first view valid. */
  method FlatPair(heap: EcmaStringHeap, a: Id, b: Id) returns (s: seq<CodeUnit>, t: seq<CodeUnit>, sUtf8: bool, tUtf8: bool)
    requires heap.Valid() && a < |heap.nodes| && b < |heap.nodes|
    modifies heap`nodes
    ensures heap.Valid() && Preserves(old(heap.nodes), heap.nodes)
    ensures s == Val(old(heap.nodes), a) && t == Val(old(heap.nodes), b)
    ensures (sUtf8 <==> Compressible(s)) && (tUtf8 <==> Compressible(t))
  {
    hide Val, KeepsStrings, Compressible, NodeOk, FlatViewOf, WellFormed;
    NarrowIffCompressible(heap.nodes, a);
    NarrowIffCompressible(heap.nodes, b);
    var va := heap.FlattenAllString(a);
    SameLength(old(heap.nodes), heap.nodes, a);
    SameLength(old(heap.nodes), heap.nodes, b);
    ghost var mid := heap.nodes;
    var vb := heap.FlattenAllString(b);
    SameLength(mid, heap.nodes, b);
    ViewKept(mid, heap.nodes, va, a);
    PreservesTransitive(old(heap.nodes), mid, heap.nodes);
    SameLength(old(heap.nodes), heap.nodes, a);
    s, sUtf8 := ReadView(heap.nodes, va, a);
    t, tUtf8 := ReadView(heap.nodes, vb, b);
  }

  method ReadView(h: Heap, v: FlatInfo, ghost i: Id) returns (s: seq<CodeUnit>, utf8: bool)
    requires WellFormed(h) && i < |h| && FlatViewOf(h, v, i)
    ensures s == Val(h, i) && utf8 == h[i].utf8
  {
    s := h[v.str].body.data[v.start..v.start + v.length];
    utf8 := h[v.str].utf8;
  }

  lemma {:induction false} ViewKept(h: Heap, g: Heap, v: FlatInfo, i: Id)
    requires KeepsStrings(h, g) && i < |h| && FlatViewOf(h, v, i)
    ensures FlatViewOf(g, v, i)
  {
    hide Val, HashOf, WellFormed;
    SameLength(h, g, i);
    SameLength(h, g, v.str);
  }

  /** indexOf: the first match at or after the position, for every position but a negative one with an empty
      pattern, where the code answers the position itself. */
  method IndexOf(heap: EcmaStringHeap, receiver: Id, search: Id, pos: int) returns (r: int)
    requires heap.Valid() && receiver < |heap.nodes| && search < |heap.nodes|
    modifies heap`nodes
    ensures heap.Valid() && Preserves(old(heap.nodes), heap.nodes)
    ensures FirstMatch(Val(old(heap.nodes), receiver), Val(old(heap.nodes), search), if pos < 0 then 0 else pos, r)
      <==> pos >= 0 || old(heap.nodes)[search].length > 0
  {
    hide Val, KeepsStrings, Compressible, NodeOk, WellFormed, MatchesAt;
    ghost var gt, gp := Val(heap.nodes, receiver), Val(heap.nodes, search);
    PreservesRefl(heap.nodes);
    var tLen: int, pLen: int := heap.nodes[receiver].length, heap.nodes[search].length;
    TooLate(gt, gp);
    if pos > tLen {
      return -1;
    }
    if pLen == 0 {
      EmptyMatches(gt, gp);
      assert MatchesAt(gt, gp, 0);
      return pos;
    }
    var from: nat := if pos < 0 then 0 else pos;
    var max := tLen - pLen;
    if max < 0 {
      return -1;
    }
    if from + pLen > tLen {
      return -1;
    }
    var t, p, tUtf8, pUtf8 := FlatPair(heap, receiver, search);
    if !pUtf8 && tUtf8 {
      forall k | from <= k ensures !MatchesAt(t, p, k) { WidePatternInNarrowText(t, p, k); }
      return -1;
    }
    r := IndexOfSpan(t, p, from, max);
  }

  lemma TooLate(t: seq<CodeUnit>, p: seq<CodeUnit>)
    ensures forall k :: k + |p| > |t| ==> !MatchesAt(t, p, k)
  {
  }

  lemma EmptyMatches(t: seq<CodeUnit>, p: seq<CodeUnit>)
    requires p == []
    ensures forall k :: MatchesAt(t, p, k) <==> 0 <= k <= |t|
  {
  }

  /** lastIndexOf: the last match at or before the position clamped to the text. */
  method LastIndexOf(heap: EcmaStringHeap, receiver: Id, search: Id, pos: int) returns (r: int)
    requires heap.Valid() && receiver < |heap.nodes| && search < |heap.nodes|
    modifies heap`nodes
    ensures heap.Valid() && Preserves(old(heap.nodes), heap.nodes)
    ensures LastMatch(Val(old(heap.nodes), receiver), Val(old(heap.nodes), search),
                      Clamp(pos, old(heap.nodes)[receiver].length), r)
  {
    hide Val, KeepsStrings, Compressible, NodeOk, WellFormed, MatchesAt;
    ghost var gt, gp := Val(heap.nodes, receiver), Val(heap.nodes, search);
    PreservesRefl(heap.nodes);
    var tLen: int, pLen: int := heap.nodes[receiver].length, heap.nodes[search].length;
    TooLate(gt, gp);
    NegativeNever(gt, gp);
    if tLen < pLen {
      return -1;
    }
    var at := if pos < 0 then 0 else pos;
    if at > tLen {
      at := tLen;
    }
    if at + pLen > tLen {
      at := tLen - pLen;
    }
    if pLen == 0 {
      EmptyMatches(gt, gp);
      return at;
    }
    var t, p, tUtf8, pUtf8 := FlatPair(heap, receiver, search);
    if !pUtf8 && tUtf8 {
      forall k ensures !MatchesAt(t, p, k) { WidePatternInNarrowText(t, p, k); }
      return -1;
    }
    r := LastIndexOfSpan(t, p, at);
  }

  function Clamp(pos: int, n: nat): (r: nat)
    ensures r <= n
  {
    if pos < 0 then 0 else if pos > n then n else pos
  }

  lemma NegativeNever(t: seq<CodeUnit>, p: seq<CodeUnit>)
    ensures forall k :: k < 0 ==> !MatchesAt(t, p, k)
  {
  }
}
