/** The shared heap of string nodes, its representation invariant, and the content every node denotes. */
module Ropes {
  import opened CodeUnits
  import opened StringHash

  const MAX_STRING_LENGTH: nat := 0x4000_0000
  const MIN_TREE_LENGTH: nat := 13
  const MIN_SLICED_LENGTH: nat := 13

  type Id = nat

  datatype Body =
    | Line(data: seq<CodeUnit>)
    | Constant(data: seq<CodeUnit>)
    | Sliced(parent: Id, start: nat)
    | Tree(first: Id, second: Id)
  {
    predicate IsLineOrConstant() { Line? || Constant? }
  }

  // The header of a string (length, encoding flag, intern flag, cached hash) and its layout-specific part.
  datatype Node = Node(length: nat, utf8: bool, interned: bool, hash: Uint32, body: Body)

  type Heap = seq<Node>

  predicate IsFlatTree(h: Heap, n: Node)
    requires n.body.Tree? && n.body.second < |h|
  {
    h[n.body.second].length == 0
  }

  /** Representation invariant of one node. */
  ghost predicate NodeOk(h: Heap, n: Node) {
    && n.length < MAX_STRING_LENGTH
    && match n.body
       case Line(d) => |d| == n.length && (n.utf8 <==> Compressible(d))
       case Constant(d) => |d| == n.length && n.utf8 && Compressible(d)
       case Sliced(p, s) =>
         && n.length >= MIN_SLICED_LENGTH
         && p < |h| && h[p].body.IsLineOrConstant() && s + n.length <= |h[p].body.data|
         && h[p].utf8 == n.utf8
         && (!n.utf8 ==> !Compressible(h[p].body.data[s..s + n.length]))
       case Tree(f, s) =>
         && n.length >= MIN_TREE_LENGTH
         && f < |h| && s < |h| && n.length == h[f].length + h[s].length
         && if h[s].length == 0 then h[f].body.Line? && h[f].utf8 == n.utf8
            else h[f].length > 0 && (n.utf8 <==> h[f].utf8 && h[s].utf8)
  }

  ghost predicate WellFormed(h: Heap) {
    forall i {:trigger NodeOk(h, h[i])} :: 0 <= i < |h| ==> NodeOk(h, h[i])
  }

  /** The content of a string: what a reader of the language sees, whatever its layout. */
  ghost function Val(h: Heap, i: Id): (v: seq<CodeUnit>)
    requires WellFormed(h) && i < |h|
    ensures |v| == h[i].length
    decreases h[i].length, if h[i].body.Tree? then 1 else 0
  {
    assert NodeOk(h, h[i]);
    match h[i].body
    case Line(d) => d
    case Constant(d) => d
    case Sliced(p, s) => assert NodeOk(h, h[p]); h[p].body.data[s..s + h[i].length]
    case Tree(f, s) => Val(h, f) + Val(h, s)
  }

  /** The wide flag is never a guess: a string is narrow exactly when its content is. */
  lemma {:induction false} NarrowIffCompressible(h: Heap, i: Id)
    requires WellFormed(h) && i < |h|
    ensures h[i].utf8 <==> Compressible(Val(h, i))
    decreases h[i].length, if h[i].body.Tree? then 1 else 0
  {
    assert NodeOk(h, h[i]);
    match h[i].body
    case Line(_) =>
    case Constant(_) =>
    case Sliced(p, s) =>
      assert NodeOk(h, h[p]);
      if h[p].utf8 { CompressibleSlice(h[p].body.data, s, s + h[i].length); }
    case Tree(f, s) =>
      NarrowIffCompressible(h, f);
      NarrowIffCompressible(h, s);
      CompressibleAppend(Val(h, f), Val(h, s));
      assert h[s].length == 0 ==> Val(h, s) == [];
  }

  /** Short strings are always stored directly: the layouts that share data start at length 13. */
  lemma {:induction false} ShortIsLineOrConstant(h: Heap, i: Id)
    requires WellFormed(h) && i < |h| && h[i].length < MIN_TREE_LENGTH
    ensures h[i].body.IsLineOrConstant() && Val(h, i) == h[i].body.data
  {
    assert NodeOk(h, h[i]);
  }

  // ----- how one heap may follow another -----

  /** Node i of g stands for the same string as node i of h: an identical layout, or a tree
      redirected to a flat copy of its content. */
  ghost predicate SameOrRedirected(h: Heap, g: Heap, i: Id)
    requires WellFormed(h) && i < |h| <= |g|
  {
    && g[i].length == h[i].length && g[i].utf8 == h[i].utf8
    && (g[i].body == h[i].body || RedirectedTo(h, g, i))
  }

  ghost predicate RedirectedTo(h: Heap, g: Heap, i: Id)
    requires WellFormed(h) && i < |h| <= |g|
  {
    && h[i].body.Tree? && g[i].body.Tree?
    && g[i].body.first < |g| && g[i].body.second < |g|
    && g[g[i].body.second].length == 0
    && g[g[i].body.first].body == Line(Val(h, i))
  }

  ghost predicate Evolves(h: Heap, g: Heap)
    requires WellFormed(h)
  {
    && |h| <= |g|
    && forall i :: 0 <= i < |h| ==> SameOrRedirected(h, g, i)
  }

  /** In-place flattening is invisible: whatever else points at a redirected node, every string of
      the old heap keeps its content in the new one. */
  lemma {:induction false} EvolvesKeepsVal(h: Heap, g: Heap, i: Id)
    requires WellFormed(h) && WellFormed(g) && Evolves(h, g) && i < |h|
    ensures Val(g, i) == Val(h, i)
    decreases h[i].length, if h[i].body.Tree? then 1 else 0
  {
    assert SameOrRedirected(h, g, i);
    assert NodeOk(h, h[i]) && NodeOk(g, g[i]);
    match h[i].body
    case Line(_) =>
    case Constant(_) =>
    case Sliced(p, s) =>
      assert SameOrRedirected(h, g, p);
    case Tree(f, s) =>
      if g[i].body == h[i].body {
        EvolvesKeepsVal(h, g, f);
        EvolvesKeepsVal(h, g, s);
      } else {
        assert Val(g, g[i].body.second) == [];
      }
  }

  /** The cached hash of a string is unset or the hash of its content. */
  ghost predicate HashOk(h: Heap, i: Id)
    requires WellFormed(h) && i < |h|
  {
    h[i].hash == 0 || h[i].hash == HashOf(Val(h, i))
  }

  /** String i is the same string in g: same content, length and encoding; at most it has been interned or had
      its hash cached since. Only a tree may have been rewritten. */
  ghost predicate SameString(h: Heap, g: Heap, i: Id)
    requires WellFormed(h) && WellFormed(g) && i < |h| <= |g|
  {
    && g[i].length == h[i].length && g[i].utf8 == h[i].utf8
    && (if h[i].body.Tree? then g[i].body.Tree? else g[i].body == h[i].body)
    && Val(g, i) == Val(h, i)
    && (h[i].interned ==> g[i].interned)
    && (g[i].hash == h[i].hash || g[i].hash == HashOf(Val(h, i)))
  }

  ghost predicate KeepsStrings(h: Heap, g: Heap) {
    && WellFormed(h) && WellFormed(g) && |h| <= |g|
    && (forall i :: 0 <= i < |h| ==> SameString(h, g, i))
    && (forall i :: |h| <= i < |g| ==> HashOk(g, i))
  }

  /** What a string operation promises: the strings that existed before it are kept, and nothing is interned. */
  ghost predicate Preserves(h: Heap, g: Heap) {
    && KeepsStrings(h, g)
    && (forall i :: 0 <= i < |h| ==> g[i].interned == h[i].interned)
    && (forall i :: |h| <= i < |g| ==> !g[i].interned)
  }

  lemma {:induction false} KeepsTransitive(h: Heap, g: Heap, k: Heap)
    requires KeepsStrings(h, g) && KeepsStrings(g, k)
    ensures KeepsStrings(h, k)
  {
    hide Val, HashOf, WellFormed;
    forall i | 0 <= i < |h| ensures SameString(h, k, i) {
      assert SameString(h, g, i) && SameString(g, k, i);
    }
    forall i | |h| <= i < |k| ensures HashOk(k, i) {
      if i < |g| { assert HashOk(g, i) && SameString(g, k, i); }
    }
  }

  lemma {:induction false} PreservesTransitive(h: Heap, g: Heap, k: Heap)
    requires Preserves(h, g) && Preserves(g, k)
    ensures Preserves(h, k)
  {
    KeepsTransitive(h, g, k);
  }

  lemma PreservesRefl(h: Heap)
    requires WellFormed(h)
    ensures Preserves(h, h)
  {
  }

  lemma {:induction false} SameLength(h: Heap, g: Heap, i: Id)
    requires KeepsStrings(h, g) && i < |h|
    ensures i < |g| && g[i].length == h[i].length && g[i].utf8 == h[i].utf8 && Val(g, i) == Val(h, i)
    ensures if h[i].body.Tree? then g[i].body.Tree? else g[i].body == h[i].body
    ensures h[i].interned ==> g[i].interned
    ensures HashOk(h, i) ==> HashOk(g, i)
  {
    assert SameString(h, g, i);
  }

  // ----- allocation -----

  lemma NodeOkGrows(h: Heap, n: Node, m: Node)
    requires NodeOk(h, n)
    ensures NodeOk(h + [m], n)
  {
  }

  lemma {:induction false} AllocKeeps(h: Heap, n: Node)
    requires WellFormed(h) && NodeOk(h + [n], n) && !n.interned && n.hash == 0
    ensures Preserves(h, h + [n])
  {
    var g := h + [n];
    forall i | 0 <= i < |g| ensures NodeOk(g, g[i]) {
      if i < |h| { assert NodeOk(h, h[i]); NodeOkGrows(h, h[i], n); }
    }
    assert forall i :: 0 <= i < |h| ==> SameOrRedirected(h, g, i);
    forall i | 0 <= i < |h| ensures SameString(h, g, i) {
      EvolvesKeepsVal(h, g, i);
    }
  }

  /** A fresh line string holding d. */
  function NewLine(d: seq<CodeUnit>, utf8: bool): (n: Node) {
    Node(|d|, utf8, false, 0, Line(d))
  }

  lemma {:induction false} AllocLine(h: Heap, d: seq<CodeUnit>, utf8: bool)
    requires WellFormed(h) && |d| < MAX_STRING_LENGTH && (utf8 <==> Compressible(d))
    ensures Preserves(h, h + [NewLine(d, utf8)]) && Val(h + [NewLine(d, utf8)], |h|) == d
  {
    AllocKeeps(h, NewLine(d, utf8));
  }

  // ----- redirecting a tree to its flat copy -----

  /** The two stores of flattening: first := the flat copy, second := the empty string. */
  function Redirect(h: Heap, t: Id, flat: Id, empty: Id): (g: Heap)
    requires t < |h| && h[t].body.Tree?
  {
    h[t := h[t].(body := Tree(flat, empty))]
  }

  lemma {:induction false} RedirectWellFormed(h: Heap, t: Id, flat: Id, empty: Id)
    requires WellFormed(h) && t < |h| && h[t].body.Tree?
    requires flat < |h| && empty < |h| && h[empty].length == 0
    requires h[flat].body == Line(Val(h, t)) && h[flat].utf8 == h[t].utf8
    ensures WellFormed(Redirect(h, t, flat, empty))
  {
    hide Val, Compressible;
    var g := Redirect(h, t, flat, empty);
    assert NodeOk(h, h[flat]) && NodeOk(h, h[t]) && NodeOk(h, h[empty]);
    assert empty != t && flat != t;
    forall i | 0 <= i < |g| ensures NodeOk(g, g[i]) {
      assert NodeOk(h, h[i]);
    }
  }

  lemma {:induction false} RedirectKeeps(h: Heap, t: Id, flat: Id, empty: Id)
    requires WellFormed(h) && t < |h| && h[t].body.Tree?
    requires flat < |h| && empty < |h| && h[empty].length == 0
    requires h[flat].body == Line(Val(h, t)) && h[flat].utf8 == h[t].utf8
    ensures Preserves(h, Redirect(h, t, flat, empty))
  {
    hide Compressible;
    var g := Redirect(h, t, flat, empty);
    RedirectWellFormed(h, t, flat, empty);
    assert NodeOk(h, h[t]) && NodeOk(h, h[flat]) && NodeOk(h, h[empty]);
    assert forall i :: 0 <= i < |h| ==> SameOrRedirected(h, g, i);
    forall i | 0 <= i < |h| ensures SameString(h, g, i) {
      EvolvesKeepsVal(h, g, i);
    }
  }
}
