/** Visiting every live handle of a population while the visitor may dispose the handle it is given. */
module HandleIteration {
  import opened Common
  import opened NodeLists
  import opened HandleStore
  import opened HandleDispose

  ghost function BlockHandles(b: BlockId, used: seq<nat>): (r: seq<Handle>) {
    seq(|used|, j requires 0 <= j < |used| => Handle(b, used[j]))
  }

  /** The handles of the first n blocks, in visiting order. */
  ghost function HandlesUpTo(sh: Shape, n: nat): (r: seq<Handle>)
    requires n <= |sh.chain| && forall k :: 0 <= k < |sh.chain| ==> sh.chain[k] in sh.lists
  {
    if n == 0 then [] else HandlesUpTo(sh, n - 1) + BlockHandles(sh.chain[n - 1], sh.lists[sh.chain[n - 1]].used)
  }

  ghost predicate Suffix<T>(s: seq<T>, t: seq<T>) {
    |t| <= |s| && s[|s| - |t|..] == t
  }

  lemma {:induction false} SuffixTail<T>(s: seq<T>, t: seq<T>)
    requires Suffix(s, t) && t != []
    ensures |t| <= |s| && s[|s| - |t|] == t[0] && At(s, |s| - |t| + 1) == At(t, 1)
    ensures Suffix(s, t[1..]) && t[0] in s
  {
    assert s[|s| - |t|] == t[0];
    assert s[|s| - |t| + 1..] == t[1..];
  }

  lemma {:induction false} PosInSuffix<T>(s: seq<T>, t: seq<T>)
    requires NoDup(s) && Suffix(s, t) && t != []
    ensures t[0] in s && Pos(s, t[0]) == |s| - |t|
  {
    SuffixTail(s, t);
    assert s[|s| - |t|] == t[0];
  }

  /** Removing the head of a suffix leaves its tail a suffix. */
  lemma {:induction false} SuffixWithout<T>(s: seq<T>, t: seq<T>)
    requires NoDup(s) && Suffix(s, t) && t != []
    ensures t[0] in s && Suffix(Without(s, Pos(s, t[0])), t[1..])
  {
    PosInSuffix(s, t);
    var k := |s| - |t|;
    var r := Without(s, k);
    assert r[k..] == s[k + 1..] == t[1..];
  }

  /** The state reached when block c of the original chain is next: what lies ahead is as it was. */
  ghost predicate Ahead(s: Store, sh: Shape, sh0: Shape, isWeak: bool, c: nat) {
    && StoreOk(s, sh, isWeak) && c <= |sh0.chain| && NoDup(sh0.chain) && Suffix(sh.chain, sh0.chain[c..])
    && forall k :: c <= k < |sh0.chain| ==>
         sh0.chain[k] in sh0.lists && sh0.chain[k] in sh.lists && sh.lists[sh0.chain[k]].used == sh0.lists[sh0.chain[k]].used
  }

  /** The state inside block c: the nodes from position j on are still ahead, in order, and so are the later blocks. */
  ghost predicate AheadIn(s: Store, sh: Shape, sh0: Shape, isWeak: bool, c: nat, j: nat) {
    && c < |sh0.chain| && sh0.chain[c] in sh0.lists && j <= |sh0.lists[sh0.chain[c]].used|
    && Ahead(s, sh, sh0, isWeak, c + 1)
    && (j < |sh0.lists[sh0.chain[c]].used| ==>
          && sh0.chain[c] in sh.lists && sh0.chain[c] in s.mem
          && Suffix(sh.lists[sh0.chain[c]].used, sh0.lists[sh0.chain[c]].used[j..])
          && Suffix(sh.chain, sh0.chain[c..]))
  }

  lemma {:induction false} EnterBlock(s: Store, sh: Shape, sh0: Shape, isWeak: bool, c: nat)
    requires Ahead(s, sh, sh0, isWeak, c) && c < |sh0.chain|
    ensures sh0.chain[c] in s.mem && sh0.chain[c] in sh0.lists && AheadIn(s, sh, sh0, isWeak, c, 0)
    ensures s.mem[sh0.chain[c]].next == At(sh0.chain, c + 1)
    ensures s.mem[sh0.chain[c]].usedList == At(sh0.lists[sh0.chain[c]].used, 0)
  {
    hide StoreOk, NoDup, Suffix, At;
    var b, t := sh0.chain[c], sh0.chain[c..];
    ShapeFacts(s, sh, isWeak);
    SuffixTail(sh.chain, t);
    assert t[1..] == sh0.chain[c + 1..];
    WholeSuffix(sh0.lists[b].used);
    EnterLinks(s, sh, isWeak, b, |sh.chain| - |t|);
    AtSlice(sh0.chain, c);
  }

  lemma {:induction false} EnterLinks(s: Store, sh: Shape, isWeak: bool, b: BlockId, p: nat)
    requires StoreOk(s, sh, isWeak) && p < |sh.chain| && sh.chain[p] == b
    ensures b in s.mem && b in sh.lists && s.mem[b].next == At(sh.chain, p + 1) && s.mem[b].usedList == At(sh.lists[b].used, 0)
  {
    hide BlockOk, FreeChainOk, FullOk, ChainOk, At;
    LinksOf(s, sh.chain, p);
    BlockAt(s, sh, isWeak, b);
    UsedListHead(s.mem[b], sh.lists[b], isWeak);
  }

  lemma AtSlice<T>(s: seq<T>, c: nat)
    requires c < |s|
    ensures At(s[c..], 1) == At(s, c + 1)
  {
  }

  lemma {:induction false} WholeSuffix<T>(s: seq<T>)
    ensures Suffix(s, s[0..])
  {
    assert s[0..] == s;
  }

  lemma UsedListHead(b: Block, l: Lists, isWeak: bool)
    requires BlockOk(b, l.used, l.free, isWeak)
    ensures b.usedList == At(l.used, 0)
  {
  }

  /** The node about to be visited is live, and its next link leads to the node after it in the original order. */
  lemma {:induction false} NextNode(s: Store, sh: Shape, sh0: Shape, isWeak: bool, c: nat, j: nat)
    requires AheadIn(s, sh, sh0, isWeak, c, j) && j < |sh0.lists[sh0.chain[c]].used|
    ensures var b, i := sh0.chain[c], sh0.lists[sh0.chain[c]].used[j];
      && b in s.mem && i < |s.mem[b].nodes| && s.mem[b].nodes[i].next == At(sh0.lists[b].used, j + 1)
      && Handle(b, i) in View(s, sh) && b in sh.lists && i in sh.lists[b].used && b in sh.chain
  {
    hide BlockOk, FreeChainOk, FullOk, View;
    var b, used := sh0.chain[c], sh0.lists[sh0.chain[c]].used;
    var i, cur, t := used[j], sh.lists[b].used, used[j..];
    SuffixTail(cur, t);
    var p := |cur| - |t|;
    assert cur[p] == t[0] == i;
    BlockAt(s, sh, isWeak, b);
    NodeInUse(s.mem[b], sh.lists[b], isWeak, p);
    ViewAt(s, sh, isWeak, Handle(b, i));
  }

  lemma {:induction false} NodeInUse(b: Block, l: Lists, isWeak: bool, p: nat)
    requires BlockOk(b, l.used, l.free, isWeak) && p < |l.used|
    ensures l.used[p] < |b.nodes| && b.nodes[l.used[p]].next == At(l.used, p + 1)
  {
    assert UsedNodeOk(b.nodes[l.used[p]], l.used, p);
  }

  /** Passing a node without disposing it. */
  lemma {:induction false} PassNode(s: Store, sh: Shape, sh0: Shape, isWeak: bool, c: nat, j: nat)
    requires AheadIn(s, sh, sh0, isWeak, c, j) && j < |sh0.lists[sh0.chain[c]].used|
    ensures AheadIn(s, sh, sh0, isWeak, c, j + 1)
  {
    hide BlockOk, StoreOk, NoDup;
    var t := sh0.lists[sh0.chain[c]].used[j..];
    SuffixTail(sh.lists[sh0.chain[c]].used, t);
    assert t[1..] == sh0.lists[sh0.chain[c]].used[j + 1..];
  }

  lemma {:induction false} ShapeFacts(s: Store, sh: Shape, isWeak: bool)
    requires StoreOk(s, sh, isWeak)
    ensures NoDup(sh.chain) && sh.chain != [] && sh.lists.Keys == s.mem.Keys && s.top == sh.chain[0]
    ensures forall b :: b in sh.chain <==> b in sh.lists
    ensures forall b :: b in sh.lists ==> NoDup(sh.lists[b].used)
  {
    hide FreeChainOk, FullOk;
    forall b | b in sh.lists ensures NoDup(sh.lists[b].used) {
      BlockAt(s, sh, isWeak, b);
    }
  }

  /** Disposing the visited node, and with it perhaps its block, disturbs nothing that lies ahead. */
  lemma {:induction false} DisposeNode(s: Store, sh: Shape, s': Store, sh': Shape, sh0: Shape, isWeak: bool, c: nat, j: nat)
    requires AheadIn(s, sh, sh0, isWeak, c, j) && j < |sh0.lists[sh0.chain[c]].used| && StoreOk(s', sh', isWeak)
    requires ShapeAfterDispose(sh, sh', Handle(sh0.chain[c], sh0.lists[sh0.chain[c]].used[j]))
    ensures AheadIn(s', sh', sh0, isWeak, c, j + 1)
  {
    hide BlockOk, StoreOk, NoDup, Without, Suffix;
    ShapeFacts(s, sh, isWeak);
    ShapeFacts(s', sh', isWeak);
    var b, used := sh0.chain[c], sh0.lists[sh0.chain[c]].used;
    var t := used[j..];
    SuffixWithout(sh.lists[b].used, t);
    assert t[1..] == used[j + 1..];
    assert sh0.chain[c..][1..] == sh0.chain[c + 1..];
    LaterDiffer(sh0.chain, c);
    if sh'.chain != sh.chain {
      SuffixWithout(sh.chain, sh0.chain[c..]);
      OneLeft(sh.lists[b].used, t);
    }
  }

  lemma LaterDiffer(chain: seq<BlockId>, c: nat)
    requires NoDup(chain) && c < |chain|
    ensures forall k :: c + 1 <= k < |chain| ==> chain[k] != chain[c]
  {
  }

  lemma OneLeft<T>(s: seq<T>, t: seq<T>)
    requires Suffix(s, t) && |s| == 1 && t != []
    ensures |t| == 1
  {
  }

  // ----- the order of the visit -----

  lemma {:induction false} HandlesMembers(s: Store, sh: Shape, isWeak: bool, n: nat)
    requires StoreOk(s, sh, isWeak) && n <= |sh.chain| && forall k :: 0 <= k < |sh.chain| ==> sh.chain[k] in sh.lists
    ensures forall h :: h in HandlesUpTo(sh, n) <==>
      exists k :: 0 <= k < n && sh.chain[k] == h.block && h.index in sh.lists[sh.chain[k]].used
    ensures NoDup(HandlesUpTo(sh, n))
  {
    hide StoreOk;
    if n > 0 {
      HandlesMembers(s, sh, isWeak, n - 1);
      ShapeFacts(s, sh, isWeak);
      var b := sh.chain[n - 1];
      var used := sh.lists[b].used;
      var front, back := HandlesUpTo(sh, n - 1), BlockHandles(b, used);
      forall h ensures h in back <==> h.block == b && h.index in used { BlockHandlesMembers(b, used, h); }
      forall h ensures h in front + back <==>
        exists k :: 0 <= k < n && sh.chain[k] == h.block && h.index in sh.lists[sh.chain[k]].used
      {
        assert h in front + back <==> h in front || h in back;
        if h in back { assert sh.chain[n - 1] == h.block; }
      }
      forall h | h in front ensures h !in back {
        var k :| 0 <= k < n - 1 && sh.chain[k] == h.block;
        assert sh.chain[k] != sh.chain[n - 1];
      }
      NoDupConcat(front, back);
    }
  }

  lemma {:induction false} BlockHandlesMembers(b: BlockId, used: seq<nat>, h: Handle)
    ensures h in BlockHandles(b, used) <==> h.block == b && h.index in used
    ensures NoDup(used) ==> NoDup(BlockHandles(b, used))
  {
    var r := BlockHandles(b, used);
    if h.block == b && h.index in used {
      var j :| 0 <= j < |used| && used[j] == h.index;
      assert r[j] == h;
    }
  }

  lemma {:induction false} NoDupConcat<T>(a: seq<T>, b: seq<T>)
    requires NoDup(a) && NoDup(b) && forall x :: x in a ==> x !in b
    ensures NoDup(a + b)
  {
    forall i, j | 0 <= i < j < |a + b| ensures (a + b)[i] != (a + b)[j] {
      if i < |a| <= j { assert a[i] in a && b[j - |a|] in b; }
    }
  }

  /** The visiting order lists every live handle exactly once. */
  lemma {:induction false} VisitsAll(s: Store, sh: Shape, isWeak: bool)
    requires StoreOk(s, sh, isWeak)
    ensures forall k :: 0 <= k < |sh.chain| ==> sh.chain[k] in sh.lists
    ensures NoDup(HandlesUpTo(sh, |sh.chain|))
    ensures forall h :: h in HandlesUpTo(sh, |sh.chain|) <==> h in View(s, sh)
  {
    hide StoreOk, View;
    ShapeFacts(s, sh, isWeak);
    forall k | 0 <= k < |sh.chain| ensures sh.chain[k] in sh.lists { assert sh.chain[k] in sh.chain; }
    HandlesMembers(s, sh, isWeak, |sh.chain|);
    forall h ensures h in HandlesUpTo(sh, |sh.chain|) <==> h in View(s, sh) {
      StoreLists(s, sh, isWeak);
      ViewAt(s, sh, isWeak, h);
      if h.block in s.mem {
        assert h.block in sh.chain;
        var k :| 0 <= k < |sh.chain| && sh.chain[k] == h.block;
      }
    }
  }

  lemma StoreLists(s: Store, sh: Shape, isWeak: bool)
    requires StoreOk(s, sh, isWeak)
    ensures ListsOk(s, sh.lists, isWeak)
  {
  }

  // ----- the visit -----

  ghost function Kept(v: map<Handle, Value>, visited: seq<Handle>, decide: Handle -> bool): (r: map<Handle, Value>) {
    map h | h in v && !(h in visited && decide(h)) :: v[h]
  }

  lemma {:induction false} KeptStep(v: map<Handle, Value>, visited: seq<Handle>, decide: Handle -> bool, h: Handle)
    ensures Kept(v, visited + [h], decide) == if decide(h) then Kept(v, visited, decide) - {h} else Kept(v, visited, decide)
  {
    forall g ensures g in visited + [h] <==> g in visited || g == h {}
  }

  /** The handles visited once the first j nodes of a block have been. */
  ghost function VisitedIn(before: seq<Handle>, b: BlockId, used: seq<nat>, j: nat): (r: seq<Handle>)
    requires j <= |used|
  {
    before + BlockHandles(b, used)[..j]
  }

  lemma VisitedStep(before: seq<Handle>, b: BlockId, used: seq<nat>, j: nat)
    requires j < |used|
    ensures VisitedIn(before, b, used, j + 1) == VisitedIn(before, b, used, j) + [Handle(b, used[j])]
  {
  }

  lemma {:induction false} VisitedAll(before: seq<Handle>, b: BlockId, used: seq<nat>)
    ensures VisitedIn(before, b, used, 0) == before
    ensures VisitedIn(before, b, used, |used|) == before + BlockHandles(b, used)
  {
    assert BlockHandles(b, used)[..|used|] == BlockHandles(b, used);
  }

  /** Visits the used nodes of block c; the visitor disposes those it decides on. */
  method IterateBlock(s0: Store, isWeak: bool, b: BlockId, decide: Handle -> bool, ghost sh0: Shape, ghost shIn: Shape,
                      ghost c: nat, ghost v: map<Handle, Value>, before: seq<Handle>)
    returns (s: Store, visited: seq<Handle>, ghost sh: Shape)
    requires Ahead(s0, shIn, sh0, isWeak, c) && c < |sh0.chain| && b == sh0.chain[c] && b in s0.mem && b in sh0.lists
    requires View(s0, shIn) == Kept(v, before, decide)
    ensures Ahead(s, sh, sh0, isWeak, c + 1)
    ensures visited == before + BlockHandles(b, sh0.lists[b].used)
    ensures View(s, sh) == Kept(v, visited, decide)
  {
    hide View, Kept, Ahead, StoreOk, Suffix, ShapeAfterDispose, BlockHandles, VisitedIn;
    s, visited, sh := s0, before, shIn;
    ghost var used := sh0.lists[b].used;
    EnterBlock(s, sh, sh0, isWeak, c);
    var next := s.mem[b].usedList;
    ghost var j := 0;
    VisitedAll(before, b, used);
    while next.Some?
      invariant AheadIn(s, sh, sh0, isWeak, c, j) && next == At(used, j)
      invariant j <= |used| && visited == VisitedIn(before, b, used, j)
      invariant View(s, sh) == Kept(v, visited, decide)
      decreases |used| - j
    {
      var current := next.value;
      NextNode(s, sh, sh0, isWeak, c, j);
      next := s.mem[b].nodes[current].next;
      var h := Handle(b, current);
      KeptStep(v, visited, decide, h);
      VisitedStep(before, b, used, j);
      if decide(h) {
        ghost var t, tsh := s, sh;
        AheadStore(s, sh, sh0, isWeak, c + 1);
        s, sh := DisposeGlobalHandleInner(s, isWeak, h, sh);
        DisposeNode(t, tsh, s, sh, sh0, isWeak, c, j);
      } else {
        PassNode(s, sh, sh0, isWeak, c, j);
      }
      visited := visited + [h];
      j := j + 1;
    }
  }

  lemma AheadStore(s: Store, sh: Shape, sh0: Shape, isWeak: bool, c: nat)
    requires Ahead(s, sh, sh0, isWeak, c)
    ensures StoreOk(s, sh, isWeak)
  {
  }

  /** Iteration visits every handle that is live when it starts exactly once, even if the visitor disposes the handles
      it is given; afterwards exactly those are gone. */
  method IterateUsageGlobal(s0: Store, isWeak: bool, decide: Handle -> bool, ghost sh0: Shape)
    returns (s: Store, visited: seq<Handle>, ghost sh: Shape)
    requires StoreOk(s0, sh0, isWeak)
    ensures StoreOk(s, sh, isWeak)
    ensures NoDup(visited) && forall h :: h in visited <==> h in View(s0, sh0)
    ensures View(s, sh) == map h | h in View(s0, sh0) && !decide(h) :: View(s0, sh0)[h]
  {
    hide View, Ahead, StoreOk, Suffix, BlockHandles, NoDup;
    ghost var v := View(s0, sh0);
    s, visited, sh := s0, [], sh0;
    VisitsAll(s0, sh0, isWeak);
    StartAhead(s0, sh0, isWeak);
    var next := Some(s.top);
    ghost var c := 0;
    while next.Some?
      invariant Ahead(s, sh, sh0, isWeak, c) && c <= |sh0.chain| && next == At(sh0.chain, c)
      invariant visited == HandlesUpTo(sh0, c) && View(s, sh) == Kept(v, visited, decide)
      decreases |sh0.chain| - c
    {
      var current := next.value;
      EnterBlock(s, sh, sh0, isWeak, c);
      next := s.mem[current].next;
      s, visited, sh := IterateBlock(s, isWeak, current, decide, sh0, sh, c, v, visited);
      c := c + 1;
    }
    AheadStore(s, sh, sh0, isWeak, c);
  }

  lemma {:induction false} StartAhead(s: Store, sh: Shape, isWeak: bool)
    requires StoreOk(s, sh, isWeak)
    ensures Ahead(s, sh, sh, isWeak, 0) && At(sh.chain, 0) == Some(s.top)
  {
    hide StoreOk;
    ShapeFacts(s, sh, isWeak);
    WholeSuffix(sh.chain);
    forall k | 0 <= k < |sh.chain| ensures sh.chain[k] in sh.lists { assert sh.chain[k] in sh.chain; }
  }
}
