/** Disposing a global handle: the node goes to its free list, an emptied block is deleted, a block that gains a free
    node joins the free chain. */
module HandleDispose {
  import opened Common
  import opened NodeLists
  import opened HandleStore

  ghost function Pos<T>(s: seq<T>, x: T): (k: nat)
    requires x in s
    ensures k < |s| && s[k] == x
  {
    var k :| 0 <= k < |s| && s[k] == x; k
  }

  /** The lists of block b once its node i has been freed. */
  ghost function FreedLists(l: Lists, i: nat): (r: Lists)
    requires i in l.used
  {
    Lists(Without(l.used, Pos(l.used, i)), [i] + l.free)
  }

  // ----- deleting a block -----

  function SetPrev(mem: map<BlockId, Block>, b: Option<BlockId>, v: Option<BlockId>): (r: map<BlockId, Block>) {
    if b.Some? && b.value in mem then mem[b.value := mem[b.value].(prev := v)] else mem
  }

  function SetNext(mem: map<BlockId, Block>, b: Option<BlockId>, v: Option<BlockId>): (r: map<BlockId, Block>) {
    if b.Some? && b.value in mem then mem[b.value := mem[b.value].(next := v)] else mem
  }

  function SetFreePrev(mem: map<BlockId, Block>, b: Option<BlockId>, v: Option<BlockId>): (r: map<BlockId, Block>) {
    if b.Some? && b.value in mem then mem[b.value := mem[b.value].(freePrev := v)] else mem
  }

  function SetFreeNext(mem: map<BlockId, Block>, b: Option<BlockId>, v: Option<BlockId>): (r: map<BlockId, Block>) {
    if b.Some? && b.value in mem then mem[b.value := mem[b.value].(freeNext := v)] else mem
  }

  /** The four stores by which a block's neighbours in both chains skip it. */
  function RemoveList(mem: map<BlockId, Block>, b: BlockId): (r: map<BlockId, Block>)
    requires b in mem
  {
    var l := mem[b];
    SetFreeNext(SetFreePrev(SetNext(SetPrev(mem, l.next, l.prev), l.prev, l.next), l.freeNext, l.freePrev), l.freePrev, l.freeNext)
  }

  function DeleteBlock(s: Store, b: BlockId): (r: Store)
    requires b in s.mem
  {
    var l := s.mem[b];
    Store(RemoveList(s.mem, b) - {b},
          if s.top == b && l.next.Some? then l.next.value else s.top,
          if s.last == b && l.prev.Some? then l.prev.value else s.last,
          if s.freeHead == Some(b) then l.freeNext else s.freeHead)
  }

  /** What a surviving block looks like after block b is gone. */
  lemma {:induction false} Survivor(s: Store, b: BlockId, c: BlockId)
    requires b in s.mem && c in s.mem && c != b
    ensures var m, l := DeleteBlock(s, b).mem, s.mem[b];
      && c in m && SameCore(s.mem[c], m[c])
      && m[c].next == (if l.prev == Some(c) then l.next else s.mem[c].next)
      && m[c].prev == (if l.next == Some(c) then l.prev else s.mem[c].prev)
      && m[c].freeNext == (if l.freePrev == Some(c) then l.freeNext else s.mem[c].freeNext)
      && m[c].freePrev == (if l.freeNext == Some(c) then l.freePrev else s.mem[c].freePrev)
  {
    var l := s.mem[b];
    var m1 := SetPrev(s.mem, l.next, l.prev);
    var m2 := SetNext(m1, l.prev, l.next);
    var m3 := SetFreePrev(m2, l.freeNext, l.freePrev);
    SetPrevAt(s.mem, l.next, l.prev, c);
    SetNextAt(m1, l.prev, l.next, c);
    SetFreePrevAt(m2, l.freeNext, l.freePrev, c);
    SetFreeNextAt(m3, l.freePrev, l.freeNext, c);
    hide SetPrev, SetNext, SetFreePrev, SetFreeNext;
  }

  lemma SetPrevAt(mem: map<BlockId, Block>, b: Option<BlockId>, v: Option<BlockId>, c: BlockId)
    requires c in mem
    ensures c in SetPrev(mem, b, v) && SetPrev(mem, b, v)[c] == if b == Some(c) then mem[c].(prev := v) else mem[c]
  {
  }

  lemma SetNextAt(mem: map<BlockId, Block>, b: Option<BlockId>, v: Option<BlockId>, c: BlockId)
    requires c in mem
    ensures c in SetNext(mem, b, v) && SetNext(mem, b, v)[c] == if b == Some(c) then mem[c].(next := v) else mem[c]
  {
  }

  lemma SetFreePrevAt(mem: map<BlockId, Block>, b: Option<BlockId>, v: Option<BlockId>, c: BlockId)
    requires c in mem
    ensures c in SetFreePrev(mem, b, v) && SetFreePrev(mem, b, v)[c] == if b == Some(c) then mem[c].(freePrev := v) else mem[c]
  {
  }

  lemma SetFreeNextAt(mem: map<BlockId, Block>, b: Option<BlockId>, v: Option<BlockId>, c: BlockId)
    requires c in mem
    ensures c in SetFreeNext(mem, b, v) && SetFreeNext(mem, b, v)[c] == if b == Some(c) then mem[c].(freeNext := v) else mem[c]
  {
  }

  lemma {:induction false} DeleteKeys(s: Store, b: BlockId)
    requires b in s.mem
    ensures DeleteBlock(s, b).mem.Keys == s.mem.Keys - {b}
  {
    var l := s.mem[b];
    var m1 := SetPrev(s.mem, l.next, l.prev);
    assert m1.Keys == s.mem.Keys;
    var m2 := SetNext(m1, l.prev, l.next);
    assert m2.Keys == s.mem.Keys;
    var m3 := SetFreePrev(m2, l.freeNext, l.freePrev);
    assert m3.Keys == s.mem.Keys;
    assert RemoveList(s.mem, b).Keys == s.mem.Keys;
  }

  lemma {:induction false} DeleteLinkedAt(s: Store, chain: seq<BlockId>, c: nat, k: nat)
    requires NoDup(chain) && Linked(s.mem, chain) && c < |chain| && chain[c] in s.mem && k < |chain| - 1
    ensures |Without(chain, c)| == |chain| - 1
    ensures var r, m := Without(chain, c), DeleteBlock(s, chain[c]).mem; r[k] in m && LinkedAt(m[r[k]], r, k)
  {
    hide DeleteBlock, Without, At, NoDup;
    var o := if k < c then k else k + 1;
    Splice(chain, c, k, o);
    assert LinkedAt(s.mem[chain[c]], chain, c);
    assert chain[o] in s.mem && LinkedAt(s.mem[chain[o]], chain, o);
    Survivor(s, chain[c], chain[o]);
  }

  lemma {:induction false} DeleteLinked(s: Store, chain: seq<BlockId>, c: nat)
    requires NoDup(chain) && Linked(s.mem, chain) && c < |chain| && chain[c] in s.mem
    ensures Linked(DeleteBlock(s, chain[c]).mem, Without(chain, c))
  {
    hide DeleteBlock, NoDup, LinkedAt;
    var r, m := Without(chain, c), DeleteBlock(s, chain[c]).mem;
    forall k | 0 <= k < |r| ensures r[k] in m && LinkedAt(m[r[k]], r, k) {
      DeleteLinkedAt(s, chain, c, k);
    }
  }

  lemma {:induction false} DeleteFreeLinkedAt(s: Store, fc: seq<BlockId>, c: nat, k: nat)
    requires NoDup(fc) && FreeLinked(s.mem, fc) && c < |fc| && fc[c] in s.mem && k < |fc| - 1
    ensures |Without(fc, c)| == |fc| - 1
    ensures var r, m := Without(fc, c), DeleteBlock(s, fc[c]).mem; r[k] in m && FreeLinkedAt(m[r[k]], r, k)
  {
    hide DeleteBlock, Without, At, NoDup;
    var o := if k < c then k else k + 1;
    Splice(fc, c, k, o);
    assert FreeLinkedAt(s.mem[fc[c]], fc, c);
    assert fc[o] in s.mem && FreeLinkedAt(s.mem[fc[o]], fc, o);
    Survivor(s, fc[c], fc[o]);
  }

  lemma {:induction false} DeleteFreeLinked(s: Store, fc: seq<BlockId>, c: nat)
    requires NoDup(fc) && FreeLinked(s.mem, fc) && c < |fc| && fc[c] in s.mem
    ensures FreeLinked(DeleteBlock(s, fc[c]).mem, Without(fc, c))
  {
    hide DeleteBlock, NoDup, FreeLinkedAt;
    var r, m := Without(fc, c), DeleteBlock(s, fc[c]).mem;
    forall k | 0 <= k < |r| ensures r[k] in m && FreeLinkedAt(m[r[k]], r, k) {
      DeleteFreeLinkedAt(s, fc, c, k);
    }
  }

  lemma {:induction false} DeleteChain(s: Store, chain: seq<BlockId>, c: nat)
    requires ChainOk(s, chain) && c < |chain| && |chain| > 1 && chain[c] in s.mem
    ensures ChainOk(DeleteBlock(s, chain[c]), Without(chain, c))
  {
    hide Linked, RemoveList;
    var b, r := chain[c], Without(chain, c);
    var s' := DeleteBlock(s, b);
    DeleteKeys(s, b);
    assert Linked(s'.mem, r) by { DeleteLinked(s, chain, c); }
    assert s.mem[b].next == At(chain, c + 1) && s.mem[b].prev == At(chain, c - 1) by { LinksOf(s, chain, c); }
    forall x ensures x in r <==> x in chain && x != b { WithoutMembers(chain, c, x); }
    WithoutMembers(chain, c, b);
    DeleteEnds(chain, c);
  }

  lemma {:induction false} LinksOf(s: Store, chain: seq<BlockId>, c: nat)
    requires ChainOk(s, chain) && c < |chain|
    ensures chain[c] in s.mem && s.mem[chain[c]].next == At(chain, c + 1) && s.mem[chain[c]].prev == At(chain, c - 1)
  {
    assert chain[c] in s.mem && LinkedAt(s.mem[chain[c]], chain, c);
  }

  lemma DeleteEnds(chain: seq<BlockId>, c: nat)
    requires c < |chain| && |chain| > 1 && NoDup(chain)
    ensures var r := Without(chain, c);
      && r != [] && r[0] == (if c == 0 then chain[1] else chain[0])
      && r[|r| - 1] == (if c == |chain| - 1 then chain[|chain| - 2] else chain[|chain| - 1])
    ensures (chain[c] == chain[0] <==> c == 0) && (chain[c] == chain[|chain| - 1] <==> c == |chain| - 1)
  {
  }

  lemma {:induction false} DeleteFreeChain(s: Store, fc: seq<BlockId>, lists: map<BlockId, Lists>, d: nat)
    requires lists.Keys == s.mem.Keys && FreeChainOk(s, fc, lists) && d < |fc|
    ensures fc[d] in s.mem && (lists - {fc[d]}).Keys == DeleteBlock(s, fc[d]).mem.Keys
    ensures FreeChainOk(DeleteBlock(s, fc[d]), Without(fc, d), lists - {fc[d]})
  {
    hide RemoveList, FreeLinked, NoDup, Without, DeleteBlock;
    var b, r := fc[d], Without(fc, d);
    FreeMember(s, fc, d);
    var s' := DeleteBlock(s, b);
    DeleteKeys(s, b);
    assert FreeLinked(s'.mem, r) by { DeleteFreeLinked(s, fc, d); }
    assert s'.freeHead == At(r, 0) by { DeleteFreeHead(s, fc, d); }
    forall x ensures NoDup(r) && (x in r <==> x in fc && x != b) { WithoutMembers(fc, d, x); }
    forall x | x in s'.mem && x !in r ensures NoFreeLinks(s'.mem[x]) {
      assert x !in fc && NoFreeLinks(s.mem[x]);
      StrangerKeepsFreeLinks(s, fc, d, x);
    }
  }

  lemma FreeMember(s: Store, fc: seq<BlockId>, d: nat)
    requires FreeLinked(s.mem, fc) && d < |fc|
    ensures fc[d] in s.mem && FreeLinkedAt(s.mem[fc[d]], fc, d)
  {
  }

  lemma {:induction false} DeleteFreeHead(s: Store, fc: seq<BlockId>, d: nat)
    requires NoDup(fc) && FreeLinked(s.mem, fc) && d < |fc| && fc[d] in s.mem && s.freeHead == At(fc, 0)
    ensures DeleteBlock(s, fc[d]).freeHead == At(Without(fc, d), 0)
  {
    hide RemoveList, FreeLinked;
    FreeMember(s, fc, d);
    assert d > 0 ==> fc[0] != fc[d];
  }

  lemma {:induction false} StrangerKeepsFreeLinks(s: Store, fc: seq<BlockId>, d: nat, x: BlockId)
    requires FreeLinked(s.mem, fc) && d < |fc| && fc[d] in s.mem && x in s.mem && x !in fc
    ensures x in DeleteBlock(s, fc[d]).mem
    ensures DeleteBlock(s, fc[d]).mem[x].freeNext == s.mem[x].freeNext
    ensures DeleteBlock(s, fc[d]).mem[x].freePrev == s.mem[x].freePrev
  {
    hide DeleteBlock, FreeLinked;
    FreeMember(s, fc, d);
    Survivor(s, fc[d], x);
  }

  lemma {:induction false} DeleteLists(s: Store, lists: map<BlockId, Lists>, b: BlockId, isWeak: bool)
    requires ListsOk(s, lists, isWeak) && b in s.mem
    ensures ListsOk(DeleteBlock(s, b), lists - {b}, isWeak)
  {
    hide BlockOk, DeleteBlock;
    DeleteKeys(s, b);
    var s' := DeleteBlock(s, b);
    forall x | x in s'.mem ensures BlockOk(s'.mem[x], (lists - {b})[x].used, (lists - {b})[x].free, isWeak) {
      Survivor(s, b, x);
      SameCoreOk(s.mem[x], s'.mem[x], lists[x].used, lists[x].free, isWeak);
    }
  }

  /** Every block but b and the last is full and in use. */
  ghost predicate OthersFull(s: Store, chain: seq<BlockId>, lists: map<BlockId, Lists>, b: BlockId)
    requires lists.Keys == s.mem.Keys
  {
    forall k :: 0 <= k < |chain| - 1 && chain[k] != b ==>
      chain[k] in s.mem && s.mem[chain[k]].IsFull() && lists[chain[k]].used != []
  }

  lemma {:induction false} DeleteFull(s: Store, chain: seq<BlockId>, lists: map<BlockId, Lists>, c: nat)
    requires lists.Keys == s.mem.Keys && NoDup(chain) && c < |chain| && chain[c] in s.mem && Linked(s.mem, chain)
    requires OthersFull(s, chain, lists, chain[c])
    ensures (lists - {chain[c]}).Keys == DeleteBlock(s, chain[c]).mem.Keys
    ensures FullOk(DeleteBlock(s, chain[c]), Without(chain, c), lists - {chain[c]})
  {
    hide DeleteBlock, LinkedAt;
    var b, r := chain[c], Without(chain, c);
    DeleteKeys(s, b);
    var s' := DeleteBlock(s, b);
    forall k | 0 <= k < |r| - 1 && r[k] in s'.mem ensures s'.mem[r[k]].IsFull() && (lists - {b})[r[k]].used != [] {
      var o := if k < c then k else k + 1;
      Splice(chain, c, k, o);
      assert chain[o] in s.mem && s.mem[chain[o]].IsFull();
      Survivor(s, b, chain[o]);
    }
  }

  /** Freeing the last handle of a full block deletes the block. */
  lemma {:induction false} DeleteOk(s: Store, sh: Shape, b: BlockId, isWeak: bool)
    requires ListsOk(s, sh.lists, isWeak) && ChainOk(s, sh.chain) && FreeChainOk(s, sh.freeChain, sh.lists)
    requires b in sh.chain && b in sh.freeChain && |sh.chain| > 1 && b in s.mem && OthersFull(s, sh.chain, sh.lists, b)
    ensures var c, d := Pos(sh.chain, b), Pos(sh.freeChain, b);
      StoreOk(DeleteBlock(s, b), Shape(Without(sh.chain, c), Without(sh.freeChain, d), sh.lists - {b}), isWeak)
  {
    hide BlockOk, DeleteBlock, Without, ListsOk, FreeChainOk, ChainOk, OthersFull, NoDup, Linked;
    var c, d := Pos(sh.chain, b), Pos(sh.freeChain, b);
    ListsKeys(s, sh, isWeak);
    ChainParts(s, sh.chain);
    DeleteLists(s, sh.lists, b, isWeak);
    DeleteChain(s, sh.chain, c);
    DeleteFreeChain(s, sh.freeChain, sh.lists, d);
    DeleteFull(s, sh.chain, sh.lists, c);
  }

  lemma ChainParts(s: Store, chain: seq<BlockId>)
    requires ChainOk(s, chain)
    ensures NoDup(chain) && Linked(s.mem, chain)
  {
  }

  // ----- joining the free chain -----

  function AddToFree(s: Store, b: BlockId): (r: Store)
    requires b in s.mem
  {
    var mem := s.mem[b := s.mem[b].(freeNext := s.freeHead)];
    s.(mem := SetFreePrev(mem, s.freeHead, Some(b)), freeHead := Some(b))
  }

  /** s is well formed except that block b has a free node and is not in the free chain yet. */
  ghost predicate FreeMissing(s: Store, fc: seq<BlockId>, lists: map<BlockId, Lists>, b: BlockId)
    requires lists.Keys == s.mem.Keys
  {
    && b in s.mem && b !in fc && lists[b].free != []
    && NoDup(fc) && s.freeHead == At(fc, 0) && FreeLinked(s.mem, fc)
    && (forall c :: c in s.mem && c != b ==> (c in fc <==> lists[c].free != []))
    && (forall c :: c in s.mem && c !in fc ==> NoFreeLinks(s.mem[c]))
  }

  lemma {:induction false} AddToFreeOk(s: Store, fc: seq<BlockId>, lists: map<BlockId, Lists>, b: BlockId)
    requires lists.Keys == s.mem.Keys && FreeMissing(s, fc, lists, b)
    ensures AddToFree(s, b).mem.Keys == s.mem.Keys
    ensures FreeChainOk(AddToFree(s, b), [b] + fc, lists)
    ensures SameChainLinks(s.mem, AddToFree(s, b).mem)
    ensures forall c :: c in s.mem ==> SameCore(s.mem[c], AddToFree(s, b).mem[c])
  {
    hide FreeLinked, NoDup, AddToFree;
    var s', r := AddToFree(s, b), [b] + fc;
    AddToFreeFields(s, b);
    AddToFreeLinked(s, fc, b);
    forall c | c in s'.mem && c !in r ensures NoFreeLinks(s'.mem[c]) {
      assert c !in fc && NoFreeLinks(s.mem[c]);
      assert s.freeHead.Some? ==> s.freeHead.value in fc;
    }
    forall c | c in s'.mem ensures c in r <==> lists[c].free != [] {
      assert c in r <==> c == b || c in fc;
    }
  }

  lemma {:induction false} AddToFreeFields(s: Store, b: BlockId)
    requires b in s.mem
    ensures var s' := AddToFree(s, b);
      && s'.mem.Keys == s.mem.Keys && SameChainLinks(s.mem, s'.mem) && s'.top == s.top && s'.last == s.last && s'.freeHead == Some(b)
      && (forall c :: c in s.mem ==> SameCore(s.mem[c], s'.mem[c]))
      && (forall c :: c in s.mem && c != b && s.freeHead != Some(c) ==> s'.mem[c] == s.mem[c])
  {
    assert AddToFree(s, b).mem.Keys == s.mem.Keys;
  }

  lemma {:induction false} AddToFreeLinked(s: Store, fc: seq<BlockId>, b: BlockId)
    requires b in s.mem && b !in fc && NoDup(fc) && s.freeHead == At(fc, 0) && FreeLinked(s.mem, fc) && NoFreeLinks(s.mem[b])
    ensures FreeLinked(AddToFree(s, b).mem, [b] + fc) && NoDup([b] + fc)
  {
    var m, r := AddToFree(s, b).mem, [b] + fc;
    if fc != [] { assert fc[0] in s.mem; }
    forall k | 0 <= k < |r| ensures r[k] in m && FreeLinkedAt(m[r[k]], r, k) {
      if k > 0 {
        assert fc[k - 1] in s.mem && FreeLinkedAt(s.mem[fc[k - 1]], fc, k - 1);
        assert k > 1 ==> fc[k - 1] != fc[0];
      }
    }
  }

  // ----- disposing -----

  ghost function FreedShape(sh: Shape, h: Handle): (r: Shape)
    requires h.block in sh.lists && h.index in sh.lists[h.block].used
  {
    sh.(lists := sh.lists[h.block := FreedLists(sh.lists[h.block], h.index)])
  }

  /** The links FreeNode follows stay inside the block. */
  lemma {:induction false} FreeNodeCallable(s: Store, sh: Shape, isWeak: bool, h: Handle)
    requires StoreOk(s, sh, isWeak) && h in View(s, sh)
    ensures h.block in s.mem && h.block in sh.lists && h.index in sh.lists[h.block].used
    ensures var b, i := s.mem[h.block], h.index;
      && i < |b.nodes|
      && (b.nodes[i].prev.Some? ==> b.nodes[i].prev.value < |b.nodes|)
      && (b.nodes[i].next.Some? ==> b.nodes[i].next.value < |b.nodes|)
      && (b.freeList.Some? ==> b.freeList.value < |b.nodes|)
      && var nb, l := FreeNode(b, i), FreedLists(sh.lists[h.block], i);
         && BlockOk(nb, l.used, l.free, isWeak) && SameLinks(b, nb) && SameValues(b, nb, i) && nb.index == b.index
         && (nb.usedList.Some? <==> l.used != [])
  {
    hide View, FreeNode, ChainOk, FreeChainOk, FullOk, BlockOk, ListsOk;
    ViewAt(s, sh, isWeak, h);
    ListsKeys(s, sh, isWeak);
    BlockAt(s, sh, isWeak, h.block);
    var l := sh.lists[h.block];
    FreeNodeOkay(s.mem[h.block], l.used, l.free, isWeak, Pos(l.used, h.index));
    UsedHead(FreeNode(s.mem[h.block], h.index), FreedLists(l, h.index), isWeak);
  }

  lemma UsedHead(b: Block, l: Lists, isWeak: bool)
    requires BlockOk(b, l.used, l.free, isWeak)
    ensures b.usedList.Some? <==> l.used != []
  {
  }

  /** Freeing a node removes that handle from the view and no other. */
  lemma {:induction false} ViewPop(s: Store, s': Store, sh: Shape, sh': Shape, isWeak: bool, h: Handle)
    requires ListsOk(s, sh.lists, isWeak) && ListsOk(s', sh'.lists, isWeak) && h in View(s, sh)
    requires h.block in s.mem && OthersSameCore(s.mem, s'.mem, h.block) && h.index in sh.lists[h.block].used
    requires s'.mem.Keys == s.mem.Keys || (s'.mem.Keys == s.mem.Keys - {h.block} && sh.lists[h.block].used == [h.index])
    requires forall c :: c in s.mem && c != h.block ==> sh'.lists[c] == sh.lists[c]
    requires h.block in s'.mem ==> SameValues(s.mem[h.block], s'.mem[h.block], h.index)
    requires NoDup(sh.lists[h.block].used)
    requires h.block in s'.mem ==>
      sh'.lists[h.block].used == Without(sh.lists[h.block].used, Pos(sh.lists[h.block].used, h.index))
    ensures View(s', sh') == View(s, sh) - {h}
  {
    hide BlockOk, View, ListsOk, Without, NoDup;
    ListsKeys(s, sh, isWeak);
    ListsKeys(s', sh', isWeak);
    var v, v' := View(s, sh), View(s', sh');
    forall g ensures g in v' <==> g in v && g != h {
      ViewAt(s, sh, isWeak, g);
      ViewAt(s', sh', isWeak, g);
      if g.block == h.block && h.block in s'.mem {
        WithoutMembers(sh.lists[h.block].used, Pos(sh.lists[h.block].used, h.index), g.index);
      }
    }
    forall g | g in v' ensures v'[g] == v[g] {
      ViewAt(s, sh, isWeak, g);
      ViewAt(s', sh', isWeak, g);
    }
  }

  /** The state between FreeNode and the decision to delete the block or to chain it. */
  lemma {:induction false} FreedOk(s: Store, sh: Shape, isWeak: bool, h: Handle, nb: Block)
    requires StoreOk(s, sh, isWeak) && h.block in s.mem && h.block in sh.lists && h.index in sh.lists[h.block].used
    requires BlockOk(nb, FreedLists(sh.lists[h.block], h.index).used, FreedLists(sh.lists[h.block], h.index).free, isWeak)
    requires SameLinks(s.mem[h.block], nb) && nb.index == s.mem[h.block].index
    ensures var s1, sh1 := s.(mem := s.mem[h.block := nb]), FreedShape(sh, h);
      && ListsOk(s1, sh1.lists, isWeak) && ChainOk(s1, sh.chain) && OthersFull(s1, sh.chain, sh1.lists, h.block)
      && (sh.lists[h.block].free != [] ==> FreeChainOk(s1, sh.freeChain, sh1.lists))
      && (sh.lists[h.block].free == [] ==> FreeMissing(s1, sh.freeChain, sh1.lists, h.block))
      && s1.mem.Keys == s.mem.Keys && OthersSameCore(s.mem, s1.mem, h.block) && OthersSameLists(sh.lists, sh1.lists, h.block)
  {
    hide BlockOk, ChainOk, FreeChainOk, FullOk, NoDup, ListsOk, SameChainLinks, SameFreeLinks, OthersSameCore, OthersSameLists,
      Without, OthersFull, FreeMissing;
    var b, l := h.block, FreedLists(sh.lists[h.block], h.index);
    var s1, sh1 := s.(mem := s.mem[b := nb]), FreedShape(sh, h);
    ListsKeys(s, sh, isWeak);
    UpdateFacts(s.mem, b, nb);
    UpdateLists(sh.lists, b, l);
    ListsKept(s, s1, sh, sh1, b, isWeak);
    ChainKept(s, s1, sh.chain);
    if sh.lists[b].free != [] {
      FreeChainKept(s, s1, sh.freeChain, sh.lists, sh1.lists, b);
    } else {
      BecomesMissing(s, s1, sh.freeChain, sh.lists, sh1.lists, b);
    }
    StaysFull(s, s1, sh.chain, sh.lists, sh1.lists, b);
  }

  lemma {:induction false} BecomesMissing(s: Store, s': Store, fc: seq<BlockId>, lists: map<BlockId, Lists>, lists': map<BlockId, Lists>, b: BlockId)
    requires lists.Keys == s.mem.Keys == s'.mem.Keys == lists'.Keys && b in s.mem
    requires FreeChainOk(s, fc, lists) && s'.freeHead == s.freeHead && SameFreeLinks(s.mem, s'.mem)
    requires OthersSameLists(lists, lists', b) && lists[b].free == [] && lists'[b].free != []
    ensures FreeMissing(s', fc, lists', b)
  {
    hide NoDup, FreeLinked;
    FreeLinkedKept(s.mem, s'.mem, fc);
    forall c | c in s'.mem && c !in fc ensures NoFreeLinks(s'.mem[c]) {
      assert NoFreeLinks(s.mem[c]);
    }
  }

  lemma {:induction false} StaysFull(s: Store, s': Store, chain: seq<BlockId>, lists: map<BlockId, Lists>, lists': map<BlockId, Lists>, b: BlockId)
    requires lists.Keys == s.mem.Keys == s'.mem.Keys == lists'.Keys && ChainOk(s, chain)
    requires FullOk(s, chain, lists) && OthersSameCore(s.mem, s'.mem, b) && OthersSameLists(lists, lists', b)
    ensures OthersFull(s', chain, lists', b)
  {
    forall k | 0 <= k < |chain| - 1 && chain[k] != b
      ensures chain[k] in s'.mem && s'.mem[chain[k]].IsFull() && lists'[chain[k]].used != []
    {
      assert chain[k] in s.mem;
    }
  }

  /** How the lists look after h is disposed: its node moved, or its block gone with it. */
  ghost predicate ShapeAfterDispose(sh: Shape, sh': Shape, h: Handle) {
    && h.block in sh.lists && h.index in sh.lists[h.block].used && h.block in sh.chain
    && ((sh'.chain == sh.chain && sh'.lists == FreedShape(sh, h).lists)
        || (sh.lists[h.block].used == [h.index] && sh'.lists == sh.lists - {h.block}
            && sh'.chain == Without(sh.chain, Pos(sh.chain, h.block))))
  }

  lemma {:induction false} FreedView(s: Store, s1: Store, sh: Shape, isWeak: bool, h: Handle)
    requires StoreOk(s, sh, isWeak) && h in View(s, sh) && h.block in s.mem && h.block in sh.lists && h.index in sh.lists[h.block].used
    requires ListsOk(s1, FreedShape(sh, h).lists, isWeak) && s1.mem.Keys == s.mem.Keys && OthersSameCore(s.mem, s1.mem, h.block)
    requires SameValues(s.mem[h.block], s1.mem[h.block], h.index)
    ensures View(s1, FreedShape(sh, h)) == View(s, sh) - {h}
  {
    hide BlockOk, View, ChainOk, FreeChainOk, FullOk, Without, NoDup, SameValues, OthersSameCore;
    BlockAt(s, sh, isWeak, h.block);
    UsedNoDup(s.mem[h.block], sh.lists[h.block], isWeak);
    ViewPop(s, s1, sh, FreedShape(sh, h), isWeak, h);
  }

  lemma UsedNoDup(b: Block, l: Lists, isWeak: bool)
    requires BlockOk(b, l.used, l.free, isWeak)
    ensures NoDup(l.used)
  {
  }

  lemma {:induction false} InChain(s: Store, chain: seq<BlockId>, b: BlockId)
    requires ChainOk(s, chain) && b in s.mem
    ensures b in chain && (s.top == s.last <==> |chain| == 1)
  {
    assert |chain| > 1 ==> chain[0] != chain[|chain| - 1];
  }

  /** The test before chaining a block: it tells exactly whether the block is in the free chain. */
  lemma {:induction false} InFreeChain(s: Store, sh: Shape, isWeak: bool, b: BlockId)
    requires StoreOk(s, sh, isWeak) && b in s.mem
    ensures b in sh.freeChain <==> sh.lists[b].free != []
    ensures b !in sh.freeChain <==> Some(b) != s.freeHead && s.mem[b].freeNext.None? && s.mem[b].freePrev.None?
  {
    hide BlockOk, ChainOk, FullOk;
    if b in sh.freeChain {
      var k := Pos(sh.freeChain, b);
      assert FreeLinkedAt(s.mem[sh.freeChain[k]], sh.freeChain, k);
    } else {
      assert NoFreeLinks(s.mem[b]);
      assert s.freeHead.Some? ==> s.freeHead.value in sh.freeChain;
    }
  }

  lemma {:induction false} FullBlockHasFree(s: Store, sh: Shape, isWeak: bool, h: Handle)
    requires ListsOk(s, sh.lists, isWeak) && h.block in s.mem && h.index in sh.lists[h.block].used && s.mem[h.block].IsFull()
    requires FreedLists(sh.lists[h.block], h.index).used == []
    ensures sh.lists[h.block].used == [h.index] && sh.lists[h.block].free != []
  {
    var l := sh.lists[h.block];
    BlockAt(s, sh, isWeak, h.block);
    assert |l.used| == 1;
    var other := if h.index == 0 then 1 else 0;
    assert other in l.used || other in l.free;
  }

  lemma {:induction false} DeletedView(s: Store, s1: Store, sh: Shape, isWeak: bool, h: Handle, sh': Shape)
    requires ListsOk(s, sh.lists, isWeak) && h in View(s, sh) && h.block in s.mem && sh.lists[h.block].used == [h.index]
    requires s1.mem.Keys == s.mem.Keys && OthersSameCore(s.mem, s1.mem, h.block) && sh'.lists == sh.lists - {h.block}
    requires ListsOk(DeleteBlock(s1, h.block), sh'.lists, isWeak)
    ensures View(DeleteBlock(s1, h.block), sh') == View(s, sh) - {h}
  {
    hide BlockOk, View, ListsOk, DeleteBlock;
    ListsKeys(s, sh, isWeak);
    DeleteKeys(s1, h.block);
    BlockAt(s, sh, isWeak, h.block);
    UsedNoDup(s.mem[h.block], sh.lists[h.block], isWeak);
    forall c | c in s.mem && c != h.block ensures c in DeleteBlock(s1, h.block).mem && SameCore(s.mem[c], DeleteBlock(s1, h.block).mem[c]) {
      Survivor(s1, h.block, c);
    }
    ViewPop(s, DeleteBlock(s1, h.block), sh, sh', isWeak, h);
  }

  lemma {:induction false} FullAgain(s: Store, sh: Shape, isWeak: bool, b: BlockId)
    requires ListsOk(s, sh.lists, isWeak) && ChainOk(s, sh.chain) && OthersFull(s, sh.chain, sh.lists, b) && b in s.mem
    requires b == s.last || (s.mem[b].IsFull() && sh.lists[b].used != [])
    ensures FullOk(s, sh.chain, sh.lists)
  {
    hide BlockOk;
  }

  lemma {:induction false} AddedOk(s: Store, sh: Shape, isWeak: bool, b: BlockId)
    requires ListsOk(s, sh.lists, isWeak) && ChainOk(s, sh.chain) && FullOk(s, sh.chain, sh.lists) && b in s.mem
    requires FreeMissing(s, sh.freeChain, sh.lists, b)
    ensures var s', sh' := AddToFree(s, b), sh.(freeChain := [b] + sh.freeChain);
      StoreOk(s', sh', isWeak) && View(s', sh') == View(s, sh) && s'.mem.Keys == s.mem.Keys
  {
    hide BlockOk, View, ChainOk, FullOk, FreeChainOk, AddToFree, SameChainLinks, FreeMissing;
    var s', sh' := AddToFree(s, b), sh.(freeChain := [b] + sh.freeChain);
    AddToFreeOk(s, sh.freeChain, sh.lists, b);
    AddToFreeFields(s, b);
    SameCoreOk(s.mem[b], s'.mem[b], sh.lists[b].used, sh.lists[b].free, isWeak);
    ListsKept(s, s', sh, sh', b, isWeak);
    ChainKept(s, s', sh.chain);
    FullSame(s, s', sh.chain, sh.lists);
    ViewSame(s, s', sh, sh', isWeak, b);
  }

  /** A block that is not the last and not to be deleted is still in use. */
  lemma {:induction false} KeptBlock(s: Store, sh: Shape, isWeak: bool, b: BlockId, nb: Block, used: seq<nat>)
    requires StoreOk(s, sh, isWeak) && b in s.mem && nb.index == s.mem[b].index && (nb.usedList.Some? <==> used != [])
    requires nb.HasUsagedNode() || s.top == s.last
    ensures b == s.last || (nb.IsFull() && used != [])
  {
    hide BlockOk, ListsOk, FreeChainOk;
    FullUnlessLast(s, sh, isWeak, b);
    InChain(s, sh.chain, b);
  }

  lemma {:induction false} LastInUse(l: Lists, i: nat)
    requires i in l.used
    ensures FreedLists(l, i).used == [] <==> l.used == [i]
  {
    if |l.used| == 1 { assert l.used == [l.used[0]]; }
  }

  /** The block goes with the handle: all its nodes have been handed out, this is the last one in use, and there is another
      block. */
  ghost predicate Emptied(s: Store, sh: Shape, h: Handle) {
    && h.block in s.mem && h.block in sh.lists && s.top != s.last
    && s.mem[h.block].IsFull() && sh.lists[h.block].used == [h.index]
  }

  /** Disposing a live handle removes it from the population and nothing else. */
  method DisposeGlobalHandleInner(s: Store, isWeak: bool, h: Handle, ghost sh: Shape) returns (s': Store, ghost sh': Shape)
    requires StoreOk(s, sh, isWeak) && h in View(s, sh)
    ensures StoreOk(s', sh', isWeak) && View(s', sh') == View(s, sh) - {h}
    ensures ShapeAfterDispose(sh, sh', h)
    ensures s'.mem.Keys == if Emptied(s, sh, h) then s.mem.Keys - {h.block} else s.mem.Keys
  {
    hide BlockOk, View, FreeNode, ChainOk, FreeChainOk, FullOk, ListsOk, AddToFree, DeleteBlock, NoDup, OthersFull, Without,
      FreeMissing, OthersSameCore, OthersSameLists, SameValues;
    FreeNodeCallable(s, sh, isWeak, h);
    var b := h.block;
    var nb := FreeNode(s.mem[b], h.index);
    FreedOk(s, sh, isWeak, h, nb);
    var s1 := s.(mem := s.mem[b := nb]);
    ghost var sh1 := FreedShape(sh, h);
    FreedView(s, s1, sh, isWeak, h);
    InChain(s, sh.chain, b);
    InFreeChain(s, sh, isWeak, b);
    LastInUse(sh.lists[b], h.index);
    if !nb.HasUsagedNode() && s.top != s.last {
      FullBlockHasFree(s, sh, isWeak, h);
      DeleteKeys(s1, b);
      DeleteOk(s1, sh1, b, isWeak);
      s' := DeleteBlock(s1, b);
      sh' := Shape(Without(sh.chain, Pos(sh.chain, b)), Without(sh.freeChain, Pos(sh.freeChain, b)), sh1.lists - {b});
      assert sh'.lists == sh.lists - {b};
      DeletedView(s, s1, sh, isWeak, h, sh');
    } else {
      s', sh' := s1, sh1;
      KeptBlock(s, sh, isWeak, b, nb, sh1.lists[b].used);
      FullAgain(s1, sh1, isWeak, b);
      // Chain the block unless it is there already.
      if Some(b) != s.freeHead && nb.freeNext.None? && nb.freePrev.None? {
        AddedOk(s1, sh1, isWeak, b);
        s' := AddToFree(s1, b);
        sh' := sh1.(freeChain := [b] + sh.freeChain);
      }
    }
  }
}
