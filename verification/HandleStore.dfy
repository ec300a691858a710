/** One population of global handles: a chain of blocks, the chain of blocks with a free node, and their reclamation. */
module HandleStore {
  import opened Common
  import opened NodeLists

  datatype Handle = Handle(block: BlockId, index: nat)

  // Blocks live in native memory; deleting one removes it, so a dangling link would not resolve.
  datatype Store = Store(mem: map<BlockId, Block>, top: BlockId, last: BlockId, freeHead: Option<BlockId>)

  // The lists behind the links, for specification.
  datatype Lists = Lists(used: seq<nat>, free: seq<nat>)
  datatype Shape = Shape(chain: seq<BlockId>, freeChain: seq<BlockId>, lists: map<BlockId, Lists>)

  ghost predicate Linked(mem: map<BlockId, Block>, chain: seq<BlockId>) {
    forall k :: 0 <= k < |chain| ==> chain[k] in mem && LinkedAt(mem[chain[k]], chain, k)
  }

  ghost predicate LinkedAt(b: Block, chain: seq<BlockId>, k: nat) {
    b.next == At(chain, k + 1) && b.prev == At(chain, k - 1)
  }

  /** The chain holds every block exactly once, doubly linked from top to last. */
  ghost predicate ChainOk(s: Store, chain: seq<BlockId>) {
    && chain != [] && NoDup(chain) && s.top == chain[0] && s.last == chain[|chain| - 1]
    && (forall b :: b in s.mem <==> b in chain)
    && Linked(s.mem, chain)
  }

  ghost predicate FreeLinked(mem: map<BlockId, Block>, fc: seq<BlockId>) {
    forall k :: 0 <= k < |fc| ==> fc[k] in mem && FreeLinkedAt(mem[fc[k]], fc, k)
  }

  ghost predicate FreeLinkedAt(b: Block, fc: seq<BlockId>, k: nat) {
    b.freeNext == At(fc, k + 1) && b.freePrev == At(fc, k - 1)
  }

  ghost predicate NoFreeLinks(b: Block) {
    b.freeNext.None? && b.freePrev.None?
  }

  /** The free chain holds exactly the blocks with a free node, doubly linked. */
  ghost predicate FreeChainOk(s: Store, fc: seq<BlockId>, lists: map<BlockId, Lists>)
    requires lists.Keys == s.mem.Keys
  {
    && NoDup(fc) && s.freeHead == At(fc, 0) && FreeLinked(s.mem, fc)
    && (forall b :: b in s.mem ==> (b in fc <==> lists[b].free != []))
    && (forall b :: b in s.mem && b !in fc ==> NoFreeLinks(s.mem[b]))
  }

  ghost predicate ListsOk(s: Store, lists: map<BlockId, Lists>, isWeak: bool) {
    && lists.Keys == s.mem.Keys
    && forall b :: b in s.mem ==> BlockOk(s.mem[b], lists[b].used, lists[b].free, isWeak)
  }

  /** Every block but the last has handed out all its nodes and still has one in use. */
  ghost predicate FullOk(s: Store, chain: seq<BlockId>, lists: map<BlockId, Lists>)
    requires lists.Keys == s.mem.Keys
  {
    forall k :: 0 <= k < |chain| - 1 && chain[k] in s.mem ==> s.mem[chain[k]].IsFull() && lists[chain[k]].used != []
  }

  ghost predicate StoreOk(s: Store, sh: Shape, isWeak: bool) {
    && ListsOk(s, sh.lists, isWeak) && ChainOk(s, sh.chain) && FreeChainOk(s, sh.freeChain, sh.lists)
    && FullOk(s, sh.chain, sh.lists)
  }

  // ----- what a population holds -----

  ghost function LiveSet(sh: Shape): (r: set<Handle>) {
    set b, i | b in sh.lists && i in sh.lists[b].used :: Handle(b, i)
  }

  /** The live handles and the value each one keeps alive. */
  ghost function View(s: Store, sh: Shape): (r: map<Handle, Value>) {
    map h | h in LiveSet(sh) && h.block in s.mem && h.index < |s.mem[h.block].nodes| :: s.mem[h.block].nodes[h.index].obj
  }

  lemma {:induction false} ViewAt(s: Store, sh: Shape, isWeak: bool, h: Handle)
    requires ListsOk(s, sh.lists, isWeak)
    ensures h in View(s, sh) <==> h.block in s.mem && h.index in sh.lists[h.block].used
    ensures h in View(s, sh) ==> h.index < |s.mem[h.block].nodes| && View(s, sh)[h] == s.mem[h.block].nodes[h.index].obj
  {
    if h.block in s.mem && h.index in sh.lists[h.block].used {
      var b, used := s.mem[h.block], sh.lists[h.block].used;
      assert BlockOk(b, used, sh.lists[h.block].free, isWeak);
      var k :| 0 <= k < |used| && used[k] == h.index;
      assert used[k] < |b.nodes|;
      assert h in LiveSet(sh);
    }
  }

  /** A live node is one that is in use. */
  lemma {:induction false} UsingIsLive(s: Store, sh: Shape, isWeak: bool, h: Handle)
    requires ListsOk(s, sh.lists, isWeak) && h.block in s.mem && h.index < BLOCK_SIZE
    ensures h.index < |s.mem[h.block].nodes|
    ensures s.mem[h.block].nodes[h.index].isUsing <==> h in View(s, sh)
    ensures h !in View(s, sh) && h.index < s.mem[h.block].index ==> s.mem[h.block].nodes[h.index].obj == UNDEFINED
    ensures s.mem[h.block].nodes[h.index].isWeak == isWeak
  {
    ViewAt(s, sh, isWeak, h);
    var b, l := s.mem[h.block], sh.lists[h.block];
    assert BlockOk(b, l.used, l.free, isWeak);
    if h.index in l.used {
      var k :| 0 <= k < |l.used| && l.used[k] == h.index;
      assert UsedNodeOk(b.nodes[l.used[k]], l.used, k);
    } else if h.index in l.free {
      var k :| 0 <= k < |l.free| && l.free[k] == h.index;
      assert FreeNodeOk(b.nodes[l.free[k]], l.free, k);
    }
  }

  // ----- changing one block and links only elsewhere -----

  /** A block that differs from another in its links at most. */
  ghost predicate SameCore(a: Block, b: Block) {
    a.nodes == b.nodes && a.freeList == b.freeList && a.usedList == b.usedList && a.index == b.index
  }

  lemma {:induction false} SameCoreOk(a: Block, b: Block, used: seq<nat>, free: seq<nat>, isWeak: bool)
    requires BlockOk(a, used, free, isWeak) && SameCore(a, b)
    ensures BlockOk(b, used, free, isWeak)
  {
    hide UsedNodeOk, FreeNodeOk;
  }

  ghost predicate OthersSameCore(mem: map<BlockId, Block>, mem': map<BlockId, Block>, b: BlockId) {
    forall c :: c in mem && c != b ==> c in mem' && SameCore(mem[c], mem'[c])
  }

  /** Only block b changed its lists: the others keep theirs. */
  lemma {:induction false} ListsKept(s: Store, s': Store, sh: Shape, sh': Shape, b: BlockId, isWeak: bool)
    requires ListsOk(s, sh.lists, isWeak) && OthersSameCore(s.mem, s'.mem, b) && b in s.mem
    requires s'.mem.Keys == s.mem.Keys && OthersSameLists(sh.lists, sh'.lists, b)
    requires BlockOk(s'.mem[b], sh'.lists[b].used, sh'.lists[b].free, isWeak)
    ensures ListsOk(s', sh'.lists, isWeak)
  {
    hide BlockOk;
    forall c | c in s'.mem ensures BlockOk(s'.mem[c], sh'.lists[c].used, sh'.lists[c].free, isWeak) {
      if c != b { SameCoreOk(s.mem[c], s'.mem[c], sh.lists[c].used, sh.lists[c].free, isWeak); }
    }
  }

  /** Putting node i of block b in use adds that handle and changes no other. */
  lemma {:induction false} ViewPush(s: Store, s': Store, sh: Shape, sh': Shape, b: BlockId, i: nat, value: Value, isWeak: bool)
    requires ListsOk(s, sh.lists, isWeak) && ListsOk(s', sh'.lists, isWeak) && OthersSameCore(s.mem, s'.mem, b)
    requires b in s'.mem && s'.mem.Keys == s.mem.Keys + {b}
    requires forall c :: c in s.mem && c != b ==> sh'.lists[c] == sh.lists[c]
    requires sh'.lists[b].used == [i] + (if b in s.mem then sh.lists[b].used else [])
    requires i < |s'.mem[b].nodes| && s'.mem[b].nodes[i].obj == value
    requires b in s.mem ==> i !in sh.lists[b].used && SameValues(s.mem[b], s'.mem[b], i)
    ensures Handle(b, i) !in View(s, sh) && View(s', sh') == View(s, sh)[Handle(b, i) := value]
  {
    hide BlockOk, View, ListsOk;
    ListsKeys(s, sh, isWeak);
    ListsKeys(s', sh', isWeak);
    ViewAt(s, sh, isWeak, Handle(b, i));
    var v, v' := View(s, sh), View(s', sh');
    forall h ensures h in v' <==> h == Handle(b, i) || h in v {
      ViewAt(s, sh, isWeak, h);
      ViewAt(s', sh', isWeak, h);
    }
    forall h | h in v' ensures v'[h] == if h == Handle(b, i) then value else v[h] {
      ViewAt(s, sh, isWeak, h);
      ViewAt(s', sh', isWeak, h);
    }
  }

  lemma ListsKeys(s: Store, sh: Shape, isWeak: bool)
    requires ListsOk(s, sh.lists, isWeak)
    ensures sh.lists.Keys == s.mem.Keys
  {
  }

  // ----- allocation -----

  ghost predicate SameChainLinks(mem: map<BlockId, Block>, mem': map<BlockId, Block>) {
    mem'.Keys == mem.Keys && forall c :: c in mem ==> mem'[c].next == mem[c].next && mem'[c].prev == mem[c].prev
  }

  ghost predicate SameFreeLinks(mem: map<BlockId, Block>, mem': map<BlockId, Block>) {
    mem'.Keys == mem.Keys && forall c :: c in mem ==> mem'[c].freeNext == mem[c].freeNext && mem'[c].freePrev == mem[c].freePrev
  }

  /** Only the lists of block b changed. */
  ghost predicate OthersSameLists(lists: map<BlockId, Lists>, lists': map<BlockId, Lists>, b: BlockId) {
    lists'.Keys == lists.Keys && forall c :: c in lists && c != b ==> lists'[c] == lists[c]
  }

  lemma {:induction false} UpdateFacts(mem: map<BlockId, Block>, b: BlockId, nb: Block)
    requires b in mem && SameLinks(mem[b], nb)
    ensures var mem' := mem[b := nb];
      SameChainLinks(mem, mem') && SameFreeLinks(mem, mem') && OthersSameCore(mem, mem', b) && mem'.Keys == mem.Keys
  {
    assert mem[b := nb].Keys == mem.Keys;
  }

  lemma {:induction false} UpdateLists(lists: map<BlockId, Lists>, b: BlockId, l: Lists)
    requires b in lists
    ensures OthersSameLists(lists, lists[b := l], b) && lists[b := l].Keys == lists.Keys
  {
    assert lists[b := l].Keys == lists.Keys;
  }

  lemma {:induction false} ChainKept(s: Store, s': Store, chain: seq<BlockId>)
    requires ChainOk(s, chain) && SameChainLinks(s.mem, s'.mem) && s'.top == s.top && s'.last == s.last
    ensures ChainOk(s', chain)
  {
    forall k | 0 <= k < |chain| ensures chain[k] in s'.mem && LinkedAt(s'.mem[chain[k]], chain, k) {
      assert LinkedAt(s.mem[chain[k]], chain, k);
    }
  }

  lemma {:induction false} ChainEnds(s: Store, chain: seq<BlockId>)
    requires ChainOk(s, chain)
    ensures chain != [] && NoDup(chain) && s.last == chain[|chain| - 1] && s.top == chain[0]
    ensures s.top in s.mem && s.last in s.mem
  {
    assert chain[|chain| - 1] in chain && chain[0] in chain;
  }

  lemma {:induction false} FreeLinkedKept(mem: map<BlockId, Block>, mem': map<BlockId, Block>, fc: seq<BlockId>)
    requires FreeLinked(mem, fc) && SameFreeLinks(mem, mem')
    ensures FreeLinked(mem', fc)
  {
    forall k | 0 <= k < |fc| ensures fc[k] in mem' && FreeLinkedAt(mem'[fc[k]], fc, k) {
      assert FreeLinkedAt(mem[fc[k]], fc, k);
    }
  }

  lemma {:induction false} FreeChainKept(s: Store, s': Store, fc: seq<BlockId>, lists: map<BlockId, Lists>, lists': map<BlockId, Lists>, b: BlockId)
    requires lists.Keys == s.mem.Keys == s'.mem.Keys == lists'.Keys
    requires FreeChainOk(s, fc, lists) && s'.freeHead == s.freeHead && SameFreeLinks(s.mem, s'.mem)
    requires OthersSameLists(lists, lists', b) && b in lists && (lists'[b].free != [] <==> lists[b].free != [])
    ensures FreeChainOk(s', fc, lists')
  {
    hide NoDup, FreeLinked;
    FreeLinkedKept(s.mem, s'.mem, fc);
    forall c | c in s'.mem && c !in fc ensures NoFreeLinks(s'.mem[c]) {
      assert NoFreeLinks(s.mem[c]);
    }
  }

  lemma FullKept(s: Store, s': Store, chain: seq<BlockId>, lists: map<BlockId, Lists>, lists': map<BlockId, Lists>, b: BlockId)
    requires lists.Keys == s.mem.Keys == s'.mem.Keys == lists'.Keys && b in s.mem
    requires FullOk(s, chain, lists) && NoDup(chain) && chain != []
    requires OthersSameCore(s.mem, s'.mem, b) && OthersSameLists(lists, lists', b)
    requires b == chain[|chain| - 1] || (s'.mem[b].IsFull() && lists'[b].used != [])
    ensures FullOk(s', chain, lists')
  {
  }

  /** Replaces block b by one with the same links. */
  lemma {:induction false} ReplaceOk(s: Store, sh: Shape, b: BlockId, nb: Block, l: Lists, isWeak: bool)
    requires StoreOk(s, sh, isWeak) && b in s.mem && SameLinks(s.mem[b], nb)
    requires BlockOk(nb, l.used, l.free, isWeak) && (l.free != [] <==> sh.lists[b].free != [])
    requires b == s.last || (nb.IsFull() && l.used != [])
    ensures StoreOk(s.(mem := s.mem[b := nb]), sh.(lists := sh.lists[b := l]), isWeak)
  {
    hide BlockOk, ChainOk, FreeChainOk, FullOk, NoDup, ListsOk, SameChainLinks, SameFreeLinks, OthersSameCore, OthersSameLists;
    ChainEnds(s, sh.chain);
    ListsKeys(s, sh, isWeak);
    UpdateFacts(s.mem, b, nb);
    UpdateLists(sh.lists, b, l);
    var s', sh' := s.(mem := s.mem[b := nb]), sh.(lists := sh.lists[b := l]);
    ListsKept(s, s', sh, sh', b, isWeak);
    ChainKept(s, s', sh.chain);
    FreeChainKept(s, s', sh.freeChain, sh.lists, sh'.lists, b);
    FullKept(s, s', sh.chain, sh.lists, sh'.lists, b);
  }

  lemma {:induction false} LastAndHead(s: Store, sh: Shape, isWeak: bool)
    requires StoreOk(s, sh, isWeak)
    ensures s.last in s.mem && s.top in s.mem && sh.lists.Keys == s.mem.Keys
    ensures BlockOk(s.mem[s.last], sh.lists[s.last].used, sh.lists[s.last].free, isWeak)
    ensures s.freeHead.Some? ==> s.freeHead.value in s.mem && sh.lists[s.freeHead.value].free != []
    ensures s.freeHead.Some? ==>
      BlockOk(s.mem[s.freeHead.value], sh.lists[s.freeHead.value].used, sh.lists[s.freeHead.value].free, isWeak)
  {
    hide BlockOk;
    assert sh.chain[|sh.chain| - 1] in sh.chain && sh.chain[0] in sh.chain;
    if s.freeHead.Some? { assert sh.freeChain[0] in s.mem; }
  }

  /** Case 1: the last block still has nodes that were never used. */
  lemma {:induction false} NewInLast(s: Store, sh: Shape, isWeak: bool, value: Value)
    requires StoreOk(s, sh, isWeak) && s.last in s.mem && |s.mem[s.last].nodes| == BLOCK_SIZE && !s.mem[s.last].IsFull()
    ensures var b, i := s.last, s.mem[s.last].index;
      b in sh.lists &&
      var s', sh' := s.(mem := s.mem[b := NewNode(s.mem[b], value)]),
                     sh.(lists := sh.lists[b := Lists([i] + sh.lists[b].used, sh.lists[b].free)]);
      StoreOk(s', sh', isWeak) && Handle(b, i) !in View(s, sh) && View(s', sh') == View(s, sh)[Handle(b, i) := value]
  {
    hide BlockOk, View, NewNode, ChainOk, FreeChainOk, FullOk, ListsOk;
    LastAndHead(s, sh, isWeak);
    var b, i := s.last, s.mem[s.last].index;
    var l := sh.lists[b];
    NewNodeOk(s.mem[b], l.used, l.free, isWeak, value);
    NotYetUsed(s.mem[b], l.used, l.free, isWeak);
    var s', sh' := s.(mem := s.mem[b := NewNode(s.mem[b], value)]), sh.(lists := sh.lists[b := Lists([i] + l.used, l.free)]);
    ReplaceOk(s, sh, b, NewNode(s.mem[b], value), Lists([i] + l.used, l.free), isWeak);
    ViewPush(s, s', sh, sh', b, i, value, isWeak);
  }

  lemma NotYetUsed(b: Block, used: seq<nat>, free: seq<nat>, isWeak: bool)
    requires BlockOk(b, used, free, isWeak)
    ensures b.index !in used
  {
  }

  /** Takes the head block out of the free chain. */
  function PopFree(s: Store, f: BlockId): (s': Store)
    requires f in s.mem
  {
    var next := s.mem[f].freeNext;
    var mem := s.mem[f := s.mem[f].(freeNext := None, freePrev := None)];
    var mem' := if next.Some? && next.value in mem then mem[next.value := mem[next.value].(freePrev := None)] else mem;
    s.(mem := mem', freeHead := next)
  }

  /** s and sh are well formed except that the head of the free chain has lost its last free node. */
  ghost predicate HeadExhausted(s: Store, sh: Shape, isWeak: bool) {
    && ListsOk(s, sh.lists, isWeak) && ChainOk(s, sh.chain) && FullOk(s, sh.chain, sh.lists)
    && sh.freeChain != [] && NoDup(sh.freeChain) && s.freeHead == Some(sh.freeChain[0]) && FreeLinked(s.mem, sh.freeChain)
    && (forall b :: b in s.mem ==> (b in sh.freeChain[1..] <==> sh.lists[b].free != []))
    && (forall b :: b in s.mem && b !in sh.freeChain ==> NoFreeLinks(s.mem[b]))
  }

  lemma {:induction false} PopFreeOk(s: Store, sh: Shape, isWeak: bool)
    requires HeadExhausted(s, sh, isWeak) && s.freeHead.value in s.mem
    ensures StoreOk(PopFree(s, s.freeHead.value), sh.(freeChain := sh.freeChain[1..]), isWeak)
    ensures OthersSameCore(s.mem, PopFree(s, s.freeHead.value).mem, s.freeHead.value)
    ensures PopFree(s, s.freeHead.value).mem.Keys == s.mem.Keys
    ensures SameCore(s.mem[s.freeHead.value], PopFree(s, s.freeHead.value).mem[s.freeHead.value])
  {
    hide BlockOk, ChainOk, FullOk, FreeLinked, NoDup, PopFree, SameChainLinks;
    var f, s' := s.freeHead.value, PopFree(s, s.freeHead.value);
    PopFreeLinks(s, sh.freeChain);
    SameCoreOk(s.mem[f], s'.mem[f], sh.lists[f].used, sh.lists[f].free, isWeak);
    ListsKept(s, s', sh, sh, f, isWeak);
    ChainKept(s, s', sh.chain);
    FullSame(s, s', sh.chain, sh.lists);
    PopFreeChain(s, s', sh.freeChain, sh.lists);
  }

  /** Once the exhausted head is out, the chain holds exactly the blocks with a free node. */
  lemma {:induction false} PopFreeChain(s: Store, s': Store, fc: seq<BlockId>, lists: map<BlockId, Lists>)
    requires fc != [] && lists.Keys == s.mem.Keys == s'.mem.Keys && fc[0] in s.mem
    requires s'.freeHead == At(fc[1..], 0) && FreeLinked(s'.mem, fc[1..]) && NoDup(fc[1..]) && NoFreeLinks(s'.mem[fc[0]])
    requires forall c :: c in s.mem ==> (c in fc[1..] <==> lists[c].free != [])
    requires forall c :: c in s.mem && c !in fc ==> NoFreeLinks(s.mem[c]) && s'.mem[c] == s.mem[c]
    ensures FreeChainOk(s', fc[1..], lists)
  {
    hide FreeLinked, NoDup, NoFreeLinks;
    forall c | c in s'.mem && c !in fc[1..] ensures NoFreeLinks(s'.mem[c]) {
      if c != fc[0] { assert c !in fc; }
    }
  }

  lemma FullSame(s: Store, s': Store, chain: seq<BlockId>, lists: map<BlockId, Lists>)
    requires lists.Keys == s.mem.Keys == s'.mem.Keys && FullOk(s, chain, lists)
    requires forall c :: c in s.mem ==> s'.mem[c].index == s.mem[c].index
    ensures FullOk(s', chain, lists)
  {
  }

  lemma {:induction false} PopFreeLinks(s: Store, fc: seq<BlockId>)
    requires fc != [] && NoDup(fc) && s.freeHead == Some(fc[0]) && FreeLinked(s.mem, fc) && fc[0] in s.mem
    ensures var s' := PopFree(s, fc[0]);
      && s'.mem.Keys == s.mem.Keys && s'.top == s.top && s'.last == s.last
      && s'.freeHead == At(fc[1..], 0) && FreeLinked(s'.mem, fc[1..]) && NoDup(fc[1..])
      && NoFreeLinks(s'.mem[fc[0]])
      && (forall c :: c in s.mem ==> SameCore(s.mem[c], s'.mem[c]))
      && SameChainLinks(s.mem, s'.mem)
      && (forall c :: c in s.mem && c !in fc ==> s'.mem[c] == s.mem[c])
  {
    PopFreeKeys(s, fc);
    forall c | c in s.mem
      ensures SameCore(s.mem[c], PopFree(s, fc[0]).mem[c])
      ensures PopFree(s, fc[0]).mem[c].next == s.mem[c].next && PopFree(s, fc[0]).mem[c].prev == s.mem[c].prev
      ensures c !in fc ==> PopFree(s, fc[0]).mem[c] == s.mem[c]
    {
      PopFreeBlock(s, fc, c);
    }
    forall k | 0 <= k < |fc[1..]|
      ensures fc[1..][k] in PopFree(s, fc[0]).mem && FreeLinkedAt(PopFree(s, fc[0]).mem[fc[1..][k]], fc[1..], k)
    {
      PopFreeBlock(s, fc, fc[k + 1]);
      assert FreeLinkedAt(s.mem[fc[k + 1]], fc, k + 1);
    }
    PopFreeBlock(s, fc, fc[0]);
  }

  lemma {:induction false} PopFreeKeys(s: Store, fc: seq<BlockId>)
    requires fc != [] && NoDup(fc) && s.freeHead == Some(fc[0]) && FreeLinked(s.mem, fc) && fc[0] in s.mem
    ensures PopFree(s, fc[0]).mem.Keys == s.mem.Keys && PopFree(s, fc[0]).freeHead == At(fc[1..], 0)
  {
    assert FreeLinkedAt(s.mem[fc[0]], fc, 0);
  }

  /** The head loses its links, the block behind it its link back, and no other block changes. */
  lemma {:induction false} PopFreeBlock(s: Store, fc: seq<BlockId>, c: BlockId)
    requires fc != [] && NoDup(fc) && s.freeHead == Some(fc[0]) && FreeLinked(s.mem, fc) && fc[0] in s.mem && c in s.mem
    ensures var m := PopFree(s, fc[0]).mem;
      && c in m
      && m[c] == (if c == fc[0] then s.mem[c].(freeNext := None, freePrev := None)
                  else if |fc| > 1 && c == fc[1] then s.mem[c].(freePrev := None) else s.mem[c])
  {
    assert FreeLinkedAt(s.mem[fc[0]], fc, 0);
    if |fc| > 1 { assert fc[1] in s.mem; }
  }

  lemma {:induction false} FullUnlessLast(s: Store, sh: Shape, isWeak: bool, f: BlockId)
    requires StoreOk(s, sh, isWeak) && f in s.mem
    ensures f == s.last || (s.mem[f].IsFull() && sh.lists[f].used != [])
  {
    hide BlockOk;
    var k :| 0 <= k < |sh.chain| && sh.chain[k] == f;
  }

  /** Case 2, while the head of the free chain keeps a free node. */
  lemma {:induction false} NewInFree(s: Store, sh: Shape, isWeak: bool, value: Value)
    requires StoreOk(s, sh, isWeak) && s.freeHead.Some?
    ensures s.freeHead.value in s.mem && s.freeHead.value in sh.lists
    ensures var f := s.freeHead.value; var b := s.mem[f];
      && b.HasFreeNode() && b.freeList.value < |b.nodes| && sh.lists[f].free != [] && sh.lists[f].free[0] == b.freeList.value
      && var l := Lists([b.freeList.value] + sh.lists[f].used, sh.lists[f].free[1..]);
         var nb, s', sh' := GetFreeNode(b, value), s.(mem := s.mem[f := GetFreeNode(b, value)]), sh.(lists := sh.lists[f := l]);
         && ListsOk(s', sh'.lists, isWeak) && (nb.HasFreeNode() <==> l.free != [])
         && Handle(f, b.freeList.value) !in View(s, sh)
         && View(s', sh') == View(s, sh)[Handle(f, b.freeList.value) := value]
         && (nb.HasFreeNode() ==> StoreOk(s', sh', isWeak))
         && (!nb.HasFreeNode() ==> HeadExhausted(s', sh', isWeak))
  {
    hide BlockOk, View, GetFreeNode, ChainOk, FreeChainOk, FullOk, ListsOk, HeadExhausted;
    LastAndHead(s, sh, isWeak);
    var f := s.freeHead.value;
    var b, l0 := s.mem[f], sh.lists[f];
    HasFreeIff(b, l0.used, l0.free, isWeak);
    GetFreeNodeOk(b, l0.used, l0.free, isWeak, value);
    var i := l0.free[0];
    var nb, l := GetFreeNode(b, value), Lists([i] + l0.used, l0.free[1..]);
    HasFreeIff(nb, l.used, l.free, isWeak);
    var s', sh' := s.(mem := s.mem[f := nb]), sh.(lists := sh.lists[f := l]);
    UpdateFacts(s.mem, f, nb);
    UpdateLists(sh.lists, f, l);
    assert ListsOk(s', sh'.lists, isWeak) by { ListsKept(s, s', sh, sh', f, isWeak); }
    assert Handle(f, i) !in View(s, sh) && View(s', sh') == View(s, sh)[Handle(f, i) := value] by {
      FreeNotUsed(b, l0.used, l0.free, isWeak, i);
      ViewPush(s, s', sh, sh', f, i, value, isWeak);
    }
    FullUnlessLast(s, sh, isWeak, f);
    if nb.HasFreeNode() {
      ReplaceOk(s, sh, f, nb, l, isWeak);
    } else {
      ExhaustedOk(s, sh, f, nb, l, isWeak);
    }
  }

  lemma HasFreeIff(b: Block, used: seq<nat>, free: seq<nat>, isWeak: bool)
    requires BlockOk(b, used, free, isWeak)
    ensures b.HasFreeNode() <==> free != []
  {
  }

  lemma FreeNotUsed(b: Block, used: seq<nat>, free: seq<nat>, isWeak: bool, i: nat)
    requires BlockOk(b, used, free, isWeak) && i in free
    ensures i !in used
  {
  }

  lemma {:induction false} ExhaustedOk(s: Store, sh: Shape, f: BlockId, nb: Block, l: Lists, isWeak: bool)
    requires StoreOk(s, sh, isWeak) && s.freeHead == Some(f) && f in s.mem && SameLinks(s.mem[f], nb)
    requires BlockOk(nb, l.used, l.free, isWeak) && l.free == [] && l.used != []
    requires f == s.last || nb.IsFull()
    ensures HeadExhausted(s.(mem := s.mem[f := nb]), sh.(lists := sh.lists[f := l]), isWeak)
  {
    hide BlockOk, ChainOk, FullOk, ListsOk, NoDup, FreeChainOk, SameChainLinks, SameFreeLinks, OthersSameCore,
      OthersSameLists, FreeLinked, NoFreeLinks;
    ChainEnds(s, sh.chain);
    ListsKeys(s, sh, isWeak);
    UpdateFacts(s.mem, f, nb);
    UpdateLists(sh.lists, f, l);
    var s', sh' := s.(mem := s.mem[f := nb]), sh.(lists := sh.lists[f := l]);
    ListsKept(s, s', sh, sh', f, isWeak);
    ChainKept(s, s', sh.chain);
    FullKept(s, s', sh.chain, sh.lists, sh'.lists, f);
    ExhaustedChain(s, s', sh.freeChain, sh.lists, sh'.lists, f);
  }

  lemma {:induction false} ExhaustedChain(s: Store, s': Store, fc: seq<BlockId>, lists: map<BlockId, Lists>, lists': map<BlockId, Lists>, f: BlockId)
    requires lists.Keys == s.mem.Keys == s'.mem.Keys == lists'.Keys && FreeChainOk(s, fc, lists) && s.freeHead == Some(f)
    requires s'.freeHead == s.freeHead && f in s.mem && lists'[f].free == []
    requires SameFreeLinks(s.mem, s'.mem) && OthersSameLists(lists, lists', f)
    ensures fc != [] && NoDup(fc) && fc[0] == f && FreeLinked(s'.mem, fc)
    ensures forall b :: b in s'.mem ==> (b in fc[1..] <==> lists'[b].free != [])
    ensures forall b :: b in s'.mem && b !in fc ==> NoFreeLinks(s'.mem[b])
  {
    hide FreeLinked;
    FreeLinkedKept(s.mem, s'.mem, fc);
    forall b | b in s'.mem ensures b in fc[1..] <==> lists'[b].free != [] {
      assert b in fc <==> b == f || b in fc[1..];
    }
    forall b | b in s'.mem && b !in fc ensures NoFreeLinks(s'.mem[b]) {
      assert NoFreeLinks(s.mem[b]);
    }
  }

  /** Case 3: links a new block, given by the allocator, behind the last one. */
  function LinkTo(s: Store, newId: BlockId, isWeak: bool): (s': Store)
    requires s.last in s.mem
  {
    var mem := s.mem[s.last := s.mem[s.last].(next := Some(newId))];
    s.(mem := mem[newId := NewBlock(isWeak).(prev := Some(s.last))], last := newId)
  }

  lemma {:induction false} LinkToChain(s: Store, chain: seq<BlockId>, newId: BlockId, isWeak: bool)
    requires ChainOk(s, chain) && s.last in s.mem && newId !in s.mem
    ensures ChainOk(LinkTo(s, newId, isWeak), chain + [newId])
  {
    hide NewBlock, Linked;
    assert newId !in chain;
    NoDupAppend(chain, newId);
    assert Linked(LinkTo(s, newId, isWeak).mem, chain + [newId]) by { LinkToLinked(s, chain, newId, isWeak); }
    MembersAppend(s, chain, newId, isWeak);
  }

  lemma NoDupAppend<T>(s: seq<T>, x: T)
    requires NoDup(s) && x !in s
    ensures NoDup(s + [x])
  {
  }

  lemma MembersAppend(s: Store, chain: seq<BlockId>, newId: BlockId, isWeak: bool)
    requires s.last in s.mem && forall b :: b in s.mem <==> b in chain
    ensures forall b :: b in LinkTo(s, newId, isWeak).mem <==> b in chain + [newId]
  {
  }

  lemma {:induction false} LinkToLinked(s: Store, chain: seq<BlockId>, newId: BlockId, isWeak: bool)
    requires ChainOk(s, chain) && s.last in s.mem && newId !in s.mem
    ensures Linked(LinkTo(s, newId, isWeak).mem, chain + [newId])
  {
    var mem, c := LinkTo(s, newId, isWeak).mem, chain + [newId];
    forall k | 0 <= k < |c| ensures c[k] in mem && LinkedAt(mem[c[k]], c, k) {
      if k < |chain| {
        assert chain[k] in s.mem && LinkedAt(s.mem[chain[k]], chain, k);
        assert k < |chain| - 1 ==> chain[k] != s.last;
      }
    }
  }

  lemma {:induction false} LinkToFree(s: Store, sh: Shape, newId: BlockId, isWeak: bool)
    requires sh.lists.Keys == s.mem.Keys && FreeChainOk(s, sh.freeChain, sh.lists) && s.last in s.mem && newId !in s.mem
    requires s.freeHead.None?
    ensures var s', lists' := LinkTo(s, newId, isWeak), sh.lists[newId := Lists([], [])];
      lists'.Keys == s'.mem.Keys && FreeChainOk(s', sh.freeChain, lists')
  {
    var s' := LinkTo(s, newId, isWeak);
    assert sh.freeChain == [];
    forall c | c in s'.mem && c !in sh.freeChain ensures NoFreeLinks(s'.mem[c]) {
      if c != newId { assert NoFreeLinks(s.mem[c]); }
    }
  }

  lemma {:induction false} LinkToLists(s: Store, lists: map<BlockId, Lists>, newId: BlockId, isWeak: bool)
    requires ListsOk(s, lists, isWeak) && s.last in s.mem && newId !in s.mem
    ensures ListsOk(LinkTo(s, newId, isWeak), lists[newId := Lists([], [])], isWeak)
  {
    hide BlockOk, NewBlock;
    var s', lists' := LinkTo(s, newId, isWeak), lists[newId := Lists([], [])];
    NewBlockOk(isWeak);
    forall c | c in s'.mem ensures BlockOk(s'.mem[c], lists'[c].used, lists'[c].free, isWeak) {
      if c == newId {
        SameCoreOk(NewBlock(isWeak), s'.mem[c], [], [], isWeak);
      } else {
        SameCoreOk(s.mem[c], s'.mem[c], lists[c].used, lists[c].free, isWeak);
      }
    }
  }

  lemma {:induction false} LinkToOk(s: Store, sh: Shape, newId: BlockId, isWeak: bool)
    requires StoreOk(s, sh, isWeak) && s.freeHead.None? && s.last in s.mem && s.mem[s.last].IsFull() && newId !in s.mem
    ensures var s', sh' := LinkTo(s, newId, isWeak), Shape(sh.chain + [newId], sh.freeChain, sh.lists[newId := Lists([], [])]);
      && StoreOk(s', sh', isWeak) && OthersSameCore(s.mem, s'.mem, newId) && s'.mem.Keys == s.mem.Keys + {newId}
      && !s'.mem[newId].IsFull() && s'.mem[newId].index == 0
  {
    hide BlockOk, ChainOk, FreeChainOk, ListsOk;
    ListsKeys(s, sh, isWeak);
    LinkToChain(s, sh.chain, newId, isWeak);
    LinkToFree(s, sh, newId, isWeak);
    LinkToLists(s, sh.lists, newId, isWeak);
    LastIsUsed(s, sh, isWeak);
    LinkToFull(s, sh, newId, isWeak);
  }

  /** A full block without a free node has every node in use. */
  lemma {:induction false} LastIsUsed(s: Store, sh: Shape, isWeak: bool)
    requires StoreOk(s, sh, isWeak) && s.freeHead.None? && s.last in s.mem && s.mem[s.last].IsFull()
    ensures sh.lists[s.last].used != []
  {
    var l := sh.lists[s.last];
    assert BlockOk(s.mem[s.last], l.used, l.free, isWeak);
    assert s.last !in sh.freeChain;
    assert 0 in l.used || 0 in l.free;
  }

  lemma {:induction false} LinkToFull(s: Store, sh: Shape, newId: BlockId, isWeak: bool)
    requires sh.lists.Keys == s.mem.Keys && ChainOk(s, sh.chain) && FullOk(s, sh.chain, sh.lists)
    requires s.last in s.mem && s.mem[s.last].IsFull() && sh.lists[s.last].used != [] && newId !in s.mem
    requires LinkTo(s, newId, isWeak).mem.Keys == s.mem.Keys + {newId}
    ensures FullOk(LinkTo(s, newId, isWeak), sh.chain + [newId], sh.lists[newId := Lists([], [])])
  {
    hide Linked, NoDup, NewBlock;
    var s', c, lists' := LinkTo(s, newId, isWeak), sh.chain + [newId], sh.lists[newId := Lists([], [])];
    forall k | 0 <= k < |c| - 1 && c[k] in s'.mem ensures s'.mem[c[k]].IsFull() && lists'[c[k]].used != [] {
      assert c[k] == sh.chain[k] && sh.chain[k] in s.mem;
    }
  }

  lemma {:induction false} ViewLink(s: Store, s': Store, sh: Shape, sh': Shape, newId: BlockId, isWeak: bool)
    requires ListsOk(s, sh.lists, isWeak) && ListsOk(s', sh'.lists, isWeak) && OthersSameCore(s.mem, s'.mem, newId)
    requires newId !in s.mem && s'.mem.Keys == s.mem.Keys + {newId} && sh'.lists == sh.lists[newId := Lists([], [])]
    ensures View(s', sh') == View(s, sh)
  {
    hide BlockOk, View, ListsOk;
    ListsKeys(s, sh, isWeak);
    ListsKeys(s', sh', isWeak);
    var v, v' := View(s, sh), View(s', sh');
    forall h ensures h in v' <==> h in v {
      ViewAt(s, sh, isWeak, h);
      ViewAt(s', sh', isWeak, h);
    }
    forall h | h in v' ensures v'[h] == v[h] {
      ViewAt(s, sh, isWeak, h);
      ViewAt(s', sh', isWeak, h);
    }
  }

  lemma BlockAt(s: Store, sh: Shape, isWeak: bool, b: BlockId)
    requires ListsOk(s, sh.lists, isWeak) && b in s.mem
    ensures BlockOk(s.mem[b], sh.lists[b].used, sh.lists[b].free, isWeak)
  {
  }

  /** No node is to be had without a new block. */
  ghost predicate NoRoom(s: Store) {
    s.last in s.mem && s.mem[s.last].IsFull() && s.freeHead.None?
  }

  /** That is so exactly when every node of every block is in use. */
  lemma {:induction false} NoRoomExactly(s: Store, sh: Shape, isWeak: bool)
    requires StoreOk(s, sh, isWeak)
    ensures NoRoom(s) <==> forall b, i :: b in s.mem && 0 <= i < BLOCK_SIZE ==> Handle(b, i) in View(s, sh)
  {
    hide View, BlockOk, ChainOk, FreeChainOk, FullOk, ListsOk;
    LastAndHead(s, sh, isWeak);
    if NoRoom(s) {
      forall b, i | b in s.mem && 0 <= i < BLOCK_SIZE ensures Handle(b, i) in View(s, sh) {
        AllInUse(s, sh, isWeak, b, i);
      }
    } else {
      var b, i := SomeUnused(s, sh, isWeak);
      assert b in s.mem && 0 <= i < BLOCK_SIZE && Handle(b, i) !in View(s, sh);
    }
  }

  lemma {:induction false} AllInUse(s: Store, sh: Shape, isWeak: bool, b: BlockId, i: nat)
    requires StoreOk(s, sh, isWeak) && NoRoom(s) && b in s.mem && i < BLOCK_SIZE
    ensures Handle(b, i) in View(s, sh)
  {
    FullUnlessLast(s, sh, isWeak, b);
    ViewAt(s, sh, isWeak, Handle(b, i));
    BlockAt(s, sh, isWeak, b);
    NoFree(s, sh, b);
    hide View, ChainOk, FreeChainOk, FullOk, ListsOk, UsedOk, FreeOk;
    var l := sh.lists[b];
    FullPartition(s.mem[b], l, isWeak, i);
  }

  lemma {:induction false} NoFree(s: Store, sh: Shape, b: BlockId)
    requires sh.lists.Keys == s.mem.Keys && FreeChainOk(s, sh.freeChain, sh.lists) && s.freeHead.None? && b in s.mem
    ensures sh.lists[b].free == []
  {
    assert sh.freeChain == [];
  }

  lemma {:induction false} FullPartition(b: Block, l: Lists, isWeak: bool, i: nat)
    requires BlockOk(b, l.used, l.free, isWeak) && b.IsFull() && l.free == [] && i < BLOCK_SIZE
    ensures i in l.used
  {
  }

  lemma {:induction false} SomeUnused(s: Store, sh: Shape, isWeak: bool) returns (b: BlockId, i: nat)
    requires StoreOk(s, sh, isWeak) && s.last in s.mem && !NoRoom(s)
    ensures b in s.mem && i < BLOCK_SIZE && Handle(b, i) !in View(s, sh)
  {
    if !s.mem[s.last].IsFull() {
      b, i := s.last, s.mem[s.last].index;
    } else {
      b := sh.freeChain[0];
      i := sh.lists[b].free[0];
    }
    BlockAt(s, sh, isWeak, b);
    ViewAt(s, sh, isWeak, Handle(b, i));
    NotUsed(s.mem[b], sh.lists[b], isWeak, i);
  }

  lemma {:induction false} NotUsed(b: Block, l: Lists, isWeak: bool, i: nat)
    requires BlockOk(b, l.used, l.free, isWeak) && (i == b.index || (l.free != [] && i == l.free[0]))
    ensures i !in l.used && (l.free != [] ==> l.free[0] < BLOCK_SIZE)
  {
    if l.free != [] { assert l.free[0] in l.free; }
  }

  /** A new handle: a fresh node of the last block, else a free node, else a node of a new block. It is none of the
      live handles, and every live handle keeps its value. */
  method NewGlobalHandleImplement(s: Store, isWeak: bool, value: Value, newId: BlockId, ghost sh: Shape)
    returns (s': Store, h: Handle, ghost sh': Shape)
    requires StoreOk(s, sh, isWeak) && newId !in s.mem
    ensures StoreOk(s', sh', isWeak)
    ensures h !in View(s, sh) && View(s', sh') == View(s, sh)[h := value]
    ensures s'.mem.Keys == if NoRoom(s) then s.mem.Keys + {newId} else s.mem.Keys
    ensures s.last in s.mem && h.block == if !s.mem[s.last].IsFull() then s.last else if s.freeHead.Some? then s.freeHead.value else newId
  {
    hide BlockOk, View, NewNode, GetFreeNode, ChainOk, FreeChainOk, FullOk, ListsOk, LinkTo, PopFree, HeadExhausted;
    LastAndHead(s, sh, isWeak);
    BlockSize(s.mem[s.last], sh.lists[s.last], isWeak);
    if !s.mem[s.last].IsFull() {
      s', h, sh' := NewInLastBlock(s, isWeak, value, sh);
      return;
    }
    if s.freeHead.Some? {
      var f := s.freeHead.value;
      NewInFree(s, sh, isWeak, value);
      var b := s.mem[f];
      var i := b.freeList.value;
      h := Handle(f, i);
      var nb := GetFreeNode(b, value);
      s' := s.(mem := s.mem[f := nb]);
      sh' := sh.(lists := sh.lists[f := Lists([i] + sh.lists[f].used, sh.lists[f].free[1..])]);
      if !nb.HasFreeNode() {
        ghost var mid, midShape := s', sh';
        HeadFacts(s', sh', isWeak);
        PopFreeOk(s', sh', isWeak);
        s' := PopFree(s', f);
        sh' := sh'.(freeChain := sh'.freeChain[1..]);
        ViewSame(mid, s', midShape, sh', isWeak, f);
      }
      return;
    }
    LinkToOk(s, sh, newId, isWeak);
    var linked := LinkTo(s, newId, isWeak);
    ghost var lsh := Shape(sh.chain + [newId], sh.freeChain, sh.lists[newId := Lists([], [])]);
    ViewLink(s, linked, sh, lsh, newId, isWeak);
    assert linked.last == newId by { LinkToLast(s, newId, isWeak); }
    s', h, sh' := NewInLastBlock(linked, isWeak, value, lsh);
  }

  method NewInLastBlock(s: Store, isWeak: bool, value: Value, ghost sh: Shape) returns (s': Store, h: Handle, ghost sh': Shape)
    requires StoreOk(s, sh, isWeak) && s.last in s.mem && !s.mem[s.last].IsFull()
    ensures StoreOk(s', sh', isWeak)
    ensures h !in View(s, sh) && View(s', sh') == View(s, sh)[h := value]
    ensures s'.mem.Keys == s.mem.Keys && h.block == s.last
  {
    hide BlockOk, View, NewNode, ChainOk, FreeChainOk, FullOk, ListsOk;
    LastAndHead(s, sh, isWeak);
    BlockSize(s.mem[s.last], sh.lists[s.last], isWeak);
    NewInLast(s, sh, isWeak, value);
    var b, i := s.last, s.mem[s.last].index;
    h := Handle(b, i);
    s' := s.(mem := s.mem[b := NewNode(s.mem[b], value)]);
    sh' := sh.(lists := sh.lists[b := Lists([i] + sh.lists[b].used, sh.lists[b].free)]);
  }

  lemma BlockSize(b: Block, l: Lists, isWeak: bool)
    requires BlockOk(b, l.used, l.free, isWeak)
    ensures |b.nodes| == BLOCK_SIZE
  {
  }

  lemma LinkToLast(s: Store, newId: BlockId, isWeak: bool)
    requires s.last in s.mem
    ensures LinkTo(s, newId, isWeak).last == newId
  {
  }

  lemma {:induction false} HeadFacts(s: Store, sh: Shape, isWeak: bool)
    requires HeadExhausted(s, sh, isWeak)
    ensures ListsOk(s, sh.lists, isWeak) && sh.freeChain != []
  {
    hide BlockOk;
  }

  /** Changing links changes no handle. */
  lemma {:induction false} ViewSame(s: Store, s': Store, sh: Shape, sh': Shape, isWeak: bool, f: BlockId)
    requires ListsOk(s, sh.lists, isWeak) && ListsOk(s', sh'.lists, isWeak) && OthersSameCore(s.mem, s'.mem, f)
    requires f in s.mem && s'.mem.Keys == s.mem.Keys && sh'.lists == sh.lists && SameCore(s.mem[f], s'.mem[f])
    ensures View(s', sh') == View(s, sh)
  {
    hide BlockOk, ListsOk, View;
    ListsKeys(s, sh, isWeak);
    var v, v' := View(s, sh), View(s', sh');
    forall h ensures h in v' <==> h in v {
      ViewAt(s, sh, isWeak, h);
      ViewAt(s', sh', isWeak, h);
    }
    forall h | h in v' ensures v'[h] == v[h] {
      ViewAt(s, sh, isWeak, h);
      ViewAt(s', sh', isWeak, h);
    }
  }
}
