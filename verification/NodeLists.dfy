/** One block of the global handle storage: a fixed array of nodes threaded by a used list and a free list. */
module NodeLists {
  import opened Common

  const BLOCK_SIZE: nat := 256

  type Value = nat

  const UNDEFINED: Value := 2

  // Links are positions in the block. On a free node prev is stale and never read.
  datatype Node = Node(obj: Value, next: Option<nat>, prev: Option<nat>, isUsing: bool, isWeak: bool)

  type BlockId = nat

  datatype Block = Block(
    nodes: seq<Node>, freeList: Option<nat>, usedList: Option<nat>, index: nat,
    next: Option<BlockId>, prev: Option<BlockId>, freeNext: Option<BlockId>, freePrev: Option<BlockId>)
  {
    predicate IsFull() { index >= BLOCK_SIZE }
    predicate HasFreeNode() { freeList.Some? }
    predicate HasUsagedNode() { !IsFull() || usedList.Some? }
  }

  function NewBlock(isWeak: bool): (b: Block) {
    Block(seq(BLOCK_SIZE, _ => Node(UNDEFINED, None, None, false, isWeak)), None, None, 0, None, None, None, None)
  }

  // ----- sequences as linked lists -----

  ghost function At<T>(s: seq<T>, k: int): (r: Option<T>) {
    if 0 <= k < |s| then Some(s[k]) else None
  }

  ghost function Without<T>(s: seq<T>, k: nat): (r: seq<T>)
    requires k < |s|
  {
    s[..k] + s[k + 1..]
  }

  lemma {:induction false} WithoutMembers<T>(s: seq<T>, k: nat, x: T)
    requires k < |s| && NoDup(s)
    ensures NoDup(Without(s, k)) && (x in Without(s, k) <==> x in s && x != s[k])
  {
    var r := Without(s, k);
    forall i | 0 <= i < |r| ensures r[i] == s[if i < k then i else i + 1] {}
    if x in s && x != s[k] {
      var j :| 0 <= j < |s| && s[j] == x;
      assert r[if j < k then j else j - 1] == x;
    }
  }

  /** Taking position c out of a list: its neighbours become adjacent, everyone else keeps theirs. */
  lemma {:induction false} Splice<T>(chain: seq<T>, c: nat, k: nat, o: nat)
    requires NoDup(chain) && c < |chain| && k < |chain| - 1 && o == if k < c then k else k + 1
    ensures |Without(chain, c)| == |chain| - 1 && Without(chain, c)[k] == chain[o] && chain[o] != chain[c]
    ensures At(Without(chain, c), k + 1) == if At(chain, c - 1) == Some(chain[o]) then At(chain, c + 1) else At(chain, o + 1)
    ensures At(Without(chain, c), k - 1) == if At(chain, c + 1) == Some(chain[o]) then At(chain, c - 1) else At(chain, o - 1)
  {
    assert c > 0 ==> (chain[c - 1] == chain[o] <==> o == c - 1);
    assert c + 1 < |chain| ==> (chain[c + 1] == chain[o] <==> o == c + 1);
  }

  // ----- the invariant of a block -----

  /** The used list of a block, doubly linked. */
  ghost predicate UsedOk(b: Block, used: seq<nat>) {
    && NoDup(used) && b.usedList == At(used, 0)
    && forall k :: 0 <= k < |used| ==> used[k] < |b.nodes| && UsedNodeOk(b.nodes[used[k]], used, k)
  }

  ghost predicate UsedNodeOk(n: Node, used: seq<nat>, k: nat) {
    n.isUsing && n.next == At(used, k + 1) && n.prev == At(used, k - 1)
  }

  /** The free list of a block, singly linked. */
  ghost predicate FreeOk(b: Block, free: seq<nat>) {
    && NoDup(free) && b.freeList == At(free, 0)
    && forall k :: 0 <= k < |free| ==> free[k] < |b.nodes| && FreeNodeOk(b.nodes[free[k]], free, k)
  }

  ghost predicate FreeNodeOk(n: Node, free: seq<nat>, k: nat) {
    !n.isUsing && n.obj == UNDEFINED && n.next == At(free, k + 1)
  }

  /** The two lists partition the nodes handed out so far; the rest have never been used. */
  ghost predicate Partition(b: Block, used: seq<nat>, free: seq<nat>) {
    && (forall i :: i in used || i in free <==> 0 <= i < b.index)
    && (forall i :: !(i in used && i in free))
    && (forall i :: b.index <= i < |b.nodes| ==> !b.nodes[i].isUsing)
  }

  ghost predicate BlockOk(b: Block, used: seq<nat>, free: seq<nat>, isWeak: bool) {
    && |b.nodes| == BLOCK_SIZE && b.index <= BLOCK_SIZE
    && UsedOk(b, used) && FreeOk(b, free) && Partition(b, used, free)
    && forall i :: 0 <= i < |b.nodes| ==> b.nodes[i].isWeak == isWeak
  }

  /** Links to other blocks are untouched. */
  ghost predicate SameLinks(a: Block, b: Block) {
    a.next == b.next && a.prev == b.prev && a.freeNext == b.freeNext && a.freePrev == b.freePrev
  }

  /** Every node but i holds what it held. */
  ghost predicate SameValues(a: Block, b: Block, i: nat) {
    |a.nodes| == |b.nodes| && forall j :: 0 <= j < |a.nodes| && j != i ==> b.nodes[j].obj == a.nodes[j].obj
  }

  // ----- the operations of a block -----

  /** Resets node i and makes it the head of the used list. */
  function PushUsed(b: Block, i: nat, value: Value): (r: Block)
    requires i < |b.nodes|
  {
    var nodes := b.nodes[i := Node(value, b.usedList, None, true, b.nodes[i].isWeak)];
    match b.usedList
    case None => b.(nodes := nodes, usedList := Some(i))
    case Some(u) =>
      if u < |nodes| then b.(nodes := nodes[u := nodes[u].(prev := Some(i))], usedList := Some(i)) else b
  }

  /** Takes the next node that has never been used. */
  function NewNode(b: Block, value: Value): (r: Block)
    requires !b.IsFull() && |b.nodes| == BLOCK_SIZE
  {
    PushUsed(b, b.index, value).(index := b.index + 1)
  }

  /** Takes the head of the free list. */
  function GetFreeNode(b: Block, value: Value): (r: Block)
    requires b.HasFreeNode() && b.freeList.value < |b.nodes|
  {
    PushUsed(b.(freeList := b.nodes[b.freeList.value].next), b.freeList.value, value)
  }

  lemma {:induction false} PushUsedOk(b: Block, used: seq<nat>, i: nat, value: Value)
    requires UsedOk(b, used) && i !in used && i < |b.nodes|
    ensures UsedOk(PushUsed(b, i, value), [i] + used)
  {
    var r, u := PushUsed(b, i, value), [i] + used;
    forall k | 0 <= k < |u| ensures u[k] < |r.nodes| && UsedNodeOk(r.nodes[u[k]], u, k) {
      if k > 0 {
        assert used[k - 1] < |b.nodes| && UsedNodeOk(b.nodes[used[k - 1]], used, k - 1);
      }
    }
  }

  lemma {:induction false} PushUsedKeepsFree(b: Block, used: seq<nat>, free: seq<nat>, i: nat, value: Value)
    requires UsedOk(b, used) && FreeOk(b, free) && i !in free && i < |b.nodes|
    requires forall j :: !(j in used && j in free)
    ensures FreeOk(PushUsed(b, i, value), free)
  {
    var r := PushUsed(b, i, value);
    forall k | 0 <= k < |free| ensures free[k] < |r.nodes| && FreeNodeOk(r.nodes[free[k]], free, k) {
      assert free[k] < |b.nodes| && FreeNodeOk(b.nodes[free[k]], free, k);
      assert b.usedList.Some? ==> b.usedList.value in used;
    }
  }

  lemma {:induction false} PushUsedEffects(b: Block, used: seq<nat>, i: nat, value: Value)
    requires UsedOk(b, used) && i !in used && i < |b.nodes|
    ensures var r := PushUsed(b, i, value);
      && |r.nodes| == |b.nodes| && r.index == b.index && r.freeList == b.freeList
      && SameLinks(b, r) && SameValues(b, r, i) && r.nodes[i].obj == value
      && (forall j :: 0 <= j < |b.nodes| ==> r.nodes[j].isWeak == b.nodes[j].isWeak)
      && (forall j :: 0 <= j < |b.nodes| && j != i ==> r.nodes[j].isUsing == b.nodes[j].isUsing)
  {
    if used != [] { assert UsedNodeOk(b.nodes[used[0]], used, 0); }
  }

  lemma {:induction false} NewNodeOk(b: Block, used: seq<nat>, free: seq<nat>, isWeak: bool, value: Value)
    requires BlockOk(b, used, free, isWeak) && !b.IsFull()
    ensures BlockOk(NewNode(b, value), [b.index] + used, free, isWeak)
    ensures SameLinks(b, NewNode(b, value)) && SameValues(b, NewNode(b, value), b.index)
    ensures NewNode(b, value).nodes[b.index].obj == value
  {
    hide UsedNodeOk, FreeNodeOk, PushUsed;
    var i := b.index;
    assert i !in used && i !in free;
    PushUsedOk(b, used, i, value);
    PushUsedKeepsFree(b, used, free, i, value);
    PushUsedEffects(b, used, i, value);
    PartitionGrows(used, free, i);
  }

  lemma PartitionGrows(used: seq<nat>, free: seq<nat>, i: nat)
    requires forall j :: j in used || j in free <==> 0 <= j < i
    ensures forall j :: j in [i] + used || j in free <==> 0 <= j < i + 1
  {
  }

  lemma {:induction false} GetFreeNodeOk(b: Block, used: seq<nat>, free: seq<nat>, isWeak: bool, value: Value)
    requires BlockOk(b, used, free, isWeak) && b.HasFreeNode()
    ensures free != [] && b.freeList == Some(free[0]) && free[0] < BLOCK_SIZE == |b.nodes|
    ensures BlockOk(GetFreeNode(b, value), [free[0]] + used, free[1..], isWeak)
    ensures SameLinks(b, GetFreeNode(b, value)) && SameValues(b, GetFreeNode(b, value), free[0])
    ensures GetFreeNode(b, value).nodes[free[0]].obj == value && GetFreeNode(b, value).index == b.index
  {
    hide UsedNodeOk, PushUsed;
    var i := free[0];
    assert i in free && i !in used;
    assert FreeNodeOk(b.nodes[free[0]], free, 0);
    var c := b.(freeList := b.nodes[i].next);
    FreeTail(b, c, free);
    PushUsedOk(c, used, i, value);
    PushUsedKeepsFree(c, used, free[1..], i, value);
    PushUsedEffects(c, used, i, value);
    forall j ensures j in [i] + used || j in free[1..] <==> 0 <= j < b.index {
      assert j in free <==> j == i || j in free[1..];
    }
  }

  lemma {:induction false} FreeTail(b: Block, c: Block, free: seq<nat>)
    requires FreeOk(b, free) && free != [] && c == b.(freeList := b.nodes[free[0]].next)
    ensures FreeOk(c, free[1..]) && free[0] !in free[1..]
  {
    assert FreeNodeOk(b.nodes[free[0]], free, 0);
    forall k | 0 <= k < |free[1..]| ensures free[1..][k] < |c.nodes| && FreeNodeOk(c.nodes[free[1..][k]], free[1..], k) {
      assert FreeNodeOk(b.nodes[free[k + 1]], free, k + 1);
    }
  }

  /** Takes node i out of the used list: its neighbours, or the head, now skip it. */
  function Unlink(b: Block, i: nat): (r: Block)
    requires i < |b.nodes|
    requires b.nodes[i].prev.Some? ==> b.nodes[i].prev.value < |b.nodes|
    requires b.nodes[i].next.Some? ==> b.nodes[i].next.value < |b.nodes|
  {
    var n := b.nodes[i];
    var nodes := if n.prev.Some? then b.nodes[n.prev.value := b.nodes[n.prev.value].(next := n.next)] else b.nodes;
    var nodes' := if n.next.Some? then nodes[n.next.value := nodes[n.next.value].(prev := n.prev)] else nodes;
    b.(nodes := nodes', usedList := if b.usedList == Some(i) then n.next else b.usedList)
  }

  /** Resets node i and makes it the head of the free list. */
  function PushFree(b: Block, i: nat): (r: Block)
    requires i < |b.nodes|
    requires b.freeList.Some? ==> b.freeList.value < |b.nodes|
  {
    var nodes := b.nodes[i := Node(UNDEFINED, b.freeList, None, false, b.nodes[i].isWeak)];
    var nodes' := if b.freeList.Some? then nodes[b.freeList.value := nodes[b.freeList.value].(prev := Some(i))] else nodes;
    b.(nodes := nodes', freeList := Some(i))
  }

  /** Gives a used node back. */
  function FreeNode(b: Block, i: nat): (r: Block)
    requires i < |b.nodes|
    requires b.nodes[i].prev.Some? ==> b.nodes[i].prev.value < |b.nodes|
    requires b.nodes[i].next.Some? ==> b.nodes[i].next.value < |b.nodes|
    requires b.freeList.Some? ==> b.freeList.value < |b.nodes|
  {
    PushFree(Unlink(b, i), i)
  }

  /** What Unlink and PushFree leave alone. */
  ghost predicate SameRest(b: Block, r: Block) {
    && |r.nodes| == |b.nodes| && r.index == b.index && SameLinks(b, r)
    && forall j :: 0 <= j < |b.nodes| ==> r.nodes[j].isWeak == b.nodes[j].isWeak
  }

  lemma {:induction false} UnlinkRange(b: Block, used: seq<nat>, k: nat)
    requires UsedOk(b, used) && k < |used|
    ensures used[k] < |b.nodes|
    ensures b.nodes[used[k]].prev == At(used, k - 1) && b.nodes[used[k]].next == At(used, k + 1)
    ensures k > 0 ==> used[k - 1] < |b.nodes|
    ensures k + 1 < |used| ==> used[k + 1] < |b.nodes|
  {
    assert UsedNodeOk(b.nodes[used[k]], used, k);
    if k > 0 { assert used[k - 1] < |b.nodes|; }
    if k + 1 < |used| { assert used[k + 1] < |b.nodes|; }
  }

  lemma {:induction false} UnlinkOk(b: Block, used: seq<nat>, k: nat)
    requires UsedOk(b, used) && k < |used|
    ensures used[k] < |b.nodes| && b.nodes[used[k]].prev == At(used, k - 1) && b.nodes[used[k]].next == At(used, k + 1)
    ensures k > 0 ==> used[k - 1] < |b.nodes|
    ensures k + 1 < |used| ==> used[k + 1] < |b.nodes|
    ensures UsedOk(Unlink(b, used[k]), Without(used, k))
  {
    UnlinkRange(b, used, k);
    WithoutMembers(used, k, used[k]);
    UnlinkHead(b, used, k);
    hide UsedNodeOk, NoDup, Unlink;
    var r, u := Unlink(b, used[k]), Without(used, k);
    forall m | 0 <= m < |u| ensures u[m] < |r.nodes| && UsedNodeOk(r.nodes[u[m]], u, m) {
      var o := if m < k then m else m + 1;
      assert used[o] < |b.nodes| && UsedNodeOk(b.nodes[used[o]], used, o);
      UnlinkPosition(b, used, k, m, o);
    }
  }

  /** The used list starts at its first remaining node. */
  lemma {:induction false} UnlinkHead(b: Block, used: seq<nat>, k: nat)
    requires UsedOk(b, used) && k < |used| && used[k] < |b.nodes|
    requires b.nodes[used[k]].prev == At(used, k - 1) && b.nodes[used[k]].next == At(used, k + 1)
    requires k > 0 ==> used[k - 1] < |b.nodes|
    requires k + 1 < |used| ==> used[k + 1] < |b.nodes|
    ensures Unlink(b, used[k]).usedList == At(Without(used, k), 0) && |Unlink(b, used[k]).nodes| == |b.nodes|
  {
    hide UsedNodeOk;
    assert k > 0 ==> used[0] != used[k];
  }

  lemma UnlinkSize(b: Block, i: nat)
    requires i < |b.nodes|
    requires b.nodes[i].prev.Some? ==> b.nodes[i].prev.value < |b.nodes|
    requires b.nodes[i].next.Some? ==> b.nodes[i].next.value < |b.nodes|
    ensures |Unlink(b, i).nodes| == |b.nodes|
  {
  }

  /** A remaining node skips the removed one if it was its neighbour, and is untouched otherwise. */
  lemma UnlinkNode(b: Block, i: nat, j: nat)
    requires i < |b.nodes| && j < |b.nodes| && i != j
    requires b.nodes[i].prev.Some? ==> b.nodes[i].prev.value < |b.nodes|
    requires b.nodes[i].next.Some? ==> b.nodes[i].next.value < |b.nodes|
    ensures var n, u, r := b.nodes[j], b.nodes[i], Unlink(b, i).nodes;
      && j < |r| && r[j].isUsing == n.isUsing
      && r[j].next == (if u.prev == Some(j) then u.next else n.next)
      && r[j].prev == (if u.next == Some(j) then u.prev else n.prev)
  {
  }

  lemma {:induction false} UnlinkPosition(b: Block, used: seq<nat>, k: nat, m: nat, o: nat)
    requires NoDup(used) && k < |used| && m < |used| - 1 && o == (if m < k then m else m + 1)
    requires used[k] < |b.nodes| && used[o] < |b.nodes| && UsedNodeOk(b.nodes[used[o]], used, o)
    requires b.nodes[used[k]].prev == At(used, k - 1) && b.nodes[used[k]].next == At(used, k + 1)
    requires k > 0 ==> used[k - 1] < |b.nodes|
    requires k + 1 < |used| ==> used[k + 1] < |b.nodes|
    ensures |Without(used, k)| == |used| - 1 && Without(used, k)[m] == used[o]
    ensures |Unlink(b, used[k]).nodes| == |b.nodes| && UsedNodeOk(Unlink(b, used[k]).nodes[used[o]], Without(used, k), m)
  {
    Splice(used, k, m, o);
    UnlinkSize(b, used[k]);
    hide Unlink, Without, NoDup, At;
    UnlinkNode(b, used[k], used[o]);
  }

  lemma {:induction false} UnlinkKeeps(b: Block, used: seq<nat>, free: seq<nat>, k: nat)
    requires UsedOk(b, used) && FreeOk(b, free) && k < |used| && forall j :: !(j in used && j in free)
    ensures used[k] < |b.nodes| && b.nodes[used[k]].prev == At(used, k - 1) && b.nodes[used[k]].next == At(used, k + 1)
    ensures k > 0 ==> used[k - 1] < |b.nodes|
    ensures k + 1 < |used| ==> used[k + 1] < |b.nodes|
    ensures var r := Unlink(b, used[k]);
      && FreeOk(r, free) && SameRest(b, r) && r.freeList == b.freeList
      && forall j :: 0 <= j < |b.nodes| ==> r.nodes[j].obj == b.nodes[j].obj && r.nodes[j].isUsing == b.nodes[j].isUsing
  {
    UnlinkRange(b, used, k);
    var r := Unlink(b, used[k]);
    assert k > 0 ==> used[k - 1] in used;
    assert k + 1 < |used| ==> used[k + 1] in used;
    forall m | 0 <= m < |free| ensures free[m] < |r.nodes| && FreeNodeOk(r.nodes[free[m]], free, m) {
      assert free[m] < |b.nodes| && FreeNodeOk(b.nodes[free[m]], free, m);
    }
  }

  lemma {:induction false} PushFreeHead(b: Block, used: seq<nat>, free: seq<nat>, i: nat)
    requires FreeOk(b, free) && forall j :: !(j in used && j in free)
    ensures b.freeList.Some? ==> b.freeList.value < |b.nodes| && b.freeList.value !in used && b.freeList.value in free
  {
    if free != [] { assert free[0] < |b.nodes|; assert free[0] in free; }
  }

  lemma {:induction false} PushFreeUsed(b: Block, used: seq<nat>, i: nat)
    requires UsedOk(b, used) && i < |b.nodes| && i !in used
    requires b.freeList.Some? ==> b.freeList.value < |b.nodes| && b.freeList.value !in used
    ensures UsedOk(PushFree(b, i), used)
  {
    var r := PushFree(b, i);
    forall m | 0 <= m < |used| ensures used[m] < |r.nodes| && UsedNodeOk(r.nodes[used[m]], used, m) {
      assert used[m] < |b.nodes| && UsedNodeOk(b.nodes[used[m]], used, m);
      assert used[m] in used;
      assert r.nodes[used[m]] == b.nodes[used[m]];
    }
  }

  lemma {:induction false} PushFreeFree(b: Block, free: seq<nat>, i: nat)
    requires FreeOk(b, free) && i < |b.nodes| && i !in free
    requires b.freeList.Some? ==> b.freeList.value < |b.nodes| && b.freeList.value in free
    ensures FreeOk(PushFree(b, i), [i] + free)
  {
    var r, f := PushFree(b, i), [i] + free;
    forall m | 0 <= m < |f| ensures f[m] < |r.nodes| && FreeNodeOk(r.nodes[f[m]], f, m) {
      if m > 0 { assert free[m - 1] < |b.nodes| && FreeNodeOk(b.nodes[free[m - 1]], free, m - 1); }
    }
  }

  lemma {:induction false} PushFreeOk(b: Block, used: seq<nat>, free: seq<nat>, i: nat)
    requires UsedOk(b, used) && FreeOk(b, free) && i < |b.nodes| && i !in used && i !in free
    requires forall j :: !(j in used && j in free)
    ensures b.freeList.Some? ==> b.freeList.value < |b.nodes|
    ensures var r := PushFree(b, i);
      && UsedOk(r, used) && FreeOk(r, [i] + free) && SameRest(b, r)
      && forall j :: 0 <= j < |b.nodes| && j != i ==> r.nodes[j].obj == b.nodes[j].obj && r.nodes[j].isUsing == b.nodes[j].isUsing
  {
    hide UsedOk, FreeOk;
    PushFreeHead(b, used, free, i);
    PushFreeUsed(b, used, i);
    PushFreeFree(b, free, i);
  }

  /** Freeing the k-th used node moves exactly that node from the used list to the head of the free list. */
  lemma {:induction false} FreeNodeOkay(b: Block, used: seq<nat>, free: seq<nat>, isWeak: bool, k: nat)
    requires BlockOk(b, used, free, isWeak) && k < |used|
    ensures used[k] < |b.nodes|
    ensures b.nodes[used[k]].prev.Some? ==> b.nodes[used[k]].prev.value < |b.nodes|
    ensures b.nodes[used[k]].next.Some? ==> b.nodes[used[k]].next.value < |b.nodes|
    ensures b.freeList.Some? ==> b.freeList.value < |b.nodes|
    ensures BlockOk(FreeNode(b, used[k]), Without(used, k), [used[k]] + free, isWeak)
    ensures SameLinks(b, FreeNode(b, used[k])) && SameValues(b, FreeNode(b, used[k]), used[k])
    ensures FreeNode(b, used[k]).index == b.index
  {
    hide UsedNodeOk, FreeNodeOk, Unlink, PushFree, Without, UsedOk, FreeOk;
    var i := used[k];
    assert i in used;
    UnlinkOk(b, used, k);
    UnlinkKeeps(b, used, free, k);
    var u, c := Without(used, k), Unlink(b, i);
    forall j ensures j in u <==> j in used && j != i { WithoutMembers2(used, k, j, b); }
    PushFreeOk(c, u, free, i);
    FreeRange(b, free);
    forall j ensures j in [i] + free <==> j == i || j in free {}
  }

  lemma {:induction false} WithoutMembers2(used: seq<nat>, k: nat, j: nat, b: Block)
    requires k < |used| && UsedOk(b, used)
    ensures j in Without(used, k) <==> j in used && j != used[k]
  {
    WithoutMembers(used, k, j);
  }

  lemma {:induction false} FreeRange(b: Block, free: seq<nat>)
    requires FreeOk(b, free)
    ensures b.freeList.Some? ==> b.freeList.value < |b.nodes|
    ensures b.freeList.Some? <==> free != []
  {
    if free != [] { assert free[0] < |b.nodes|; }
  }

  lemma NewBlockOk(isWeak: bool)
    ensures BlockOk(NewBlock(isWeak), [], [], isWeak)
  {
  }
}
