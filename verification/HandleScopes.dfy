/** Handle scopes over the segmented handle storage of a context. */
module HandleScopes {
  import opened Common

  const NODE_BLOCK_SIZE: nat := 1024
  const MIN_HANDLE_STORAGE_SIZE: int := 2

  type Value = nat
  type BlockId = nat

  // A pointer into a block; offset NODE_BLOCK_SIZE is one past its end.
  datatype Ptr = Ptr(block: BlockId, offset: nat)

  // ----- where the n-th handle lives -----

  function BlockOf(k: nat): (i: nat)
    ensures i * NODE_BLOCK_SIZE <= k < (i + 1) * NODE_BLOCK_SIZE
  {
    k / NODE_BLOCK_SIZE
  }

  /** The slot of handle k: blocks are filled one after the other without gaps. */
  ghost function SlotOf(nodes: seq<BlockId>, k: nat): (p: Ptr)
    requires BlockOf(k) < |nodes|
  {
    Ptr(nodes[BlockOf(k)], k - BlockOf(k) * NODE_BLOCK_SIZE)
  }

  ghost function IndexAt(n: nat): (i: int) {
    if n == 0 then -1 else BlockOf(n - 1)
  }

  ghost function NextAt(nodes: seq<BlockId>, n: nat): (p: Option<Ptr>)
    requires IndexAt(n) < |nodes|
  {
    if n == 0 then None else Some(Ptr(nodes[IndexAt(n)], n - IndexAt(n) * NODE_BLOCK_SIZE))
  }

  ghost function EndAt(nodes: seq<BlockId>, n: nat): (p: Option<Ptr>)
    requires IndexAt(n) < |nodes|
  {
    if n == 0 then None else Some(Ptr(nodes[IndexAt(n)], NODE_BLOCK_SIZE))
  }

  lemma BlockOfMonotone(j: nat, k: nat)
    requires j <= k
    ensures BlockOf(j) <= BlockOf(k)
  {
  }

  lemma {:induction false} IndexMonotone(m: nat, n: nat)
    requires m <= n
    ensures IndexAt(m) <= IndexAt(n)
  {
    if m > 0 { BlockOfMonotone(m - 1, n - 1); }
  }

  /** Blocks in the vector are distinct, allocated and of full size. */
  ghost predicate BlocksOk(storage: map<BlockId, seq<Value>>, nodes: seq<BlockId>) {
    && NoDup(nodes)
    && (forall b :: b in storage <==> b in nodes)
    && (forall b :: b in storage ==> |storage[b]| == NODE_BLOCK_SIZE)
  }

  /** Handle k of the run still holds its value in its slot. */
  ghost predicate Stored(storage: map<BlockId, seq<Value>>, nodes: seq<BlockId>, handles: seq<Value>) {
    && IndexAt(|handles|) < |nodes|
    && forall k :: 0 <= k < |handles| ==> StoredAt(storage, nodes, handles, k)
  }

  ghost predicate StoredAt(storage: map<BlockId, seq<Value>>, nodes: seq<BlockId>, handles: seq<Value>, k: nat)
    requires k < |handles|
  {
    BlockOf(k) < |nodes| && var p := SlotOf(nodes, k);
    p.block in storage && p.offset < |storage[p.block]| && storage[p.block][p.offset] == handles[k]
  }

  class EcmaHandleScope {
    const prevNext: Option<Ptr>
    const prevEnd: Option<Ptr>
    const prevHandleStorageIndex: int
    ghost const mark: nat    // how many handles existed when the scope was opened

    constructor (next: Option<Ptr>, end: Option<Ptr>, index: int, ghost mark: nat)
      ensures prevNext == next && prevEnd == end && prevHandleStorageIndex == index && this.mark == mark
    {
      prevNext, prevEnd, prevHandleStorageIndex := next, end, index;
      this.mark := mark;
    }
  }

  /** What an open scope remembers is the state with its first mark handles. */
  ghost predicate Remembers(s: EcmaHandleScope, nodes: seq<BlockId>, n: nat) {
    && s.mark <= n && IndexAt(s.mark) < |nodes|
    && s.prevNext == NextAt(nodes, s.mark) && s.prevEnd == EndAt(nodes, s.mark) && s.prevHandleStorageIndex == IndexAt(s.mark)
  }

  ghost predicate ScopesOk(open: seq<EcmaHandleScope>, nodes: seq<BlockId>, n: nat) {
    && (forall i :: 0 <= i < |open| ==> Remembers(open[i], nodes, n))
    && (forall i, j :: 0 <= i < j < |open| ==> open[i].mark <= open[j].mark)
  }

  lemma {:induction false} ScopesGrow(open: seq<EcmaHandleScope>, nodes: seq<BlockId>, n: nat, nodes': seq<BlockId>, n': nat)
    requires ScopesOk(open, nodes, n) && n <= n' && nodes <= nodes'
    ensures ScopesOk(open, nodes', n')
  {
    forall i | 0 <= i < |open| ensures Remembers(open[i], nodes', n') {
      assert Remembers(open[i], nodes, n);
    }
  }

  /** Dropping handles and blocks beyond those a scope uses leaves what it remembers true. */
  lemma {:induction false} ScopesShrink(open: seq<EcmaHandleScope>, nodes: seq<BlockId>, n: nat, nodes': seq<BlockId>, n': nat)
    requires ScopesOk(open, nodes, n) && nodes' <= nodes && IndexAt(n') < |nodes'|
    requires forall i :: 0 <= i < |open| ==> open[i].mark <= n'
    ensures ScopesOk(open, nodes', n')
  {
    forall i | 0 <= i < |open| ensures Remembers(open[i], nodes', n') {
      assert Remembers(open[i], nodes, n);
      IndexMonotone(open[i].mark, n');
    }
  }

  lemma {:induction false} StoredShrink(storage: map<BlockId, seq<Value>>, nodes: seq<BlockId>, handles: seq<Value>,
                     storage': map<BlockId, seq<Value>>, nodes': seq<BlockId>, n': nat)
    requires Stored(storage, nodes, handles) && n' <= |handles| && nodes' <= nodes && IndexAt(n') < |nodes'|
    requires forall i :: 0 <= i < |nodes'| && nodes'[i] in storage ==> nodes'[i] in storage' && storage'[nodes'[i]] == storage[nodes'[i]]
    ensures Stored(storage', nodes', handles[..n'])
  {
    forall k | 0 <= k < n' ensures StoredAt(storage', nodes', handles[..n'], k) {
      assert StoredAt(storage, nodes, handles, k);
      BlockOfMonotone(k, n' - 1);
    }
  }

  /** The slot after n handles: the next one of the current block, or the first of the next block. */
  lemma NextSlot(n: nat)
    ensures IndexAt(n + 1) == BlockOf(n)
    ensures if n > 0 && n - IndexAt(n) * NODE_BLOCK_SIZE < NODE_BLOCK_SIZE then BlockOf(n) == IndexAt(n)
            else BlockOf(n) == IndexAt(n) + 1 && n == BlockOf(n) * NODE_BLOCK_SIZE
    ensures n > 0 ==> 0 < n - IndexAt(n) * NODE_BLOCK_SIZE <= NODE_BLOCK_SIZE
  {
  }

  lemma {:induction false} StoredGrow(storage: map<BlockId, seq<Value>>, nodes: seq<BlockId>, handles: seq<Value>,
                   storage': map<BlockId, seq<Value>>, nodes': seq<BlockId>, value: Value)
    requires Stored(storage, nodes, handles) && nodes <= nodes' && BlocksOk(storage', nodes') && BlockOf(|handles|) < |nodes'|
    requires forall b :: b in storage ==> b in storage' && storage'[b] == storage[b]
    ensures var p := SlotOf(nodes', |handles|);
      && p.block in storage' && p.offset < |storage'[p.block]|
      && Stored(Write(storage', p, value), nodes', handles + [value])
  {
    var n, p := |handles|, SlotOf(nodes', |handles|);
    NextSlot(n);
    assert p.block in nodes';
    var written := Write(storage', p, value);
    forall k | 0 <= k <= n ensures StoredAt(written, nodes', handles + [value], k) {
      if k < n {
        assert StoredAt(storage, nodes, handles, k);
        assert SlotOf(nodes', k) == SlotOf(nodes, k);
        SlotsDiffer(nodes', k, n);
      }
    }
  }

  lemma SlotInBlock(nodes: seq<BlockId>, i: nat, k: nat)
    requires i < |nodes| && k < NODE_BLOCK_SIZE
    ensures BlockOf(i * NODE_BLOCK_SIZE + k) == i && SlotOf(nodes, i * NODE_BLOCK_SIZE + k) == Ptr(nodes[i], k)
  {
  }

  /** Different handles live in different slots. */
  lemma {:induction false} SlotsDiffer(nodes: seq<BlockId>, j: nat, k: nat)
    requires NoDup(nodes) && j != k && BlockOf(j) < |nodes| && BlockOf(k) < |nodes|
    ensures SlotOf(nodes, j) != SlotOf(nodes, k)
  {
    if BlockOf(j) < BlockOf(k) {
      assert nodes[BlockOf(j)] != nodes[BlockOf(k)];
    } else if BlockOf(k) < BlockOf(j) {
      assert nodes[BlockOf(k)] != nodes[BlockOf(j)];
    }
  }

  function Write(storage: map<BlockId, seq<Value>>, p: Ptr, value: Value): (r: map<BlockId, seq<Value>>)
    requires p.block in storage && p.offset < |storage[p.block]|
  {
    var block: seq<Value> := storage[p.block][p.offset := value];
    storage[p.block := block]
  }

  lemma {:induction false} BlocksWrite(storage: map<BlockId, seq<Value>>, nodes: seq<BlockId>, p: Ptr, value: Value)
    requires BlocksOk(storage, nodes) && p.block in storage && p.offset < |storage[p.block]|
    ensures BlocksOk(Write(storage, p, value), nodes)
  {
    hide NoDup;
  }

  /** Ends of different blocks differ, so an equal end means an equal block index. */
  lemma {:induction false} EndTellsIndex(nodes: seq<BlockId>, m: nat, n: nat)
    requires NoDup(nodes) && IndexAt(m) < |nodes| && IndexAt(n) < |nodes| && EndAt(nodes, m) == EndAt(nodes, n)
    ensures IndexAt(m) == IndexAt(n)
  {
    if m > 0 && n > 0 {
      NoDupInjective(nodes, IndexAt(m), IndexAt(n));
    }
  }

  lemma NoDupInjective(s: seq<BlockId>, i: nat, j: nat)
    requires NoDup(s) && i < |s| && j < |s| && s[i] == s[j]
    ensures i == j
  {
  }

  lemma PointersKept(nodes: seq<BlockId>, nodes': seq<BlockId>, n: nat)
    requires nodes' <= nodes && IndexAt(n) < |nodes'|
    ensures NextAt(nodes', n) == NextAt(nodes, n) && EndAt(nodes', n) == EndAt(nodes, n)
  {
  }

  lemma {:induction false} TopScope(open: seq<EcmaHandleScope>, nodes: seq<BlockId>, n: nat)
    requires ScopesOk(open, nodes, n) && open != []
    ensures var s := open[|open| - 1];
      Remembers(s, nodes, n) && forall i :: 0 <= i < |open| - 1 ==> open[i].mark <= s.mark
    ensures ScopesOk(open[..|open| - 1], nodes, n)
  {
    assert Remembers(open[|open| - 1], nodes, n);
  }

  class EcmaContext {
    var storage: map<BlockId, seq<Value>>
    var handleStorageNodes: seq<BlockId>
    var currentHandleStorageIndex: int
    var handleScopeStorageNext: Option<Ptr>
    var handleScopeStorageEnd: Option<Ptr>
    ghost var handles: seq<Value>             // values of the handles created in still-open scopes, oldest first
    ghost var open: seq<EcmaHandleScope>      // the open scopes, outermost first

    /** The three fields are a function of how many handles there are, so restoring the count restores them. */
    ghost predicate FieldsOk()
      reads this
    {
      && IndexAt(|handles|) < |handleStorageNodes|
      && currentHandleStorageIndex == IndexAt(|handles|)
      && handleScopeStorageNext == NextAt(handleStorageNodes, |handles|)
      && handleScopeStorageEnd == EndAt(handleStorageNodes, |handles|)
    }

    ghost predicate Valid()
      reads this
    {
      && BlocksOk(storage, handleStorageNodes) && FieldsOk()
      && Stored(storage, handleStorageNodes, handles) && ScopesOk(open, handleStorageNodes, |handles|)
    }

    constructor ()
      ensures Valid() && handles == [] && open == []
    {
      storage, handleStorageNodes, currentHandleStorageIndex := map[], [], -1;
      handleScopeStorageNext, handleScopeStorageEnd := None, None;
      handles, open := [], [];
    }

    method OpenScope() returns (s: EcmaHandleScope)
      requires Valid()
      modifies this`open
      ensures Valid() && s.mark == |handles| && open == old(open) + [s]
    {
      s := new EcmaHandleScope(handleScopeStorageNext, handleScopeStorageEnd, currentHandleStorageIndex, |handles|);
      open := open + [s];
    }

    /** Moves on to the next block, allocating one when none is left over. */
    method ExpandHandleStorage(newId: BlockId) returns (result: Ptr)
      requires Valid() && newId !in storage
      modifies this`storage, this`handleStorageNodes, this`currentHandleStorageIndex, this`handleScopeStorageEnd
      ensures BlocksOk(storage, handleStorageNodes) && old(handleStorageNodes) <= handleStorageNodes
      ensures currentHandleStorageIndex == old(currentHandleStorageIndex) + 1 < |handleStorageNodes|
      ensures handleStorageNodes == old(handleStorageNodes) +
        if currentHandleStorageIndex < |old(handleStorageNodes)| then [] else [newId]
      ensures result == Ptr(handleStorageNodes[currentHandleStorageIndex], 0)
      ensures handleScopeStorageEnd == Some(Ptr(handleStorageNodes[currentHandleStorageIndex], NODE_BLOCK_SIZE))
      ensures forall b :: b in old(storage) ==> b in storage && storage[b] == old(storage)[b]
    {
      hide Stored, ScopesOk;
      if currentHandleStorageIndex == |handleStorageNodes| - 1 {
        storage := storage[newId := seq(NODE_BLOCK_SIZE, _ => 0)];
        handleStorageNodes := handleStorageNodes + [newId];
      }
      currentHandleStorageIndex := currentHandleStorageIndex + 1;
      var b := handleStorageNodes[currentHandleStorageIndex];
      handleScopeStorageEnd := Some(Ptr(b, NODE_BLOCK_SIZE));
      result := Ptr(b, 0);
    }

    /** A new handle in the innermost scope: its slot comes right after that of the previous handle, and every
        earlier handle keeps its slot and value. */
    method NewHandle(value: Value, newId: BlockId) returns (result: Ptr)
      requires Valid() && newId !in storage
      modifies this
      ensures Valid() && handles == old(handles) + [value] && open == old(open)
      ensures old(handleStorageNodes) <= handleStorageNodes && BlockOf(|old(handles)|) < |handleStorageNodes|
      ensures result == SlotOf(handleStorageNodes, |old(handles)|)
    {
      hide Stored, ScopesOk, BlocksOk;
      ghost var n := |handles|;
      NextSlot(n);
      if handleScopeStorageNext == handleScopeStorageEnd {
        result := ExpandHandleStorage(newId);
      } else {
        result := handleScopeStorageNext.value;
      }
      StoredGrow(old(storage), old(handleStorageNodes), handles, storage, handleStorageNodes, value);
      handleScopeStorageNext := Some(Ptr(result.block, result.offset + 1));
      BlockLength(storage, handleStorageNodes, result.block);
      BlocksWrite(storage, handleStorageNodes, result, value);
      storage := Write(storage, result, value);
      ScopesGrow(open, old(handleStorageNodes), n, handleStorageNodes, n + 1);
      handles := handles + [value];
    }

    /** Makes prevIndex current and frees the blocks beyond the first three once none of them is needed. */
    method ShrinkHandleStorage(prevIndex: int)
      requires BlocksOk(storage, handleStorageNodes) && prevIndex < |handleStorageNodes|
      modifies this`storage, this`handleStorageNodes, this`currentHandleStorageIndex
      ensures BlocksOk(storage, handleStorageNodes) && currentHandleStorageIndex == prevIndex < |handleStorageNodes|
      ensures handleStorageNodes <= old(handleStorageNodes)
      ensures |handleStorageNodes| == if |old(handleStorageNodes)| > 3 && prevIndex < 2 then 3 else |old(handleStorageNodes)|
      ensures forall i :: 0 <= i < |handleStorageNodes| ==>
        handleStorageNodes[i] in storage && handleStorageNodes[i] in old(storage) &&
        storage[handleStorageNodes[i]] == old(storage)[handleStorageNodes[i]]
    {
      hide BlocksOk;
      currentHandleStorageIndex := prevIndex;
      var lastIndex := |handleStorageNodes| - 1;
      BlocksInStorage(storage, handleStorageNodes);
      if lastIndex > MIN_HANDLE_STORAGE_SIZE && currentHandleStorageIndex < MIN_HANDLE_STORAGE_SIZE {
        var i := MIN_HANDLE_STORAGE_SIZE;
        while i < lastIndex
          invariant MIN_HANDLE_STORAGE_SIZE <= i <= lastIndex && |handleStorageNodes| == lastIndex + 1 - (i - MIN_HANDLE_STORAGE_SIZE)
          invariant BlocksOk(storage, handleStorageNodes) && handleStorageNodes <= old(handleStorageNodes)
          invariant currentHandleStorageIndex == prevIndex
          invariant forall i :: 0 <= i < |handleStorageNodes| ==>
            handleStorageNodes[i] in storage && handleStorageNodes[i] in old(storage) &&
            storage[handleStorageNodes[i]] == old(storage)[handleStorageNodes[i]]
        {
          PopBlock(storage, handleStorageNodes);
          var node := handleStorageNodes[|handleStorageNodes| - 1];
          storage := storage - {node};
          handleStorageNodes := handleStorageNodes[..|handleStorageNodes| - 1];
          i := i + 1;
        }
      }
    }

    /** Closing the innermost scope drops exactly the handles created in it and restores next, end and block index
        to what they were when it was opened; every scope still open keeps the blocks it uses. */
    method CloseScope(s: EcmaHandleScope)
      requires Valid() && open != [] && s == open[|open| - 1]
      modifies this
      ensures Valid() && s.mark <= |old(handles)| && handles == old(handles)[..s.mark] && open == old(open)[..|old(open)| - 1]
      ensures handleScopeStorageNext == s.prevNext && handleScopeStorageEnd == s.prevEnd
      ensures currentHandleStorageIndex == s.prevHandleStorageIndex
      ensures handleStorageNodes <= old(handleStorageNodes)
      ensures |handleStorageNodes| ==
        if old(handleScopeStorageEnd) != s.prevEnd && |old(handleStorageNodes)| > 3 && s.prevHandleStorageIndex < 2 then 3
        else |old(handleStorageNodes)|
    {
      hide Stored, ScopesOk, BlocksOk, NextAt, EndAt, IndexAt, NoDup;
      ghost var n := |handles|;
      TopScope(open, handleStorageNodes, n);
      BlocksDistinct(storage, handleStorageNodes);
      BlocksInStorage(storage, handleStorageNodes);
      handleScopeStorageNext := s.prevNext;
      if handleScopeStorageEnd != s.prevEnd {
        handleScopeStorageEnd := s.prevEnd;
        ShrinkHandleStorage(s.prevHandleStorageIndex);
      } else {
        EndTellsIndex(handleStorageNodes, s.mark, n);
      }
      open := open[..|open| - 1];
      PointersKept(old(handleStorageNodes), handleStorageNodes, s.mark);
      StoredShrink(old(storage), old(handleStorageNodes), handles, storage, handleStorageNodes, s.mark);
      ScopesShrink(open, old(handleStorageNodes), n, handleStorageNodes, s.mark);
      handles := handles[..s.mark];
    }

    /** Every handle of an open scope has a slot in a block that is still allocated. */
    lemma HandlesHaveBlocks(k: nat)
      requires Valid() && k < |handles|
      ensures BlockOf(k) < |handleStorageNodes| && SlotOf(handleStorageNodes, k).block in storage
    {
      assert StoredAt(storage, handleStorageNodes, handles, k);
    }

    /** Enumerates the roots: the slots of the handles created in still-open scopes, each once, and their number. */
    method IterateHandle() returns (handleCount: nat, slots: seq<Ptr>, values: seq<Value>)
      requires Valid()
      ensures handleCount == |handles| && values == handles && |slots| == |handles|
      ensures forall k :: 0 <= k < |handles| ==> BlockOf(k) < |handleStorageNodes| && slots[k] == SlotOf(handleStorageNodes, k)
    {
      hide ScopesOk, BlocksOk;
      handleCount, slots, values := 0, [], [];
      var nid := currentHandleStorageIndex;
      if nid != -1 {
        var i := 0;
        while i <= nid
          invariant 0 <= i <= nid + 1
          invariant handleCount == |slots| == |values| == (if i <= nid then i * NODE_BLOCK_SIZE else |handles|)
          invariant forall k :: 0 <= k < |slots| ==> BlockOf(k) < |handleStorageNodes| && slots[k] == SlotOf(handleStorageNodes, k)
          invariant values == handles[..|values|]
        {
          var node := handleStorageNodes[i];
          var end := if i != nid then NODE_BLOCK_SIZE else handleScopeStorageNext.value.offset;
          var more, vals := VisitRange(i, node, end, |slots|);
          forall k | |slots| <= k < |slots| + end
            ensures BlockOf(k) < |handleStorageNodes| && (slots + more)[k] == SlotOf(handleStorageNodes, k)
          {
            SlotInBlock(handleStorageNodes, i, k - |slots|);
          }
          slots, values := slots + more, values + vals;
          handleCount := handleCount + end;
          i := i + 1;
        }
      }
    }

    /** The slots [0, end) of block i, which hold the handles from number from on. */
    method VisitRange(i: nat, node: BlockId, end: nat, from: nat) returns (slots: seq<Ptr>, values: seq<Value>)
      requires Valid() && i < |handleStorageNodes| && node == handleStorageNodes[i] && end <= NODE_BLOCK_SIZE
      requires from == i * NODE_BLOCK_SIZE && from + end <= |handles|
      ensures |slots| == |values| == end && values == handles[from..from + end]
      ensures forall k :: 0 <= k < end ==> slots[k] == Ptr(node, k)
    {
      hide ScopesOk, BlocksOk;
      slots, values := [], [];
      for k := 0 to end
        invariant |slots| == |values| == k && values == handles[from..from + k]
        invariant forall j :: 0 <= j < k ==> slots[j] == Ptr(node, j)
      {
        SlotInBlock(handleStorageNodes, i, k);
        assert StoredAt(storage, handleStorageNodes, handles, from + k);
        slots := slots + [Ptr(node, k)];
        values := values + [storage[node][k]];
      }
    }
  }

  lemma BlockLength(storage: map<BlockId, seq<Value>>, nodes: seq<BlockId>, b: BlockId)
    requires BlocksOk(storage, nodes) && b in storage
    ensures |storage[b]| == NODE_BLOCK_SIZE
  {
  }

  lemma BlocksInStorage(storage: map<BlockId, seq<Value>>, nodes: seq<BlockId>)
    requires BlocksOk(storage, nodes)
    ensures forall i :: 0 <= i < |nodes| ==> nodes[i] in storage
  {
  }

  lemma BlocksDistinct(storage: map<BlockId, seq<Value>>, nodes: seq<BlockId>)
    requires BlocksOk(storage, nodes)
    ensures NoDup(nodes)
  {
  }

  lemma {:induction false} PopBlock(storage: map<BlockId, seq<Value>>, nodes: seq<BlockId>)
    requires BlocksOk(storage, nodes) && nodes != []
    ensures var last := nodes[|nodes| - 1];
      && BlocksOk(storage - {last}, nodes[..|nodes| - 1])
      && forall i :: 0 <= i < |nodes| - 1 ==> nodes[i] != last
  {
    var last, rest := nodes[|nodes| - 1], nodes[..|nodes| - 1];
    forall b ensures b in rest <==> b in nodes && b != last {
      if b in nodes && b != last {
        var i :| 0 <= i < |nodes| && nodes[i] == b;
        assert rest[i] == b;
      }
    }
  }

  // ----- whole runs -----

  datatype Op = Open | Close | Create(value: Value)

  // A stack of scopes over a stack of handles: what a program may expect.
  datatype Stack = Stack(handles: seq<Value>, marks: seq<nat>)

  ghost function Expect(s: Stack, op: Op): (r: Stack) {
    match op
    case Open => s.(marks := s.marks + [|s.handles|])
    case Close =>
      if s.marks == [] || s.marks[|s.marks| - 1] > |s.handles| then s
      else Stack(s.handles[..s.marks[|s.marks| - 1]], s.marks[..|s.marks| - 1])
    case Create(v) => s.(handles := s.handles + [v])
  }

  ghost function ExpectAll(ops: seq<Op>): (r: Stack)
    decreases |ops|
  {
    if ops == [] then Stack([], []) else Expect(ExpectAll(ops[..|ops| - 1]), ops[|ops| - 1])
  }

  ghost function Marks(open: seq<EcmaHandleScope>): (r: seq<nat>) {
    seq(|open|, i requires 0 <= i < |open| => open[i].mark)
  }

  /** Over every properly nested run the context holds exactly the handles of its open scopes, and enumerating its
      roots yields their values in order of creation, each once. */
  method Run(ops: seq<Op>) returns (c: EcmaContext, count: nat, roots: seq<Value>)
    ensures c.Valid() && c.handles == ExpectAll(ops).handles && Marks(c.open) == ExpectAll(ops).marks
    ensures roots == ExpectAll(ops).handles && count == |roots|
  {
    c := new EcmaContext();
    var scopes: seq<EcmaHandleScope> := [];
    for k := 0 to |ops|
      invariant c.Valid() && scopes == c.open && fresh(c)
      invariant c.handles == ExpectAll(ops[..k]).handles && Marks(c.open) == ExpectAll(ops[..k]).marks
    {
      assert ops[..k + 1][..k] == ops[..k];
      scopes := Step(c, scopes, ops[k], ExpectAll(ops[..k]));
    }
    assert ops[..|ops|] == ops;
    var slots;
    count, slots, roots := c.IterateHandle();
  }

  method Step(c: EcmaContext, scopes: seq<EcmaHandleScope>, op: Op, ghost s: Stack) returns (out: seq<EcmaHandleScope>)
    requires c.Valid() && scopes == c.open && c.handles == s.handles && Marks(c.open) == s.marks
    modifies c
    ensures c.Valid() && out == c.open && c.handles == Expect(s, op).handles && Marks(c.open) == Expect(s, op).marks
  {
    hide Stored, ScopesOk, BlocksOk;
    match op {
      case Open =>
        var scope := c.OpenScope();
        out := scopes + [scope];
        assert Marks(out) == Marks(scopes) + [scope.mark];
      case Close =>
        out := scopes;
        if scopes != [] {
          var top := scopes[|scopes| - 1];
          c.CloseScope(top);
          out := scopes[..|scopes| - 1];
          assert Marks(out) == Marks(scopes)[..|scopes| - 1];
        }
      case Create(v) =>
        var id := FreshId(c.storage.Keys);
        var p := c.NewHandle(v, id);
        out := scopes;
    }
  }
}
