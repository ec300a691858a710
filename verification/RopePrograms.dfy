/** Whole runs of string operations on the shared heap, against plain immutable strings. */
module RopePrograms {
  import opened CodeUnits
  import opened Ropes
  import opened StringHeap

  // One step of a program. Operands name earlier results; each step appends its own result.
  datatype Op =
    | Literal(data: seq<CodeUnit>)
    | Concat(left: nat, right: nat)
    | SubString(src: nat, start: nat, length: nat)
    | Flatten(src: nat)
    | FlattenNoGC(src: nat)

  /** What the language promises: strings are values. A step that is not permitted or too long adds nothing. */
  ghost function EvalStep(env: seq<seq<CodeUnit>>, op: Op): (r: seq<seq<CodeUnit>>) {
    match op
    case Literal(d) => if |d| < MAX_STRING_LENGTH then env + [d] else env
    case Concat(l, r) =>
      if l < |env| && r < |env| && |env[l]| + |env[r]| < MAX_STRING_LENGTH then env + [env[l] + env[r]] else env
    case SubString(s, start, n) =>
      if s < |env| && start + n <= |env[s]| then env + [env[s][start..start + n]] else env
    case Flatten(s) => if s < |env| then env + [env[s]] else env
    case FlattenNoGC(s) => if s < |env| then env + [env[s]] else env
  }

  ghost function Eval(env: seq<seq<CodeUnit>>, ops: seq<Op>): (r: seq<seq<CodeUnit>>)
    decreases |ops|
  {
    if ops == [] then env else EvalStep(Eval(env, ops[..|ops| - 1]), ops[|ops| - 1])
  }

  /** The registers of a run denote the values env. */
  ghost predicate Denotes(h: Heap, regs: seq<Id>, env: seq<seq<CodeUnit>>) {
    && WellFormed(h) && |regs| == |env|
    && forall k :: 0 <= k < |regs| ==> regs[k] < |h| && Val(h, regs[k]) == env[k]
  }

  lemma {:induction false} DenotesKept(h: Heap, g: Heap, regs: seq<Id>, env: seq<seq<CodeUnit>>)
    requires Denotes(h, regs, env) && KeepsStrings(h, g)
    ensures Denotes(g, regs, env)
  {
    forall k | 0 <= k < |regs| ensures regs[k] < |g| && Val(g, regs[k]) == env[k] {
      SameLength(h, g, regs[k]);
    }
  }

  lemma DenotesAppend(h: Heap, regs: seq<Id>, env: seq<seq<CodeUnit>>, r: Id)
    requires Denotes(h, regs, env) && r < |h|
    ensures Denotes(h, regs + [r], env + [Val(h, r)])
  {
  }

  method Step(heap: EcmaStringHeap, regs: seq<Id>, op: Op, ghost env: seq<seq<CodeUnit>>) returns (out: seq<Id>)
    requires heap.Valid() && Denotes(heap.nodes, regs, env)
    modifies heap`nodes
    ensures heap.Valid() && Preserves(old(heap.nodes), heap.nodes)
    ensures Denotes(heap.nodes, out, EvalStep(env, op)) && regs <= out
  {
    hide Val, Compressible, KeepsStrings, Denotes;
    PreservesRefl(heap.nodes);
    RegisterRange(heap.nodes, regs, env);
    out := regs;
    var r;
    match op {
      case Literal(d) =>
        if |d| >= MAX_STRING_LENGTH { return; }
        var utf8 := CanBeCompressed(d);
        r := heap.NewLineString(d, utf8);
      case Concat(a, b) =>
        if !(a < |regs| && b < |regs|) { return; }
        var o := heap.Concat(regs[a], regs[b]);
        if o.RangeError? { return; }
        r := o.value;
      case SubString(s, start, n) =>
        if !(s < |regs| && start + n <= heap.nodes[regs[s]].length) { return; }
        r := heap.GetSubString(regs[s], start, n);
      case Flatten(s) =>
        if s >= |regs| { return; }
        r := heap.Flatten(regs[s]);
      case FlattenNoGC(s) =>
        if s >= |regs| { return; }
        r := heap.FlattenNoGC(regs[s]);
    }
    DenotesKept(old(heap.nodes), heap.nodes, regs, env);
    DenotesAppend(heap.nodes, regs, env, r);
    out := regs + [r];
  }

  lemma RegisterRange(h: Heap, regs: seq<Id>, env: seq<seq<CodeUnit>>)
    requires Denotes(h, regs, env)
    ensures WellFormed(h) && |regs| == |env|
    ensures forall k :: 0 <= k < |regs| ==> regs[k] < |h| && Val(h, regs[k]) == env[k] && h[regs[k]].length == |env[k]|
  {
  }

  /** Over any run, ropes behave as plain strings: every result is what the immutable semantics gives,
      and every string that existed before keeps its content, length, encoding and flags, although
      flattening rewrites shared nodes in place. */
  method Run(heap: EcmaStringHeap, regs: seq<Id>, ops: seq<Op>, ghost env: seq<seq<CodeUnit>>) returns (out: seq<Id>)
    requires heap.Valid() && Denotes(heap.nodes, regs, env)
    modifies heap`nodes
    ensures heap.Valid() && Preserves(old(heap.nodes), heap.nodes)
    ensures Denotes(heap.nodes, out, Eval(env, ops))
  {
    hide Val, KeepsStrings, Denotes;
    PreservesRefl(heap.nodes);
    out := regs;
    for k := 0 to |ops|
      invariant heap.Valid() && Preserves(old(heap.nodes), heap.nodes)
      invariant Denotes(heap.nodes, out, Eval(env, ops[..k]))
    {
      ghost var mid := heap.nodes;
      assert ops[..k + 1][..k] == ops[..k];
      out := Step(heap, out, ops[k], Eval(env, ops[..k]));
      PreservesTransitive(old(heap.nodes), mid, heap.nodes);
    }
    assert ops[..|ops|] == ops;
  }

  // ----- flattening again -----

  /** Flattening a string again returns the same string and changes nothing. */
  method FlattenTwice(heap: EcmaStringHeap, i: Id) returns (first: Id, second: Id, ghost between: Heap)
    requires heap.Valid() && i < |heap.nodes|
    modifies heap`nodes
    ensures second == first && heap.nodes == between && Preserves(old(heap.nodes), between)
    ensures first < |between| && Val(between, first) == Val(old(heap.nodes), i) && !between[first].body.Tree?
  {
    hide Val, KeepsStrings, WellFormed, IsOpenTree;
    first := heap.Flatten(i);
    between := heap.nodes;
    second := heap.Flatten(i);
  }

  /** So does taking a flat view of it again. */
  method ViewTwice(heap: EcmaStringHeap, i: Id) returns (first: FlatInfo, second: FlatInfo, ghost between: Heap)
    requires heap.Valid() && i < |heap.nodes|
    modifies heap`nodes
    ensures second == first && heap.nodes == between && Preserves(old(heap.nodes), between)
    ensures WellFormed(between) && i < |between| && FlatViewOf(between, first, i)
  {
    hide Val, KeepsStrings, IsOpenTree, FlatViewOf;
    first := heap.FlattenAllString(i);
    between := heap.nodes;
    second := heap.FlattenAllString(i);
  }

  /** Flattening without collections returns the same string again if and only if it is no slice: a slice is copied out
      each time. */
  method FlattenNoGCTwice(heap: EcmaStringHeap, i: Id) returns (first: Id, second: Id, ghost between: Heap)
    requires heap.Valid() && i < |heap.nodes|
    modifies heap`nodes
    ensures second == first <==> !old(heap.nodes)[i].body.Sliced?
    ensures second == first ==> heap.nodes == between
    ensures Preserves(old(heap.nodes), between) && Preserves(between, heap.nodes)
  {
    hide Val, KeepsStrings, WellFormed, IsOpenTree;
    first := heap.FlattenNoGC(i);
    between := heap.nodes;
    SameLength(old(heap.nodes), between, i);
    second := heap.FlattenNoGC(i);
  }
}
