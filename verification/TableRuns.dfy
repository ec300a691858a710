/** Whole runs of string operations, interning and collections over one heap and its intern table. */
module TableRuns {
  import opened CodeUnits
  import opened Common
  import opened Ropes
  import opened StringHeap
  import opened StringTable
  import opened TableSweep
  import RopePrograms

  // ----- a collector -----

  function Children(n: Node): (ids: set<Id>) {
    match n.body
    case Sliced(p, _) => {p}
    case Tree(f, s) => {f, s}
    case _ => {}
  }

  ghost predicate Closed(h: Heap, live: set<Id>, more: set<Id>) {
    forall i :: i in live ==> i < |h| && Children(h[i]) <= live + more
  }

  lemma ChildrenInHeap(h: Heap, i: Id)
    requires WellFormed(h) && i < |h|
    ensures forall c :: c in Children(h[i]) ==> c < |h|
  {
    assert NodeOk(h, h[i]);
  }

  ghost function Ids(n: nat): (ids: set<Id>)
    ensures forall i :: i in ids <==> 0 <= i < n
  {
    if n == 0 then {} else Ids(n - 1) + {n - 1}
  }

  /** Marks what the roots reach. */
  method Mark(h: Heap, roots: set<Id>) returns (live: set<Id>)
    requires WellFormed(h) && forall i :: i in roots ==> i < |h|
    ensures roots <= live && Closed(h, live, {})
  {
    hide WellFormed, Children, Closed, Ids;
    live := {};
    ClosedEmpty(h, roots);
    var todo := roots;
    ghost var all := Ids(|h|);
    while todo != {}
      invariant todo !! live && roots <= live + todo && live <= all && todo <= all && Closed(h, live, todo)
      decreases |all - live|
    {
      var i :| i in todo;
      ChildrenInHeap(h, i);
      ClosedStep(h, live, todo, i);
      assert i in all - live;
      SmallerSet(all - (live + {i}), all - live);
      live := live + {i};
      todo := todo + Children(h[i]) - live;
    }
  }

  lemma ClosedEmpty(h: Heap, more: set<Id>)
    ensures Closed(h, {}, more)
  {
  }

  lemma ClosedStep(h: Heap, live: set<Id>, todo: set<Id>, i: Id)
    requires Closed(h, live, todo) && i in todo && i < |h|
    ensures Closed(h, live + {i}, todo + Children(h[i]) - (live + {i}))
  {
  }

  lemma SmallerSet(a: set<Id>, b: set<Id>)
    requires a < b
    ensures |a| < |b|
  {
    var x :| x in b && x !in a;
    assert a <= b - {x};
    SubsetSize(a, b - {x});
  }

  lemma {:induction false} SubsetSize(a: set<Id>, b: set<Id>)
    requires a <= b
    ensures |a| <= |b|
    decreases |a|
  {
    if a != {} {
      var x :| x in a;
      SubsetSize(a - {x}, b - {x});
    }
  }

  /** Where each string goes and which string each place gets are inverse to one another. */
  ghost predicate Placed(h: Heap, done: set<Id>, fwd: Forwarding, order: seq<Id>) {
    && |fwd| == |h|
    && (forall i :: 0 <= i < |h| ==> (fwd[i].Some? <==> i in done))
    && (forall i :: 0 <= i < |h| && fwd[i].Some? ==> fwd[i].value < |order| && order[fwd[i].value] == i)
    && (forall k :: 0 <= k < |order| ==> order[k] < |h| && fwd[order[k]] == Some(k))
  }

  /** Gives every live string a new place, in whatever order the collector comes upon them. */
  method Place(h: Heap, live: set<Id>) returns (fwd: Forwarding, order: seq<Id>)
    requires forall i :: i in live ==> i < |h|
    ensures Placed(h, live, fwd, order)
  {
    fwd, order := seq(|h|, _ => None), [];
    var rest := live;
    while rest != {}
      invariant rest <= live && Placed(h, live - rest, fwd, order)
      decreases rest
    {
      var i :| i in rest;
      fwd := fwd[i := Some(|order|)];
      order := order + [i];
      rest := rest - {i};
    }
    assert live - rest == live;
  }

  /** Copies the live strings to their places. */
  method Evacuate(h: Heap, live: set<Id>) returns (fwd: Forwarding, moved: Heap)
    requires WellFormed(h) && Closed(h, live, {})
    ensures Relocates(h, fwd, moved) && forall i :: 0 <= i < |h| ==> (fwd[i].Some? <==> i in live)
  {
    hide WellFormed, Children, Placed, Closed;
    InRange(h, live);
    var order;
    fwd, order := Place(h, live);
    moved := [];
    for k := 0 to |order|
      invariant |moved| == k
      invariant forall j :: 0 <= j < k ==> CopiedTo(h, fwd, order[j], moved[j])
    {
      PlacedAt(h, live, fwd, order, k);
      var n := h[order[k]];
      moved := moved + [n.(body := RenamedBody(n.body, fwd))];
    }
    PlacedRelocates(h, live, fwd, order, moved);
  }

  lemma InRange(h: Heap, live: set<Id>)
    requires Closed(h, live, {})
    ensures forall i :: i in live ==> i < |h|
  {
  }

  ghost predicate PointersLive(h: Heap, fwd: Forwarding, i: Id)
    requires i < |h|
  {
    && (h[i].body.Sliced? ==> Live(fwd, h[i].body.parent))
    && (h[i].body.Tree? ==> Live(fwd, h[i].body.first) && Live(fwd, h[i].body.second))
  }

  ghost predicate CopiedTo(h: Heap, fwd: Forwarding, i: Id, n: Node) {
    i < |h| && PointersLive(h, fwd, i) && n == h[i].(body := RenamedBody(h[i].body, fwd))
  }

  lemma PlacedAt(h: Heap, live: set<Id>, fwd: Forwarding, order: seq<Id>, k: nat)
    requires WellFormed(h) && Closed(h, live, {}) && Placed(h, live, fwd, order) && k < |order|
    ensures order[k] < |h| && PointersLive(h, fwd, order[k])
  {
    var i := order[k];
    assert fwd[i].Some? && i in live;
    assert Children(h[i]) <= live + {};
    ChildrenInHeap(h, i);
  }

  lemma {:induction false} PlacedRelocates(h: Heap, live: set<Id>, fwd: Forwarding, order: seq<Id>, moved: Heap)
    requires Placed(h, live, fwd, order) && |moved| == |order|
    requires forall k :: 0 <= k < |order| ==> CopiedTo(h, fwd, order[k], moved[k])
    ensures Relocates(h, fwd, moved) && forall i :: 0 <= i < |h| ==> (fwd[i].Some? <==> i in live)
  {
    forall i | 0 <= i < |h| ensures Copied(h, fwd, moved, i) {
      if fwd[i].Some? { assert CopiedTo(h, fwd, order[fwd[i].value], moved[fwd[i].value]); }
    }
    forall k | 0 <= k < |moved| ensures HasSource(h, fwd, k) { assert Source(h, fwd, k, order[k]); }
    forall i, j | 0 <= i < j < |h| && fwd[i].Some? && fwd[j].Some? ensures fwd[i].value != fwd[j].value {
      assert order[fwd[i].value] == i && order[fwd[j].value] == j;
    }
  }

  /** The permanent strings, which every collection keeps. */
  method PermanentStrings(heap: EcmaStringHeap) returns (ids: set<Id>)
    requires heap.Valid()
    ensures heap.emptyString in ids && (forall c :: 1 <= c < 128 ==> heap.singleChars[c] in ids)
    ensures forall i :: i in ids ==> i < |heap.nodes|
  {
    hide Val, WellFormed;
    ids := {heap.emptyString};
    for c := 1 to 128
      invariant heap.emptyString in ids && (forall d :: 1 <= d < c ==> heap.singleChars[d] in ids)
      invariant forall i :: i in ids ==> i < |heap.nodes|
    {
      ids := ids + {heap.singleChars[c]};
    }
  }

  function Ranged(ids: set<Id>, n: nat): (r: set<Id>)
    ensures r <= ids && forall i :: i in r ==> i < n
  {
    set i | i in ids && i < n
  }

  // ----- whole runs -----

  // One step: a string operation, an interning request, the end of a handle, or a collection, which may keep more
  // strings than are needed.
  datatype Op =
    | Operate(op: RopePrograms.Op)
    | InternString(src: nat)
    | InternData(data: seq<CodeUnit>)
    | Forget(k: nat)
    | Collect(extra: set<Id>)

  // What a program expects of its handles: their contents, and which of them the table answered with.
  datatype Expected = Expected(values: seq<seq<CodeUnit>>, answers: seq<bool>)

  ghost function WithoutAt<T>(s: seq<T>, k: nat): (r: seq<T>)
    requires k < |s|
  {
    s[..k] + s[k + 1..]
  }

  /** Strings are values; interning and collecting change none of them. */
  ghost function Expect(e: Expected, op: Op): (r: Expected)
    requires |e.values| == |e.answers|
    ensures |r.values| == |r.answers|
  {
    match op
    case Operate(o) =>
      var values := RopePrograms.EvalStep(e.values, o);
      Expected(values, e.answers + seq(Grown(|e.values|, |values|), _ => false))
    case InternString(s) =>
      if s < |e.values| then Expected(e.values + [e.values[s]], e.answers + [true]) else e
    case InternData(d) =>
      if 0 < |d| < MAX_STRING_LENGTH && Compressible(d) then Expected(e.values + [d], e.answers + [true]) else e
    case Forget(k) => if k < |e.values| then Expected(WithoutAt(e.values, k), WithoutAt(e.answers, k)) else e
    case Collect(_) => e
  }

  ghost function Grown(m: nat, n: nat): (k: nat) { if m <= n then n - m else 0 }

  /** The handles denote the expected contents, and the table's answers are interned. */
  ghost predicate Tracks(h: Heap, regs: seq<Id>, e: Expected) {
    && RopePrograms.Denotes(h, regs, e.values) && |e.answers| == |regs|
    && forall k :: 0 <= k < |regs| && e.answers[k] ==> h[regs[k]].interned
  }

  lemma {:induction false} TracksRange(h: Heap, regs: seq<Id>, e: Expected)
    requires Tracks(h, regs, e)
    ensures |regs| == |e.values| == |e.answers| && WellFormed(h)
    ensures forall k :: 0 <= k < |regs| ==> regs[k] < |h| && Val(h, regs[k]) == e.values[k]
  {
  }

  lemma {:induction false} TracksKept(h: Heap, g: Heap, regs: seq<Id>, e: Expected)
    requires Tracks(h, regs, e) && KeepsStrings(h, g)
    ensures Tracks(g, regs, e)
  {
    hide Val, WellFormed, KeepsStrings, RopePrograms.Denotes;
    RopePrograms.DenotesKept(h, g, regs, e.values);
    RopePrograms.RegisterRange(h, regs, e.values);
    forall k | 0 <= k < |regs| && e.answers[k] ensures g[regs[k]].interned { SameLength(h, g, regs[k]); }
  }

  lemma {:induction false} TracksAnswer(h: Heap, regs: seq<Id>, e: Expected, r: Id)
    requires Tracks(h, regs, e) && r < |h| && h[r].interned && WellFormed(h)
    ensures Tracks(h, regs + [r], Expected(e.values + [Val(h, r)], e.answers + [true]))
  {
    hide Val, WellFormed;
    RopePrograms.DenotesAppend(h, regs, e.values, r);
  }

  lemma {:induction false} TracksOperation(h: Heap, g: Heap, regs: seq<Id>, out: seq<Id>, e: Expected, op: RopePrograms.Op)
    requires Tracks(h, regs, e) && |e.values| == |e.answers| && KeepsStrings(h, g) && regs <= out
    requires RopePrograms.Denotes(g, out, RopePrograms.EvalStep(e.values, op))
    ensures Tracks(g, out, Expect(e, Operate(op)))
  {
    hide Val, WellFormed, KeepsStrings, RopePrograms.EvalStep;
    TracksKept(h, g, regs, e);
    var r := Expect(e, Operate(op));
    forall k | 0 <= k < |out| && r.answers[k] ensures g[out[k]].interned { assert k < |regs| && e.answers[k]; }
  }

  lemma {:induction false} TracksForget(h: Heap, regs: seq<Id>, e: Expected, k: nat)
    requires Tracks(h, regs, e) && |e.values| == |e.answers| && k < |regs|
    ensures Tracks(h, WithoutAt(regs, k), Expect(e, Forget(k)))
  {
    hide Val, WellFormed;
    var out, r := WithoutAt(regs, k), Expect(e, Forget(k));
    forall j | 0 <= j < |out|
      ensures out[j] < |h| && Val(h, out[j]) == r.values[j] && (r.answers[j] ==> h[out[j]].interned)
    {
      var o := if j < k then j else j + 1;
      assert out[j] == regs[o] && r.values[j] == e.values[o] && r.answers[j] == e.answers[o];
    }
  }

  /** After a collection every handle is followed to where its string went. */
  ghost predicate Followed(fwd: Forwarding, regs: seq<Id>, out: seq<Id>) {
    && |out| == |regs|
    && forall k :: 0 <= k < |regs| ==> Live(fwd, regs[k]) && out[k] == fwd[regs[k]].value
  }

  lemma {:induction false} TracksMoved(h: Heap, fwd: Forwarding, g: Heap, regs: seq<Id>, out: seq<Id>, e: Expected)
    requires Tracks(h, regs, e) && Relocates(h, fwd, g) && WellFormed(g) && Followed(fwd, regs, out)
    ensures Tracks(g, out, e)
  {
    hide Val, WellFormed, RenamedBody;
    forall k | 0 <= k < |out|
      ensures out[k] < |g| && Val(g, out[k]) == e.values[k] && (e.answers[k] ==> g[out[k]].interned)
    {
      assert Copied(h, fwd, g, regs[k]);
      RelocatedVal(h, fwd, g, regs[k]);
    }
  }

  method CollectStrings(table: EcmaStringTable, regs: seq<Id>, extra: set<Id>, ghost e: Expected) returns (out: seq<Id>)
    requires table.Valid() && Tracks(table.heap.nodes, regs, e)
    modifies table`table, table.heap
    ensures table.Valid() && Tracks(table.heap.nodes, out, e)
  {
    hide Val, WellFormed, TableOk, Relocates, Closed, RopePrograms.Denotes, Tracks;
    ghost var h := table.heap.nodes;
    TracksRange(h, regs, e);
    var permanent := PermanentStrings(table.heap);
    var roots := permanent + (set i | i in regs) + Ranged(extra, |table.heap.nodes|);
    assert forall i :: i in roots ==> i < |h|;
    var live := Mark(table.heap.nodes, roots);
    var fwd, moved := Evacuate(table.heap.nodes, live);
    RelocatesLength(h, fwd, moved);
    TableRootsLive(table.heap, fwd, live);
    SweepWeakReference(table, fwd, moved);
    out := [];
    for k := 0 to |regs|
      invariant |out| == k && forall j :: 0 <= j < k ==> Live(fwd, regs[j]) && out[j] == fwd[regs[j]].value
    {
      assert regs[k] in roots && regs[k] in live;
      out := out + [fwd[regs[k]].value];
    }
    TableHeap(table.heap.nodes, table.table);
    TracksMoved(h, fwd, moved, regs, out, e);
  }

  lemma RelocatesLength(h: Heap, fwd: Forwarding, g: Heap)
    requires Relocates(h, fwd, g)
    ensures |fwd| == |h|
  {
  }

  lemma TableRootsLive(heap: EcmaStringHeap, fwd: Forwarding, live: set<Id>)
    requires heap.Valid() && |fwd| == |heap.nodes|
    requires heap.emptyString in live && forall c :: 1 <= c < 128 ==> heap.singleChars[c] in live
    requires forall i :: 0 <= i < |fwd| ==> (fwd[i].Some? <==> i in live)
    ensures Live(fwd, heap.emptyString) && forall c :: 1 <= c < 128 ==> Live(fwd, heap.singleChars[c])
  {
    hide Val, WellFormed;
  }

  lemma TableHeap(h: Heap, t: seq<Entry>)
    requires TableOk(h, t)
    ensures WellFormed(h)
  {
  }

  method AnswerRequest(table: EcmaStringTable, regs: seq<Id>, q: Request, ghost e: Expected) returns (out: seq<Id>)
    requires table.Valid() && Tracks(table.heap.nodes, regs, e) && RequestOk(table.heap.nodes, q) && WellFormed(table.heap.nodes)
    modifies table`table, table.heap`nodes
    ensures table.Valid()
    ensures Tracks(table.heap.nodes, out, Expected(e.values + [RequestContent(old(table.heap.nodes), q)], e.answers + [true]))
  {
    hide Val, WellFormed, TableOk, KeepsStrings, Tracks, RequestOk, RequestContent;
    ghost var h := table.heap.nodes;
    var r := Serve(table, q);
    TracksKept(h, table.heap.nodes, regs, e);
    TableHeap(table.heap.nodes, table.table);
    TracksAnswer(table.heap.nodes, regs, e, r);
    out := regs + [r];
  }

  method Step(table: EcmaStringTable, regs: seq<Id>, op: Op, ghost e: Expected) returns (out: seq<Id>)
    requires table.Valid() && Tracks(table.heap.nodes, regs, e) && |e.values| == |e.answers|
    modifies table`table, table.heap
    ensures table.Valid() && Tracks(table.heap.nodes, out, Expect(e, op))
  {
    hide Val, WellFormed, TableOk, KeepsStrings, RopePrograms.Denotes, Compressible, Tracks;
    ghost var h := table.heap.nodes;
    TracksRange(h, regs, e);
    out := regs;
    match op {
      case Operate(o) =>
        TracksDenotes(h, regs, e);
        out := RopePrograms.Step(table.heap, regs, o, e.values);
        TableKept(h, table.heap.nodes, table.table);
        TracksOperation(h, table.heap.nodes, regs, out, e, o);
      case InternString(s) =>
        if s < |regs| { out := AnswerRequest(table, regs, Str(regs[s]), e); }
      case InternData(d) =>
        if 0 < |d| < MAX_STRING_LENGTH {
          var narrow := CanBeCompressed(d);
          if narrow { out := AnswerRequest(table, regs, Ascii(d), e); }
        }
      case Forget(k) =>
        if k < |regs| {
          TracksForget(h, regs, e, k);
          out := regs[..k] + regs[k + 1..];
        }
      case Collect(extra) =>
        out := CollectStrings(table, regs, extra, e);
    }
  }

  lemma TracksDenotes(h: Heap, regs: seq<Id>, e: Expected)
    requires Tracks(h, regs, e)
    ensures RopePrograms.Denotes(h, regs, e.values)
  {
  }

  /** What is expected after the first k steps. */
  ghost function After(ops: seq<Op>, k: nat): (e: Expected)
    requires k <= |ops|
    ensures |e.values| == |e.answers|
  {
    if k == 0 then Expected([], []) else Expect(After(ops, k - 1), ops[k - 1])
  }

  /** Over every run of string operations, interning requests and collections from the start, each handle denotes what a
      plain string would be, the table stays canonical, and two of its answers are the same object exactly when their
      contents are equal, however often both have been moved. */
  method Run(table: EcmaStringTable, ops: seq<Op>) returns (regs: seq<Id>)
    requires table.Valid()
    modifies table`table, table.heap
    ensures table.Valid() && Tracks(table.heap.nodes, regs, After(ops, |ops|))
    ensures |regs| == |After(ops, |ops|).values|
    ensures var e := After(ops, |ops|);
      forall p, q :: 0 <= p < |regs| && 0 <= q < |regs| && e.answers[p] && e.answers[q] ==>
        (regs[p] == regs[q] <==> e.values[p] == e.values[q])
  {
    hide Val, WellFormed, TableOk, Tracks, Expect;
    regs := [];
    TableHeap(table.heap.nodes, table.table);
    TracksNothing(table.heap.nodes);
    for k := 0 to |ops|
      invariant table.Valid() && Tracks(table.heap.nodes, regs, After(ops, k))
    {
      regs := Step(table, regs, ops[k], After(ops, k));
    }
    AnswersIdentical(table.heap.nodes, table.table, regs, After(ops, |ops|));
  }

  lemma TracksNothing(h: Heap)
    requires WellFormed(h)
    ensures Tracks(h, [], Expected([], []))
  {
  }

  lemma {:induction false} AnswersIdentical(h: Heap, t: seq<Entry>, regs: seq<Id>, e: Expected)
    requires TableOk(h, t) && Tracks(h, regs, e)
    ensures |regs| == |e.values| == |e.answers|
    ensures forall p, q :: 0 <= p < |regs| && 0 <= q < |regs| && e.answers[p] && e.answers[q] ==>
      (regs[p] == regs[q] <==> e.values[p] == e.values[q])
  {
    hide Val, WellFormed, TableOk;
    TracksRange(h, regs, e);
    forall p, q | 0 <= p < |regs| && 0 <= q < |regs| && e.answers[p] && e.answers[q]
      ensures regs[p] == regs[q] <==> e.values[p] == e.values[q]
    {
      InternedEqualIsIdentical(h, t, regs[p], regs[q]);
    }
  }
}
