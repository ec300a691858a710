/** Sweeping the intern table after a collection: dead strings leave, moved strings are followed. */
module TableSweep {
  import opened CodeUnits
  import opened Common
  import opened StringHash
  import opened Ropes
  import opened StringHeap
  import opened StringTable

  // Where the collector put each string; None for a dead one.
  type Forwarding = seq<Option<Id>>

  predicate Live(fwd: Forwarding, i: Id) {
    i < |fwd| && fwd[i].Some?
  }

  function RenamedBody(b: Body, fwd: Forwarding): (r: Body)
    requires b.Sliced? ==> b.parent < |fwd| && fwd[b.parent].Some?
    requires b.Tree? ==> b.first < |fwd| && fwd[b.first].Some? && b.second < |fwd| && fwd[b.second].Some?
  {
    match b
    case Sliced(p, s) => Sliced(fwd[p].value, s)
    case Tree(f, s) => Tree(fwd[f].value, fwd[s].value)
    case _ => b
  }

  /** A live string keeps what it points at alive, and its copy is the same string with its pointers followed. */
  ghost predicate Copied(h: Heap, fwd: Forwarding, g: Heap, i: Id)
    requires i < |h| == |fwd|
  {
    fwd[i].Some? ==>
      && fwd[i].value < |g|
      && (h[i].body.Sliced? ==> Live(fwd, h[i].body.parent))
      && (h[i].body.Tree? ==> Live(fwd, h[i].body.first) && Live(fwd, h[i].body.second))
      && g[fwd[i].value] == h[i].(body := RenamedBody(h[i].body, fwd))
  }

  ghost predicate Source(h: Heap, fwd: Forwarding, k: Id, i: Id) {
    i < |h| == |fwd| && fwd[i] == Some(k)
  }

  ghost predicate HasSource(h: Heap, fwd: Forwarding, k: Id) {
    exists i :: Source(h, fwd, k, i)
  }

  /** The heap after a collection is a partial injective renaming of the heap before, and nothing else. */
  ghost predicate Relocates(h: Heap, fwd: Forwarding, g: Heap) {
    && |fwd| == |h|
    && (forall i :: 0 <= i < |h| ==> Copied(h, fwd, g, i))
    && (forall i, j :: 0 <= i < j < |h| && fwd[i].Some? && fwd[j].Some? ==> fwd[i].value != fwd[j].value)
    && (forall k :: 0 <= k < |g| ==> HasSource(h, fwd, k))
  }

  lemma {:induction false} CopyOk(h: Heap, fwd: Forwarding, g: Heap, i: Id)
    requires WellFormed(h) && Relocates(h, fwd, g) && i < |h| && fwd[i].Some?
    ensures fwd[i].value < |g| && NodeOk(g, g[fwd[i].value])
  {
    hide Compressible;
    assert NodeOk(h, h[i]) && Copied(h, fwd, g, i);
    match h[i].body
    case Line(_) =>
    case Constant(_) =>
    case Sliced(p, _) => assert Copied(h, fwd, g, p);
    case Tree(f, s) => assert Copied(h, fwd, g, f) && Copied(h, fwd, g, s);
  }

  lemma {:induction false} RelocatedWellFormed(h: Heap, fwd: Forwarding, g: Heap)
    requires WellFormed(h) && Relocates(h, fwd, g)
    ensures WellFormed(g)
  {
    hide NodeOk;
    forall k | 0 <= k < |g| ensures NodeOk(g, g[k]) {
      assert HasSource(h, fwd, k);
      var i :| Source(h, fwd, k, i);
      CopyOk(h, fwd, g, i);
    }
  }

  /** Moving the heap changes no content. */
  lemma {:induction false} RelocatedVal(h: Heap, fwd: Forwarding, g: Heap, i: Id)
    requires WellFormed(h) && WellFormed(g) && Relocates(h, fwd, g) && i < |h| && fwd[i].Some?
    ensures fwd[i].value < |g| && Val(g, fwd[i].value) == Val(h, i)
    decreases h[i].length, if h[i].body.Tree? then 1 else 0
  {
    hide Compressible;
    assert NodeOk(h, h[i]) && Copied(h, fwd, g, i);
    match h[i].body
    case Line(_) =>
    case Constant(_) =>
    case Sliced(p, _) => assert Copied(h, fwd, g, p);
    case Tree(f, s) =>
      RelocatedVal(h, fwd, g, f);
      RelocatedVal(h, fwd, g, s);
  }

  /** The sweep of the first n entries. */
  ghost function Swept(t: seq<Entry>, fwd: Forwarding, n: nat): (r: seq<Entry>)
    requires n <= |t| && forall e :: 0 <= e < |t| ==> t[e].str < |fwd|
  {
    if n == 0 then []
    else
      var rest, e := Swept(t, fwd, n - 1), t[n - 1];
      if fwd[e.str].Some? then rest + [Entry(e.key, fwd[e.str].value)] else rest
  }

  lemma {:induction false} SweptEntries(h: Heap, fwd: Forwarding, g: Heap, t: seq<Entry>, n: nat)
    requires TableOk(h, t) && WellFormed(g) && Relocates(h, fwd, g) && n <= |t|
    requires forall e :: 0 <= e < |t| ==> t[e].str < |fwd|
    ensures EntriesOk(g, Swept(t, fwd, n))
    ensures forall d :: 0 <= d < |Swept(t, fwd, n)| ==> ComesFrom(h, g, t, n, Swept(t, fwd, n)[d])
    ensures Canonical(g, Swept(t, fwd, n))
  {
    hide Val, HashOf, WellFormed, NodeOk, Compressible;
    if n > 0 {
      SweptEntries(h, fwd, g, t, n - 1);
      var rest, e := Swept(t, fwd, n - 1), t[n - 1];
      var r := Swept(t, fwd, n);
      assert EntryOk(h, e);
      forall d | 0 <= d < |rest| ensures ComesFrom(h, g, t, n, rest[d]) {
        assert ComesFrom(h, g, t, n - 1, rest[d]);
        var o :| OriginOf(h, g, t, n - 1, rest[d], o);
        assert OriginOf(h, g, t, n, rest[d], o);
      }
      if fwd[e.str].Some? {
        RelocatedVal(h, fwd, g, e.str);
        assert Copied(h, fwd, g, e.str);
        assert OriginOf(h, g, t, n, r[|rest|], n - 1);
        forall d | 0 <= d < |rest| ensures Val(g, r[d].str) != Val(g, r[|rest|].str) {
          assert ComesFrom(h, g, t, n - 1, rest[d]);
          var o :| OriginOf(h, g, t, n - 1, rest[d], o);
          assert EntryOk(h, t[o]) && Val(h, t[o].str) != Val(h, t[n - 1].str);
        }
      }
    }
  }

  ghost predicate OriginOf(h: Heap, g: Heap, t: seq<Entry>, n: nat, e: Entry, o: int)
    requires WellFormed(h) && WellFormed(g)
  {
    0 <= o < n <= |t| && e.str < |g| && t[o].str < |h| && Val(g, e.str) == Val(h, t[o].str)
  }

  ghost predicate ComesFrom(h: Heap, g: Heap, t: seq<Entry>, n: nat, e: Entry)
    requires WellFormed(h) && WellFormed(g)
  {
    exists o :: OriginOf(h, g, t, n, e, o)
  }

  lemma {:induction false} SweptKeepsLive(t: seq<Entry>, fwd: Forwarding, n: nat, e: nat)
    requires e < n <= |t| && forall d :: 0 <= d < |t| ==> t[d].str < |fwd|
    requires fwd[t[e].str].Some?
    ensures InTable(Swept(t, fwd, n), fwd[t[e].str].value)
  {
    var rest := Swept(t, fwd, n - 1);
    if e == n - 1 {
      assert Swept(t, fwd, n)[|rest|].str == fwd[t[e].str].value;
    } else {
      SweptKeepsLive(t, fwd, n - 1, e);
      var d :| 0 <= d < |rest| && rest[d].str == fwd[t[e].str].value;
      assert Swept(t, fwd, n)[d] == rest[d];
    }
  }

  lemma {:induction false} SweptHashes(h: Heap, fwd: Forwarding, g: Heap)
    requires WellFormed(h) && WellFormed(g) && AllHashesOk(h) && Relocates(h, fwd, g)
    ensures AllHashesOk(g)
  {
    hide Val, HashOf, WellFormed, NodeOk, Compressible;
    forall k | 0 <= k < |g| ensures HashOk(g, k) {
      assert HasSource(h, fwd, k);
      var i :| Source(h, fwd, k, i);
      assert HashOk(h, i) && Copied(h, fwd, g, i);
      RelocatedVal(h, fwd, g, i);
    }
  }

  /** A sweep keeps the table canonical: every interned string of the new heap is its one entry. */
  lemma {:induction false} SweepKeepsTable(h: Heap, fwd: Forwarding, g: Heap, t: seq<Entry>)
    requires TableOk(h, t) && Relocates(h, fwd, g)
    requires forall e :: 0 <= e < |t| ==> t[e].str < |fwd|
    ensures TableOk(g, Swept(t, fwd, |t|))
  {
    hide Val, HashOf, WellFormed, NodeOk, Compressible;
    RelocatedWellFormed(h, fwd, g);
    SweptHashes(h, fwd, g);
    SweptEntries(h, fwd, g, t, |t|);
    forall k | 0 <= k < |g| && g[k].interned ensures InTable(Swept(t, fwd, |t|), k) {
      assert HasSource(h, fwd, k);
      var i :| Source(h, fwd, k, i);
      assert Copied(h, fwd, g, i);
      assert InTable(t, i);
      var e :| 0 <= e < |t| && t[e].str == i;
      SweptKeepsLive(t, fwd, |t|, e);
    }
  }

  lemma {:induction false} RelocatedRoots(h: Heap, fwd: Forwarding, g: Heap, empty: Id, singles: seq<Id>, singles': seq<Id>)
    requires Roots(h, empty, singles) && Relocates(h, fwd, g) && Live(fwd, empty)
    requires |singles'| == 128
    requires forall c :: 1 <= c < 128 ==> Live(fwd, singles[c]) && singles'[c] == fwd[singles[c]].value
    ensures Roots(g, fwd[empty].value, singles')
  {
    hide Val, NodeOk, WellFormed;
    RelocatedWellFormed(h, fwd, g);
    RelocatedVal(h, fwd, g, empty);
    assert Copied(h, fwd, g, empty);
    forall c | 1 <= c < 128 ensures singles'[c] < |g| && Val(g, singles'[c]) == [c] {
      RelocatedVal(h, fwd, g, singles[c]);
    }
  }

  /** A collection: the heap moves as the collector decided, and the table follows it entry by entry. */
  method SweepWeakReference(table: EcmaStringTable, fwd: Forwarding, moved: Heap)
    requires table.Valid() && Relocates(table.heap.nodes, fwd, moved)
    requires Live(fwd, table.heap.emptyString)
    requires forall c :: 1 <= c < 128 ==> Live(fwd, table.heap.singleChars[c])
    modifies table`table, table.heap
    ensures table.Valid() && table.heap.nodes == moved
    ensures forall i :: 0 <= i < |old(table.heap.nodes)| && fwd[i].Some? ==>
      fwd[i].value < |moved| && Val(moved, fwd[i].value) == Val(old(table.heap.nodes), i)
  {
    hide Val, HashOf, WellFormed, NodeOk, Compressible, Relocates, Canonical, AllHashesOk, InternedInTable;
    ghost var h, t0 := table.heap.nodes, table.table;
    TableIds(h, t0, fwd, moved);
    var swept := [];
    for k := 0 to |table.table|
      invariant table.table == t0 && swept == Swept(t0, fwd, k)
    {
      var e := table.table[k];
      match fwd[e.str] {
        case None =>
        case Some(to) => swept := swept + [Entry(e.key, to)];
      }
    }
    SweepKeepsTable(h, fwd, moved, t0);
    table.table := swept;
    table.heap.nodes := moved;
    var singles := table.heap.singleChars;
    table.heap.singleChars := seq(128, c requires 0 <= c < 128 => if Live(fwd, singles[c]) then fwd[singles[c]].value else 0);
    RelocatedRoots(h, fwd, moved, table.heap.emptyString, singles, table.heap.singleChars);
    table.heap.emptyString := fwd[table.heap.emptyString].value;
    forall i | 0 <= i < |h| && fwd[i].Some?
      ensures fwd[i].value < |moved| && Val(moved, fwd[i].value) == Val(h, i)
    {
      RelocatedVal(h, fwd, moved, i);
    }
  }

  lemma {:induction false} TableIds(h: Heap, t: seq<Entry>, fwd: Forwarding, g: Heap)
    requires TableOk(h, t) && Relocates(h, fwd, g)
    ensures |fwd| == |h| && WellFormed(g) && forall e :: 0 <= e < |t| ==> t[e].str < |fwd|
  {
    RelocatedWellFormed(h, fwd, g);
    forall e | 0 <= e < |t| ensures t[e].str < |fwd| { assert EntryOk(h, t[e]); }
  }
}
