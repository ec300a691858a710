/** The global handle storage: strong and weak populations, and whole runs over both. */
module GlobalStorage {
  import opened Common
  import opened NodeLists
  import opened HandleStore
  import opened HandleDispose
  import HandleIteration

  // The address of a node: the two populations never share memory.
  datatype Address = Address(isWeak: bool, h: Handle)

  // ----- how many blocks a population holds -----

  ghost function Elements<T>(s: seq<T>): (r: set<T>) {
    set x | x in s
  }

  lemma {:induction false} NoDupCard<T>(s: seq<T>)
    requires NoDup(s)
    ensures |Elements(s)| == |s|
  {
    if s == [] {
      assert Elements(s) == {};
    } else {
      var t, x := s[..|s| - 1], s[|s| - 1];
      NoDupCard(t);
      assert Elements(s) == Elements(t) + {x};
      assert x !in Elements(t);
    }
  }

  lemma {:induction false} SubsetCard<T>(a: set<T>, b: set<T>)
    requires a <= b
    ensures |a| <= |b|
  {
    assert b == a + (b - a);
  }

  /** A population never holds more than one block beyond its live handles. */
  lemma {:induction false} BlocksBounded(s: Store, sh: Shape, isWeak: bool)
    requires StoreOk(s, sh, isWeak)
    ensures |s.mem| <= |View(s, sh)| + 1
  {
    hide BlockOk, FreeChainOk, View, Linked;
    ghost var n := |sh.chain| - 1;
    NoDupCard(sh.chain);
    assert Elements(sh.chain) == s.mem.Keys;
    assert forall k :: 0 <= k < n ==> sh.chain[k] in s.mem && sh.lists[sh.chain[k]].used != [] by {
      forall k | 0 <= k < n ensures sh.chain[k] in s.mem && sh.lists[sh.chain[k]].used != [] {
        assert sh.chain[k] in sh.chain;
      }
    }
    var firsts: seq<Handle> := seq(n, k requires 0 <= k < n => Handle(sh.chain[k], sh.lists[sh.chain[k]].used[0]));
    NoDupCard(firsts);
    forall h | h in Elements(firsts) ensures h in View(s, sh).Keys {
      var k :| 0 <= k < n && firsts[k] == h;
      ViewAt(s, sh, isWeak, h);
    }
    SubsetCard(Elements(firsts), View(s, sh).Keys);
  }

  // ----- the two populations -----

  function EmptyStore(id: BlockId, isWeak: bool): (s: Store) {
    Store(map[id := NewBlock(isWeak)], id, id, None)
  }

  ghost function EmptyShape(id: BlockId): (sh: Shape) {
    Shape([id], [], map[id := Lists([], [])])
  }

  lemma {:induction false} EmptyOk(id: BlockId, isWeak: bool)
    ensures StoreOk(EmptyStore(id, isWeak), EmptyShape(id), isWeak) && View(EmptyStore(id, isWeak), EmptyShape(id)) == map[]
  {
    hide BlockOk;
    NewBlockOk(isWeak);
    var s, sh := EmptyStore(id, isWeak), EmptyShape(id);
    assert s.mem[id] == NewBlock(isWeak);
    assert LinkedAt(s.mem[id], [id], 0);
    assert LiveSet(sh) == {};
  }

  class EcmaGlobalStorage {
    var strong: Store
    var weak: Store
    ghost var strongShape: Shape
    ghost var weakShape: Shape

    ghost predicate Valid()
      reads this
    {
      StoreOk(strong, strongShape, false) && StoreOk(weak, weakShape, true)
    }

    /** The live handles of a population with their values. */
    ghost function Views(isWeak: bool): (v: map<Handle, Value>)
      reads this
    {
      if isWeak then View(weak, weakShape) else View(strong, strongShape)
    }

    /** The node is in a block that has not been deleted. */
    predicate IsAllocated(a: Address)
      reads this
    {
      a.h.block in (if a.isWeak then weak.mem else strong.mem) && a.h.index < BLOCK_SIZE
    }

    ghost predicate IsLive(a: Address)
      reads this
    {
      a.h in Views(a.isWeak)
    }

    constructor (strongId: BlockId, weakId: BlockId)
      ensures Valid() && Views(false) == map[] && Views(true) == map[]
    {
      strong, weak := EmptyStore(strongId, false), EmptyStore(weakId, true);
      strongShape, weakShape := EmptyShape(strongId), EmptyShape(weakId);
      new;
      EmptyOk(strongId, false);
      EmptyOk(weakId, true);
    }

    method New(isWeak: bool, value: Value) returns (a: Address)
      requires Valid()
      modifies this
      ensures Valid() && a.isWeak == isWeak && a.h !in old(Views(isWeak))
      ensures Views(isWeak) == old(Views(isWeak))[a.h := value] && Views(!isWeak) == old(Views(!isWeak))
    {
      hide StoreOk, View;
      if isWeak {
        var id := FreshId(weak.mem.Keys);
        var s, h; ghost var sh;
        s, h, sh := NewGlobalHandleImplement(weak, true, value, id, weakShape);
        weak, weakShape := s, sh;
        a := Address(true, h);
      } else {
        var id := FreshId(strong.mem.Keys);
        var s, h; ghost var sh;
        s, h, sh := NewGlobalHandleImplement(strong, false, value, id, strongShape);
        strong, strongShape := s, sh;
        a := Address(false, h);
      }
    }

    method NewGlobalHandle(value: Value) returns (a: Address)
      requires Valid()
      modifies this
      ensures Valid() && !a.isWeak && a.h !in old(Views(false))
      ensures Views(false) == old(Views(false))[a.h := value] && Views(true) == old(Views(true))
    {
      a := New(false, value);
    }

    /** What the node holds now. */
    function ObjectAt(a: Address): (v: Value)
      requires IsAllocated(a)
      reads this
    {
      var b := (if a.isWeak then weak.mem else strong.mem)[a.h.block];
      if a.h.index < |b.nodes| then b.nodes[a.h.index].obj else UNDEFINED
    }

    lemma ObjectOfLive(a: Address)
      requires Valid() && IsAllocated(a) && IsLive(a)
      ensures ObjectAt(a) == Views(a.isWeak)[a.h]
    {
      hide BlockOk, ChainOk, FreeChainOk, FullOk, View;
      if a.isWeak {
        ViewAt(weak, weakShape, true, a.h);
      } else {
        ViewAt(strong, strongShape, false, a.h);
      }
    }

    /** The node has been handed out at least once. */
    ghost predicate WasUsed(a: Address)
      requires IsAllocated(a)
      reads this
    {
      a.h.index < (if a.isWeak then weak.mem else strong.mem)[a.h.block].index
    }

    /** A disposed handle's node forgets its value. */
    lemma ObjectOfFreed(a: Address)
      requires Valid() && IsAllocated(a) && WasUsed(a) && !IsLive(a)
      ensures ObjectAt(a) == UNDEFINED
    {
      hide BlockOk, ChainOk, FreeChainOk, FullOk, View;
      if a.isWeak {
        UsingIsLive(weak, weakShape, true, a.h);
      } else {
        UsingIsLive(strong, strongShape, false, a.h);
      }
    }

    /** Disposing removes the handle; on a node that is not in use it does nothing. */
    method DisposeGlobalHandle(a: Address)
      requires Valid() && IsAllocated(a)
      modifies this
      ensures Valid()
      ensures Views(a.isWeak) == old(Views(a.isWeak)) - {a.h} && Views(!a.isWeak) == old(Views(!a.isWeak))
    {
      hide BlockOk, ChainOk, FreeChainOk, FullOk, View, ShapeAfterDispose;
      if a.isWeak {
        UsingIsLive(weak, weakShape, true, a.h);
      } else {
        UsingIsLive(strong, strongShape, false, a.h);
      }
      var node := (if a.isWeak then weak.mem else strong.mem)[a.h.block].nodes[a.h.index];
      if !node.isUsing {
        return;
      }
      var s; ghost var sh;
      if node.isWeak {
        s, sh := DisposeGlobalHandleInner(weak, true, a.h, weakShape);
        weak, weakShape := s, sh;
      } else {
        s, sh := DisposeGlobalHandleInner(strong, false, a.h, strongShape);
        strong, strongShape := s, sh;
      }
    }

    /** Moves a handle with its value into the population isWeak. */
    method MoveTo(a: Address, isWeak: bool) returns (r: Address)
      requires Valid() && IsAllocated(a)
      modifies this
      ensures Valid() && r.isWeak == isWeak
      ensures var from := old(Views(a.isWeak)) - {a.h};
        if a.isWeak == isWeak then r.h !in from && Views(isWeak) == from[r.h := old(ObjectAt(a))] && Views(!isWeak) == old(Views(!isWeak))
        else r.h !in old(Views(isWeak)) && Views(isWeak) == old(Views(isWeak))[r.h := old(ObjectAt(a))] && Views(!isWeak) == from
    {
      hide StoreOk, View;
      var value := ObjectAt(a);
      DisposeGlobalHandle(a);
      r := New(isWeak, value);
    }

    /** Makes a handle weak: exactly one handle changes population, with its value. A node that is not in use gives a new
        weak handle of what it holds. */
    method SetWeak(a: Address) returns (r: Address)
      requires Valid() && IsAllocated(a)
      modifies this
      ensures Valid() && r.isWeak
      ensures old(IsLive(a)) && !a.isWeak ==>
        && Views(false) == old(Views(false)) - {a.h}
        && r.h !in old(Views(true)) && Views(true) == old(Views(true))[r.h := old(Views(false)[a.h])]
      ensures old(IsLive(a)) && a.isWeak ==>
        && Views(false) == old(Views(false)) && r.h !in old(Views(true)) - {a.h}
        && Views(true) == (old(Views(true)) - {a.h})[r.h := old(Views(true)[a.h])]
      ensures !old(IsLive(a)) ==>
        Views(false) == old(Views(false)) && r.h !in old(Views(true)) && Views(true) == old(Views(true))[r.h := old(ObjectAt(a))]
    {
      hide StoreOk, View;
      if IsLive(a) {
        ObjectOfLive(a);
      } else {
        assert Views(a.isWeak) - {a.h} == Views(a.isWeak);
      }
      r := MoveTo(a, true);
    }

    /** Makes a handle strong again: exactly one handle changes population, with its value. A node that is not in use gives
        a new strong handle of what it holds. */
    method ClearWeak(a: Address) returns (r: Address)
      requires Valid() && IsAllocated(a)
      modifies this
      ensures Valid() && !r.isWeak
      ensures old(IsLive(a)) && a.isWeak ==>
        && Views(true) == old(Views(true)) - {a.h}
        && r.h !in old(Views(false)) && Views(false) == old(Views(false))[r.h := old(Views(true)[a.h])]
      ensures old(IsLive(a)) && !a.isWeak ==>
        && Views(true) == old(Views(true)) && r.h !in old(Views(false)) - {a.h}
        && Views(false) == (old(Views(false)) - {a.h})[r.h := old(Views(false)[a.h])]
      ensures !old(IsLive(a)) ==>
        Views(true) == old(Views(true)) && r.h !in old(Views(false)) && Views(false) == old(Views(false))[r.h := old(ObjectAt(a))]
    {
      hide StoreOk, View;
      if IsLive(a) {
        ObjectOfLive(a);
      } else {
        assert Views(a.isWeak) - {a.h} == Views(a.isWeak);
      }
      r := MoveTo(a, false);
    }

    /** Visits the live handles of a population; the visitor disposes those it decides on. */
    method IterateUsage(isWeak: bool, decide: Handle -> bool) returns (visited: seq<Handle>)
      requires Valid()
      modifies this
      ensures Valid() && Views(!isWeak) == old(Views(!isWeak))
      ensures NoDup(visited) && forall h :: h in visited <==> h in old(Views(isWeak))
      ensures Views(isWeak) == map h | h in old(Views(isWeak)) && !decide(h) :: old(Views(isWeak))[h]
    {
      hide StoreOk, View, NoDup;
      var s; ghost var sh;
      if isWeak {
        s, visited, sh := HandleIteration.IterateUsageGlobal(weak, true, decide, weakShape);
        weak, weakShape := s, sh;
      } else {
        s, visited, sh := HandleIteration.IterateUsageGlobal(strong, false, decide, strongShape);
        strong, strongShape := s, sh;
      }
    }

    lemma LiveIsAllocated(a: Address)
      requires Valid() && IsLive(a)
      ensures IsAllocated(a)
    {
      hide BlockOk, ChainOk, FreeChainOk, FullOk, View;
      if a.isWeak {
        ViewAt(weak, weakShape, true, a.h);
        BlockAt(weak, weakShape, true, a.h.block);
        BlockSize(weak.mem[a.h.block], weakShape.lists[a.h.block], true);
      } else {
        ViewAt(strong, strongShape, false, a.h);
        BlockAt(strong, strongShape, false, a.h.block);
        BlockSize(strong.mem[a.h.block], strongShape.lists[a.h.block], false);
      }
    }
  }

  // ----- whole runs -----

  // One step of a client. Operands name earlier handles; New appends one.
  datatype Op = New(value: Value) | Dispose(k: nat) | MakeWeak(k: nat) | MakeStrong(k: nat)

  // What the client may expect of the handle it holds: its population and its value.
  datatype Held = Held(isWeak: bool, value: Value)

  /** What a client expects: handles are independent cells, whatever blocks they live in. */
  ghost function Expect(env: seq<Option<Held>>, op: Op): (r: seq<Option<Held>>) {
    match op
    case New(v) => env + [Some(Held(false, v))]
    case Dispose(k) => if k < |env| then env[k := None] else env
    case MakeWeak(k) => if k < |env| && env[k].Some? then env[k := Some(Held(true, env[k].value.value))] else env
    case MakeStrong(k) => if k < |env| && env[k].Some? then env[k := Some(Held(false, env[k].value.value))] else env
  }

  ghost function ExpectAll(env: seq<Option<Held>>, ops: seq<Op>): (r: seq<Option<Held>>)
    decreases |ops|
  {
    if ops == [] then env else Expect(ExpectAll(env, ops[..|ops| - 1]), ops[|ops| - 1])
  }

  ghost function ViewOf(strong: map<Handle, Value>, weak: map<Handle, Value>, isWeak: bool): (v: map<Handle, Value>) {
    if isWeak then weak else strong
  }

  /** Register k holds what is expected of it, no two registers alias, and there are no other live handles. */
  ghost predicate Holds(strong: map<Handle, Value>, weak: map<Handle, Value>, regs: seq<Option<Address>>, env: seq<Option<Held>>) {
    && |regs| == |env|
    && (forall k :: 0 <= k < |regs| ==> HoldsAt(strong, weak, regs[k], env[k]))
    && (forall j, k :: 0 <= j < k < |regs| && regs[j].Some? && regs[k].Some? ==> regs[j] != regs[k])
    && (forall a: Address :: a.h in ViewOf(strong, weak, a.isWeak) ==> Some(a) in regs)
  }

  ghost predicate HoldsAt(strong: map<Handle, Value>, weak: map<Handle, Value>, r: Option<Address>, e: Option<Held>) {
    && (r.Some? <==> e.Some?)
    && (r.Some? ==> r.value.isWeak == e.value.isWeak && r.value.h in ViewOf(strong, weak, r.value.isWeak)
                    && ViewOf(strong, weak, r.value.isWeak)[r.value.h] == e.value.value)
  }

  lemma {:induction false} HoldsNew(s: map<Handle, Value>, w: map<Handle, Value>, regs: seq<Option<Address>>, env: seq<Option<Held>>, h: Handle, v: Value)
    requires Holds(s, w, regs, env) && h !in s
    ensures Holds(s[h := v], w, regs + [Some(Address(false, h))], env + [Some(Held(false, v))])
  {
    var s', regs', env' := s[h := v], regs + [Some(Address(false, h))], env + [Some(Held(false, v))];
    forall k | 0 <= k < |regs'| ensures HoldsAt(s', w, regs'[k], env'[k]) {
      if k < |regs| { assert HoldsAt(s, w, regs[k], env[k]); }
    }
    forall j, k | 0 <= j < k < |regs'| && regs'[j].Some? && regs'[k].Some? ensures regs'[j] != regs'[k] {
      assert HoldsAt(s, w, regs[j], env[j]);
    }
    forall a: Address | a.h in ViewOf(s', w, a.isWeak) ensures Some(a) in regs' {
      if a == Address(false, h) {
        assert regs'[|regs|] == Some(a);
      } else {
        assert a.h in ViewOf(s, w, a.isWeak);
        var k :| 0 <= k < |regs| && regs[k] == Some(a);
        assert regs'[k] == Some(a);
      }
    }
  }

  lemma {:induction false} HoldsDispose(s: map<Handle, Value>, w: map<Handle, Value>, regs: seq<Option<Address>>, env: seq<Option<Held>>, k: nat)
    requires Holds(s, w, regs, env) && k < |regs| && regs[k].Some?
    ensures var a := regs[k].value;
      Holds(if a.isWeak then s else s - {a.h}, if a.isWeak then w - {a.h} else w, regs[k := None], env[k := None])
  {
    var a := regs[k].value;
    var s', w', regs', env' := if a.isWeak then s else s - {a.h}, if a.isWeak then w - {a.h} else w, regs[k := None], env[k := None];
    forall j | 0 <= j < |regs'| ensures HoldsAt(s', w', regs'[j], env'[j]) {
      assert HoldsAt(s, w, regs[j], env[j]);
      if j != k && regs[j].Some? { assert regs[j] != regs[k]; }
    }
    forall i, j | 0 <= i < j < |regs'| && regs'[i].Some? && regs'[j].Some? ensures regs'[i] != regs'[j] {}
    forall b: Address | b.h in ViewOf(s', w', b.isWeak) ensures Some(b) in regs' {
      assert b.h in ViewOf(s, w, b.isWeak);
      var j :| 0 <= j < |regs| && regs[j] == Some(b);
      assert j != k;
      assert regs'[j] == Some(b);
    }
  }

  lemma {:induction false} HoldsRenew(s: map<Handle, Value>, w: map<Handle, Value>, regs: seq<Option<Address>>, env: seq<Option<Held>>, k: nat, a: Address, v: Value)
    requires Holds(s, w, regs, env) && k < |regs| && regs[k].None? && a.h !in ViewOf(s, w, a.isWeak)
    ensures Holds(if a.isWeak then s else s[a.h := v], if a.isWeak then w[a.h := v] else w, regs[k := Some(a)], env[k := Some(Held(a.isWeak, v))])
  {
    var s', w' := if a.isWeak then s else s[a.h := v], if a.isWeak then w[a.h := v] else w;
    var regs', env' := regs[k := Some(a)], env[k := Some(Held(a.isWeak, v))];
    forall j | 0 <= j < |regs'| ensures HoldsAt(s', w', regs'[j], env'[j]) {
      assert HoldsAt(s, w, regs[j], env[j]);
    }
    forall i, j | 0 <= i < j < |regs'| && regs'[i].Some? && regs'[j].Some? ensures regs'[i] != regs'[j] {
      assert HoldsAt(s, w, regs[i], env[i]) && HoldsAt(s, w, regs[j], env[j]);
    }
    forall b: Address | b.h in ViewOf(s', w', b.isWeak) ensures Some(b) in regs' {
      if b == a {
        assert regs'[k] == Some(b);
      } else {
        assert b.h in ViewOf(s, w, b.isWeak);
        var j :| 0 <= j < |regs| && regs[j] == Some(b);
        assert regs'[j] == Some(b);
      }
    }
  }

  method Step(g: EcmaGlobalStorage, regs: seq<Option<Address>>, op: Op, ghost env: seq<Option<Held>>) returns (out: seq<Option<Address>>)
    requires g.Valid() && Holds(g.Views(false), g.Views(true), regs, env)
    modifies g
    ensures g.Valid() && Holds(g.Views(false), g.Views(true), out, Expect(env, op))
  {
    hide StoreOk, View, Holds;
    HoldsLength(g.Views(false), g.Views(true), regs, env);
    match op {
      case New(v) =>
        var a := g.NewGlobalHandle(v);
        HoldsNew(old(g.Views(false)), g.Views(true), regs, env, a.h, v);
        out := regs + [Some(a)];
      case Dispose(k) =>
        out := Release(g, regs, k, env);
      case MakeWeak(k) =>
        out := Migrate(g, regs, k, true, env);
      case MakeStrong(k) =>
        out := Migrate(g, regs, k, false, env);
    }
  }

  method Release(g: EcmaGlobalStorage, regs: seq<Option<Address>>, k: nat, ghost env: seq<Option<Held>>) returns (out: seq<Option<Address>>)
    requires g.Valid() && Holds(g.Views(false), g.Views(true), regs, env)
    modifies g
    ensures g.Valid() && Holds(g.Views(false), g.Views(true), out, Expect(env, Dispose(k)))
  {
    hide StoreOk, View, Holds;
    HoldsLength(g.Views(false), g.Views(true), regs, env);
    out := regs;
    if k < |regs| {
      HeldAt(g.Views(false), g.Views(true), regs, env, k);
      if regs[k].Some? {
        var a := regs[k].value;
        g.LiveIsAllocated(a);
        HoldsDispose(g.Views(false), g.Views(true), regs, env, k);
        g.DisposeGlobalHandle(a);
        out := regs[k := None];
      } else {
        assert env[k := None] == env;
      }
    }
  }

  method Migrate(g: EcmaGlobalStorage, regs: seq<Option<Address>>, k: nat, isWeak: bool, ghost env: seq<Option<Held>>) returns (out: seq<Option<Address>>)
    requires g.Valid() && Holds(g.Views(false), g.Views(true), regs, env)
    modifies g
    ensures g.Valid() && Holds(g.Views(false), g.Views(true), out, Expect(env, if isWeak then MakeWeak(k) else MakeStrong(k)))
  {
    hide StoreOk, View, Holds;
    ghost var s, w := g.Views(false), g.Views(true);
    HoldsLength(s, w, regs, env);
    out := regs;
    if k < |regs| {
      HeldAt(s, w, regs, env, k);
      if regs[k].Some? {
        var a := regs[k].value;
        g.LiveIsAllocated(a);
        g.ObjectOfLive(a);
        HoldsDispose(s, w, regs, env, k);
        ghost var s', w' := if a.isWeak then s else s - {a.h}, if a.isWeak then w - {a.h} else w;
        var r: Address;
        if isWeak {
          r := g.SetWeak(a);
        } else {
          r := g.ClearWeak(a);
        }
        HoldsRenew(s', w', regs[k := None], env[k := None], k, r, env[k].value.value);
        out := regs[k := Some(r)];
        assert regs[k := None][k := Some(r)] == out;
        assert env[k := None][k := Some(Held(isWeak, env[k].value.value))] == env[k := Some(Held(isWeak, env[k].value.value))];
      }
    }
  }

  lemma HoldsLength(s: map<Handle, Value>, w: map<Handle, Value>, regs: seq<Option<Address>>, env: seq<Option<Held>>)
    requires Holds(s, w, regs, env)
    ensures |regs| == |env|
  {
  }

  lemma HeldAt(s: map<Handle, Value>, w: map<Handle, Value>, regs: seq<Option<Address>>, env: seq<Option<Held>>, k: nat)
    requires Holds(s, w, regs, env) && k < |regs|
    ensures |env| == |regs| && HoldsAt(s, w, regs[k], env[k])
  {
  }

  /** Over every run from the start, each outstanding handle is live in its population with its value, no two alias,
      no other handle is live, and both populations keep their structure. */
  method Run(g: EcmaGlobalStorage, ops: seq<Op>) returns (regs: seq<Option<Address>>)
    requires g.Valid() && g.Views(false) == map[] && g.Views(true) == map[]
    modifies g
    ensures g.Valid() && Holds(g.Views(false), g.Views(true), regs, ExpectAll([], ops))
  {
    hide StoreOk, View, Holds;
    regs := [];
    HoldsNothing();
    for k := 0 to |ops|
      invariant g.Valid() && Holds(g.Views(false), g.Views(true), regs, ExpectAll([], ops[..k]))
    {
      assert ops[..k + 1][..k] == ops[..k];
      regs := Step(g, regs, ops[k], ExpectAll([], ops[..k]));
    }
    assert ops[..|ops|] == ops;
  }

  lemma HoldsNothing()
    ensures Holds(map[], map[], [], [])
  {
  }
}
