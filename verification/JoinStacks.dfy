/** The cycle detector of Array.prototype.join: a vector of slots holding the receivers being joined. */
module JoinStacks {
  import opened Common

  const MIN_JOIN_STACK_SIZE: nat := 2

  // A slot holds a receiver or the hole. Receivers are objects, so SameValue is identity.
  datatype Slot = Hole | Receiver(id: nat)

  /** The occupied slots are a prefix holding list; an empty list means exactly two holes. */
  ghost predicate Represents(slots: seq<Slot>, list: seq<Slot>) {
    && MIN_JOIN_STACK_SIZE <= |slots| && |list| <= |slots|
    && slots[..|list|] == list && (forall i :: |list| <= i < |slots| ==> slots[i] == Hole)
    && (list == [] ==> slots == [Hole, Hole])
  }

  ghost predicate IsStack(list: seq<Slot>) {
    Hole !in list && NoDup(list)
  }

  /** What popping receiver r does to the slots, wherever it is. */
  ghost function Popped(slots: seq<Slot>, r: Slot): (out: seq<Slot>) {
    if r !in slots then slots
    else
      var i := FirstIndex(slots, r);
      if i == 0 && |slots| > MIN_JOIN_STACK_SIZE then [Hole, Hole] else slots[i := Hole]
  }

  ghost function FirstIndex(s: seq<Slot>, r: Slot): (i: nat)
    requires r in s
    ensures i < |s| && s[i] == r && r !in s[..i]
  {
    if s[0] == r then 0 else 1 + FirstIndex(s[1..], r)
  }

  ghost function Without(list: seq<Slot>, r: Slot): (out: seq<Slot>) {
    if r in list then list[..FirstIndex(list, r)] + list[FirstIndex(list, r) + 1..] else list
  }

  lemma {:induction false} FirstIndexUnique(s: seq<Slot>, r: Slot, i: nat)
    requires i < |s| && s[i] == r && r !in s[..i]
    ensures r in s && FirstIndex(s, r) == i
    decreases |s|
  {
    if i > 0 {
      assert s[0] in s[..i];
      assert s[1..][..i - 1] == s[..i][1..];
      FirstIndexUnique(s[1..], r, i - 1);
    }
  }

  lemma {:induction false} FirstInPrefix(slots: seq<Slot>, list: seq<Slot>, r: Slot)
    requires Represents(slots, list) && IsStack(list) && r != Hole
    ensures r in slots <==> r in list
    ensures r in list ==> FirstIndex(slots, r) == FirstIndex(list, r)
  {
    if r in list {
      var j := FirstIndex(list, r);
      assert slots[..j] == list[..j];
      FirstIndexUnique(slots, r, j);
    }
  }

  lemma {:induction false} NotPrefix(slots: seq<Slot>, list: seq<Slot>, i: nat)
    requires i < |list| && (|slots| <= i || slots[i] != list[i])
    ensures !Represents(slots, list)
  {
    if |list| <= |slots| { assert slots[..|list|][i] == slots[i]; }
  }

  /** Popping removes exactly the receiver if and only if it is the one pushed last, or was not in progress. */
  lemma {:induction false} PopIsExact(slots: seq<Slot>, list: seq<Slot>, r: Slot)
    requires Represents(slots, list) && IsStack(list) && r != Hole
    ensures Represents(Popped(slots, r), Without(list, r)) <==> r !in list || list[|list| - 1] == r
  {
    hide Represents, Popped, Without, IsStack;
    FirstInPrefix(slots, list, r);
    if r !in list {
      PopAbsent(slots, list, r);
    } else if FirstIndex(list, r) == |list| - 1 {
      PopLast(slots, list, r);
    } else {
      PopInner(slots, list, r);
    }
  }

  lemma PopAbsent(slots: seq<Slot>, list: seq<Slot>, r: Slot)
    requires r !in slots && r !in list
    ensures Popped(slots, r) == slots && Without(list, r) == list
  {
  }

  lemma {:induction false} PopLast(slots: seq<Slot>, list: seq<Slot>, r: Slot)
    requires Represents(slots, list) && r in slots && r in list && FirstIndex(slots, r) == FirstIndex(list, r) == |list| - 1
    ensures Represents(Popped(slots, r), Without(list, r))
  {
    var i := |list| - 1;
    assert Popped(slots, r) == (if i == 0 && |slots| > MIN_JOIN_STACK_SIZE then [Hole, Hole] else slots[i := Hole]);
    assert Without(list, r) == list[..i];
    hide FirstIndex, Popped, Without;
    assert list[..0] == [];
    if i == 0 { ClearOnly(slots, list); } else { ClearLast(slots, list, i); }
  }

  lemma ClearOnly(slots: seq<Slot>, list: seq<Slot>)
    requires Represents(slots, list) && |list| == 1
    ensures Represents(if |slots| > MIN_JOIN_STACK_SIZE then [Hole, Hole] else slots[0 := Hole], [])
  {
  }

  lemma {:induction false} ClearLast(slots: seq<Slot>, list: seq<Slot>, i: nat)
    requires Represents(slots, list) && 0 < i == |list| - 1
    ensures Represents(slots[i := Hole], list[..i])
  {
    assert slots[i := Hole][..i] == slots[..|list|][..i];
  }

  lemma {:induction false} PopInner(slots: seq<Slot>, list: seq<Slot>, r: Slot)
    requires Represents(slots, list) && IsStack(list) && r in slots && r in list
    requires FirstIndex(slots, r) == FirstIndex(list, r) < |list| - 1
    ensures !Represents(Popped(slots, r), Without(list, r)) && list[|list| - 1] != r
  {
    var i, out, rest := FirstIndex(list, r), Popped(slots, r), Without(list, r);
    assert rest[i] == list[i + 1] && list[i + 1] in list;
    assert list[|list| - 1] != list[i];
    hide Represents;
    NotPrefix(out, rest, i);
  }

  /** Popping out of order loses receivers that are still in progress. */
  lemma {:induction false} PopOutOfOrder()
    ensures Popped([Receiver(0), Receiver(1), Receiver(2)], Receiver(0)) == [Hole, Hole]
  {
    assert [Receiver(0), Receiver(1), Receiver(2)][0] == Receiver(0);
  }

  class JoinStack {
    var joinStack: seq<Slot>
    ghost var inProgress: seq<Slot>    // the receivers being joined, outermost first

    ghost predicate Valid()
      reads this
    {
      Represents(joinStack, inProgress) && IsStack(inProgress)
    }

    constructor ()
      ensures Valid() && inProgress == []
    {
      joinStack, inProgress := [Hole, Hole], [];
    }

    method JoinStackPush(r: Slot) returns (ok: bool)
      requires Valid() && r != Hole
      modifies this
      ensures Valid() && (ok <==> r !in old(inProgress))
      ensures inProgress == if ok then old(inProgress) + [r] else old(inProgress)
    {
      var capacity := |joinStack|;
      var i := 0;
      while i < capacity
        invariant 0 <= i <= |inProgress| && i <= capacity && r !in joinStack[..i]
        invariant joinStack == old(joinStack) && inProgress == old(inProgress)
        decreases capacity - i
      {
        if joinStack[i] == Hole {
          assert i == |inProgress|;
          assert r !in inProgress;
          PushKeeps(joinStack, inProgress, r, joinStack[i := r]);
          joinStack := joinStack[i := r];
          inProgress := inProgress + [r];
          return true;
        }
        if joinStack[i] == r {
          assert inProgress[i] == r;
          return false;
        }
        i := i + 1;
      }
      assert joinStack[..capacity] == joinStack;
      PushKeeps(joinStack, inProgress, r, joinStack + [r]);
      joinStack := joinStack + [r];
      inProgress := inProgress + [r];
      return true;
    }

    /** Entering a join: refused exactly when the receiver is already being joined. */
    method JoinStackPushFastPath(r: Slot) returns (ok: bool)
      requires Valid() && r != Hole
      modifies this
      ensures Valid() && (ok <==> r !in old(inProgress))
      ensures inProgress == if ok then old(inProgress) + [r] else old(inProgress)
    {
      if joinStack[0] == Hole {
        assert inProgress == [];
        PushKeeps(joinStack, inProgress, r, joinStack[0 := r]);
        joinStack := joinStack[0 := r];
        inProgress := inProgress + [r];
        return true;
      }
      ok := JoinStackPush(r);
    }

    /** Clears the slot of a receiver; the slots become exactly what Popped says, in or out of order. */
    method JoinStackPop(r: Slot)
      modifies this`joinStack
      ensures joinStack == Popped(old(joinStack), r)
    {
      var length := |joinStack|;
      var i := 0;
      while i < length
        invariant 0 <= i <= length && joinStack == old(joinStack) && r !in joinStack[..i]
      {
        if joinStack[i] == r {
          FirstIndexUnique(joinStack, r, i);
          if i == 0 && length > MIN_JOIN_STACK_SIZE {
            joinStack := [Hole, Hole];
          } else {
            joinStack := joinStack[i := Hole];
          }
          return;
        }
        i := i + 1;
      }
      assert joinStack[..length] == joinStack;
    }

    /** Leaving a join: the stack loses exactly that receiver if and only if it was entered last or is not in progress. */
    method JoinStackPopFastPath(r: Slot)
      requires joinStack != []
      modifies this
      ensures joinStack == Popped(old(joinStack), r) && inProgress == Without(old(inProgress), r)
      ensures old(Valid()) && r != Hole ==>
        (Valid() <==> r !in old(inProgress) || old(inProgress)[|old(inProgress)| - 1] == r)
      ensures old(Valid()) && old(inProgress) != [] && old(inProgress)[|old(inProgress)| - 1] == r ==>
        inProgress == old(inProgress)[..|old(inProgress)| - 1]
    {
      ghost var slots, list := joinStack, inProgress;
      var length := |joinStack|;
      if joinStack[0] == r && length == MIN_JOIN_STACK_SIZE {
        joinStack := joinStack[0 := Hole];
        FirstIndexUnique(slots, r, 0);
      } else {
        JoinStackPop(r);
      }
      inProgress := Without(inProgress, r);
      LeavingKeeps(slots, list, r);
    }
  }

  lemma StackShape(slots: seq<Slot>, list: seq<Slot>)
    requires Represents(slots, list) && IsStack(list) && list != []
    ensures slots != [] && list[|list| - 1] != Hole
  {
    assert list[|list| - 1] in list;
  }

  lemma {:induction false} LeavingKeeps(slots: seq<Slot>, list: seq<Slot>, r: Slot)
    ensures Represents(slots, list) && IsStack(list) && r != Hole ==>
      (Represents(Popped(slots, r), Without(list, r)) && IsStack(Without(list, r)) <==> r !in list || list[|list| - 1] == r)
    ensures IsStack(list) && list != [] && list[|list| - 1] == r ==> Without(list, r) == list[..|list| - 1]
  {
    hide Popped, Represents;
    if IsStack(list) && list != [] && list[|list| - 1] == r { LastIsFirst(list); }
    if Represents(slots, list) && IsStack(list) && r != Hole { PopIsExact(slots, list, r); }
  }

  lemma {:induction false} PushKeeps(slots: seq<Slot>, list: seq<Slot>, r: Slot, out: seq<Slot>)
    requires Represents(slots, list) && IsStack(list) && r != Hole && r !in list
    requires if |list| < |slots| then out == slots[|list| := r] else out == slots + [r]
    ensures Represents(out, list + [r]) && IsStack(list + [r])
  {
    assert out[..|list| + 1] == list + [r];
  }

  lemma {:induction false} LastIsFirst(list: seq<Slot>)
    requires IsStack(list) && list != []
    ensures FirstIndex(list, list[|list| - 1]) == |list| - 1
    ensures Without(list, list[|list| - 1]) == list[..|list| - 1]
  {
    var n := |list| - 1;
    FirstIndexUnique(list, list[n], n);
    assert list[..n] + list[n + 1..] == list[..n];
  }

  // ----- whole runs -----

  datatype Op = Enter(id: nat) | Leave

  /** What the detector must decide: enter unless already inside, leave innermost first. */
  ghost function Expect(list: seq<Slot>, op: Op): (r: seq<Slot>) {
    match op
    case Enter(id) => if Receiver(id) in list then list else list + [Receiver(id)]
    case Leave => if list == [] then list else list[..|list| - 1]
  }

  /** The receivers in progress after the first k steps. */
  ghost function After(ops: seq<Op>, k: nat): (r: seq<Slot>)
    requires k <= |ops|
  {
    if k == 0 then [] else Expect(After(ops, k - 1), ops[k - 1])
  }

  method Step(s: JoinStack, nested: seq<Slot>, op: Op) returns (out: seq<Slot>, ok: bool)
    requires s.Valid() && s.inProgress == nested
    modifies s
    ensures s.Valid() && s.inProgress == out == Expect(nested, op)
    ensures op.Enter? ==> (ok <==> Receiver(op.id) !in nested)
  {
    hide Represents, IsStack;
    out, ok := nested, false;
    match op {
      case Enter(id) =>
        ok := s.JoinStackPushFastPath(Receiver(id));
        if ok { out := nested + [Receiver(id)]; }
      case Leave =>
        if nested != [] {
          StackShape(s.joinStack, nested);
          s.JoinStackPopFastPath(nested[|nested| - 1]);
          out := nested[..|nested| - 1];
        }
    }
  }

  /** Over every nested run the occupied slots are exactly the receivers being joined, and each entry is refused
      exactly when it would close a cycle. */
  method Run(ops: seq<Op>) returns (s: JoinStack, entered: seq<bool>)
    ensures s.Valid() && s.inProgress == After(ops, |ops|) && |entered| == |ops|
    ensures forall k :: 0 <= k < |ops| && ops[k].Enter? ==> (entered[k] <==> Receiver(ops[k].id) !in After(ops, k))
  {
    hide Represents, IsStack, Expect;
    s := new JoinStack();
    entered := [];
    var nested: seq<Slot> := [];
    for k := 0 to |ops|
      invariant s.Valid() && s.inProgress == nested == After(ops, k) && |entered| == k && fresh(s)
      invariant forall j :: 0 <= j < k && ops[j].Enter? ==> (entered[j] <==> Receiver(ops[j].id) !in After(ops, j))
    {
      var ok;
      nested, ok := Step(s, nested, ops[k]);
      entered := entered + [ok];
    }
  }
}
