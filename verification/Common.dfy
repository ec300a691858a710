/** What several modules share: optional values, sequences without repetition, powers, the native allocator's choice of an address. */
module Common {

  datatype Option<+T> = None | Some(value: T)

  ghost predicate NoDup<T>(s: seq<T>) {
    forall i, j :: 0 <= i < j < |s| ==> s[i] != s[j]
  }

  /** The allocator's answer: an address not in use. */
  method FreshId(used: set<nat>) returns (id: nat)
    ensures id !in used
  {
    id := 0;
    var rest := used;
    while rest != {}
      invariant forall k :: k in used && k !in rest ==> k < id
      decreases |rest|
    {
      var k :| k in rest;
      rest := rest - {k};
      if k >= id { id := k + 1; }
    }
  }

  function Pow2(n: nat): (p: nat)
    ensures p > 0
  {
    if n == 0 then 1 else 2 * Pow2(n - 1)
  }

  function Pow10(k: nat): (p: nat)
    ensures p >= 1
  {
    if k == 0 then 1 else 10 * Pow10(k - 1)
  }

  lemma {:induction false} Pow10Monotone(j: nat, k: nat)
    requires j <= k
    ensures Pow10(j) <= Pow10(k)
    decreases k - j
  {
    if j < k { Pow10Monotone(j + 1, k); }
  }
}
