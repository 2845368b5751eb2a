/** Facts about sequences and sets that several modules use. */
module Sequences {

  lemma Regroup<T>(a: seq<T>, b: seq<T>, c: seq<T>)
    ensures (a + b) + c == a + (b + c)
  {
  }

  // The numbers below n.
  ghost function Below(n: nat): (all: set<nat>)
    ensures |all| == n && forall k :: k in all <==> 0 <= k < n
  {
    if n == 0 then {} else Below(n - 1) + {n - 1}
  }
}
