/** `Bsort` of delegate/rary/bsort.cpp: the records are copied aside and taken back one by one,
    the first of the smallest each time. */
module StableSort {
  import opened Sequences

  predicate Le<T>(compar: (T, T) -> int, a: T, b: T) { compar(a, b) <= 0 }

  /** Any two records compare, and the comparison is transitive; different records may be equal. */
  ghost predicate TotalPreorder<T(!new)>(compar: (T, T) -> int) {
    && (forall a, b :: Le(compar, a, b) || Le(compar, b, a))
    && (forall a, b, c :: Le(compar, a, b) && Le(compar, b, c) ==> Le(compar, a, c))
  }

  /** The record at index a comes before the one at b: it is smaller, or equal and was earlier. */
  predicate Before<T>(compar: (T, T) -> int, src: seq<T>, a: nat, b: nat)
    requires a < |src| && b < |src|
  {
    Le(compar, src[a], src[b]) && (Le(compar, src[b], src[a]) ==> a < b)
  }

  // p lists indices of src, none twice.
  ghost predicate Selection<T>(src: seq<T>, p: seq<nat>) {
    && (forall i | 0 <= i < |p| :: p[i] < |src|)
    && (forall i, j | 0 <= i < j < |p| :: p[i] != p[j])
  }

  /** out holds the records of src in the order p, which lists all of them, sorted, with equal
      records in their old order. */
  ghost predicate StablySorted<T>(compar: (T, T) -> int, src: seq<T>, out: seq<T>, p: seq<nat>) {
    && Selection(src, p) && |out| == |p| == |src|
    && (forall k | 0 <= k < |src| :: k in p)
    && (forall i | 0 <= i < |p| :: out[i] == src[p[i]])
    && (forall i, j | 0 <= i < j < |p| :: Before(compar, src, p[i], p[j]))
  }

  /** Only one order of the records is sorted and stable. */
  lemma Unique<T(!new)>(compar: (T, T) -> int, src: seq<T>, out1: seq<T>, p1: seq<nat>, out2: seq<T>, p2: seq<nat>)
    requires StablySorted(compar, src, out1, p1) && StablySorted(compar, src, out2, p2)
    ensures out1 == out2
  {
    SameOrder(compar, src, out1, p1, out2, p2, |src|);
  }

  lemma {:induction false} SameOrder<T(!new)>(compar: (T, T) -> int, src: seq<T>, out1: seq<T>, p1: seq<nat>,
                                              out2: seq<T>, p2: seq<nat>, n: nat)
    requires StablySorted(compar, src, out1, p1) && StablySorted(compar, src, out2, p2) && n <= |src|
    ensures p1[..n] == p2[..n]
  {
    if n > 0 {
      var i := n - 1;
      SameOrder(compar, src, out1, p1, out2, p2, i);
      assert p2[i] in p1 && p1[i] in p2;
      var j1 :| 0 <= j1 < |p1| && p1[j1] == p2[i];
      var j2 :| 0 <= j2 < |p2| && p2[j2] == p1[i];
      assert forall m | 0 <= m < i :: p1[m] == p1[..i][m] == p2[m];
      assert p1[i] == p2[i];
    }
  }

  // What has been taken, by dx rounds: the first of the sorted records.
  ghost predicate Taken<T>(compar: (T, T) -> int, src: seq<T>, p: seq<nat>) {
    && Selection(src, p)
    && (forall i, j | 0 <= i < j < |p| :: Before(compar, src, p[i], p[j]))
    && (forall i, k | 0 <= i < |p| && 0 <= k < |src| && k !in p :: Before(compar, src, p[i], k))
  }

  lemma TakeOne<T(!new)>(compar: (T, T) -> int, src: seq<T>, p: seq<nat>, max: nat)
    requires Taken(compar, src, p) && max < |src| && max !in p
    requires forall k | 0 <= k < |src| && k !in p && k != max :: Before(compar, src, max, k)
    ensures Taken(compar, src, p + [max])
  {
  }

  // A smaller record comes before all that the smallest so far came before.
  lemma Smaller<T(!new)>(compar: (T, T) -> int, src: seq<T>, di: nat, max: nat, k: nat)
    requires TotalPreorder(compar) && di < |src| && max < |src| && k < |src|
    requires !Le(compar, src[max], src[di]) && (k == max || Before(compar, src, max, k))
    ensures Before(compar, src, di, k)
  {
    assert Le(compar, src[di], src[max]);
    assert k != max ==> Le(compar, src[max], src[k]);
  }

  // The pointers of the records taken are null.
  ghost predicate Cleared(srcp: seq<int>, p: seq<nat>) {
    forall k | 0 <= k < |srcp| :: srcp[k] == (if k in p then -1 else k)
  }

  // The indices of the records not taken.
  ghost predicate Remaining(left: set<nat>, p: seq<nat>, n: nat) {
    forall k :: k in left <==> 0 <= k < n && k !in p
  }

  lemma ClearOne(srcp: seq<int>, left: set<nat>, p: seq<nat>, max: nat)
    requires Cleared(srcp, p) && Remaining(left, p, |srcp|) && max < |srcp| && max !in p
    ensures Cleared(srcp[max := -1], p + [max]) && Remaining(left - {max}, p + [max], |srcp|)
    ensures |left - {max}| == |left| - 1
  {
    assert max in left;
  }

  /** `Bsort` */
  method Bsort<T(!new)>(base: array<T>, compar: (T, T) -> int) returns (ghost p: seq<nat>)
    requires TotalPreorder(compar)
    modifies base
    ensures StablySorted(compar, old(base[..]), base[..], p)
  {
    hide TotalPreorder, Before, Le, Cleared, Remaining, Taken;
    var nel := base.Length;
    var srcb := base[..];
    var srcp := new int[nel](i => i);          // indices into srcb; -1 for a null pointer
    p := [];
    ghost var left := Below(nel);
    Nothing(compar, srcb, srcp[..], left);
    for dx := 0 to nel
      invariant |p| == dx && Taken(compar, srcb, p) && |left| == nel - dx
      invariant Cleared(srcp[..], p) && Remaining(left, p, nel)
      invariant forall i | 0 <= i < dx :: p[i] < nel && base[i] == srcb[p[i]]
    {
      var max := FirstSmallest(srcb, srcp, p, compar, left);
      TakeOne(compar, srcb, p, max);
      ClearOne(srcp[..], left, p, max);
      base[dx] := srcb[srcp[max]];
      ghost var was := srcp[..];
      srcp[max] := -1;
      assert srcp[..] == was[max := -1];
      left := left - {max};
      p := p + [max];
    }
    AllTaken(left, p, nel);
    InOrder(compar, srcb, base[..], p);
  }

  lemma Nothing<T>(compar: (T, T) -> int, src: seq<T>, srcp: seq<int>, left: set<nat>)
    requires |srcp| == |src| && (forall k | 0 <= k < |src| :: srcp[k] == k)
    requires forall k :: k in left <==> 0 <= k < |src|
    ensures Taken(compar, src, []) && Cleared(srcp, []) && Remaining(left, [], |src|)
  {
  }

  lemma InOrder<T>(compar: (T, T) -> int, src: seq<T>, out: seq<T>, p: seq<nat>)
    requires Taken(compar, src, p) && |out| == |p| == |src| && forall k | 0 <= k < |src| :: k in p
    requires forall i | 0 <= i < |p| :: p[i] < |src| && out[i] == src[p[i]]
    ensures StablySorted(compar, src, out, p)
  {
  }

  lemma AllTaken(left: set<nat>, p: seq<nat>, n: nat)
    requires |left| == 0 && Remaining(left, p, n)
    ensures forall k | 0 <= k < n :: k in p
  {
    assert left == {};
    assert forall k | 0 <= k < n :: k !in left;
  }

  // The search for the record to take next.
  method FirstSmallest<T(!new)>(srcb: seq<T>, srcp: array<int>, ghost p: seq<nat>, compar: (T, T) -> int,
                                ghost left: set<nat>)
    returns (max: int)
    requires TotalPreorder(compar) && srcp.Length == |srcb|
    requires Cleared(srcp[..], p) && left != {} && Remaining(left, p, |srcb|)
    ensures 0 <= max < |srcb| && max !in p && srcp[max] == max
    ensures forall k | 0 <= k < |srcb| && k !in p && k != max :: Before(compar, srcb, max, k)
  {
    assert forall k | 0 <= k < |srcb| :: srcp[k] == srcp[..][k];
    max := -1;
    for di := 0 to srcp.Length
      invariant -1 <= max < di
      invariant max < 0 ==> forall k | 0 <= k < di :: k in p
      invariant 0 <= max ==> max !in p && forall k | 0 <= k < di && k !in p && k != max :: Before(compar, srcb, max, k)
    {
      if srcp[di] != -1 {
        if max == -1 {
          max := di;
        } else if 0 < compar(srcb[srcp[max]], srcb[srcp[di]]) {
          forall k | 0 <= k < di && k !in p
            ensures Before(compar, srcb, di, k)
          {
            Smaller(compar, srcb, di, max, k);
          }
          max := di;
        } else {
          assert Before(compar, srcb, max, di);
        }
      }
    }
    assert exists k :: k in left;
  }
}
