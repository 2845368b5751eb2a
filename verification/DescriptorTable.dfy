/** The lock-free table of callback descriptors: `dgfn_intern` of delegate/include/yarg.h.

    Any number of threads call `dgfn_intern` at the same time.  Every atomic action of a
    call (load, allocation, compare-and-exchange, deletion, comparison of a loaded
    descriptor) is one event of a state machine, and the events of different calls
    interleave freely.  The allocator may hand out any address that is not live, so an
    address can be reused after its descriptor has been deleted.  */
module DescriptorTable {

  const TABLE_SIZE: nat := 8192
  const PROBES: nat := 64

  type Addr = nat

  // The function address and the invoker, the two fields of a descriptor.
  datatype Key = Key(fn: bv64, inv: bv64)

  // A hash gives the first slot to probe.  All results hold for every hash.
  type Hash = Key -> nat

  datatype Slot = Empty | Holds(d: Addr)

  // Where a call stands between two atomic actions.
  datatype Pc =
    | Load(n: nat)                                // about to load probe n
    | Allocate(n: nat)                            // saw an empty slot
    | Exchange(n: nat, mine: Addr)                // about to compare-and-exchange
    | Delete(n: nat, mine: Addr, seen: Addr)      // lost the race, about to free mine
    | Compare(n: nat, seen: Addr)                 // about to compare the loaded descriptor
    | Overflow                                    // the window is full of other keys
    | Returned(d: Addr)

  datatype Call = Call(key: Key, pc: Pc)

  datatype Memory = Memory(tab: seq<Slot>, heap: map<Addr, Key>, calls: seq<Call>)

  type State = m: Memory | |m.tab| == TABLE_SIZE
    witness Memory(seq(TABLE_SIZE, i => Empty), map[], [])

  // A new call begins, or call c performs its next atomic action; `a` is the address the
  // allocator hands out if that action allocates.
  datatype Event = Begin(key: Key) | Act(c: nat, a: Addr)

  function Init(): State {
    Memory(seq(TABLE_SIZE, i => Empty), map[], [])
  }

  /** The hash of the program, computed in 64-bit words. */
  function WordHash(k: Key): nat {
    var h := ((k.fn >> 2) ^ (k.inv >> 5)) * 0x9E3779B97F4A7C15;
    (h >> 40) as nat
  }

  function SlotOf(hash: Hash, k: Key, n: nat): (i: nat)
    ensures i < TABLE_SIZE
  {
    (hash(k) + n) % TABLE_SIZE
  }

  /** The slots of a key: 64 different ones, one behind the other, round the end of the table. */
  lemma SlotsInRow(hash: Hash, k: Key, n: nat, m: nat)
    requires n < m < 64
    ensures SlotOf(hash, k, 0) == hash(k) % 8192
    ensures SlotOf(hash, k, m) == (if SlotOf(hash, k, m - 1) == 8191 then 0 else SlotOf(hash, k, m - 1) + 1)
    ensures SlotOf(hash, k, n) != SlotOf(hash, k, m)
  {
  }

  /** The hash of the program drops the low bits of both addresses and mixes the rest: the
      smallest that counts gives the front of the factor. */
  lemma HashOfProgram()
    ensures WordHash(Key(4, 0)) == WordHash(Key(7, 31)) == WordHash(Key(0, 32)) == 0x9E3779
    ensures WordHash(Key(8, 0)) == 0x3C6EF3 && WordHash(Key(4, 32)) == 0
  {
    var c: bv64 := 0x9E3779B97F4A7C15;
    assert ((4 as bv64 >> 2) ^ (0 as bv64 >> 5)) * c >> 40 == 0x9E3779;
  }

  // --- one atomic action ------------------------------------------------------------

  predicate Allocates(pc: Pc) { pc.Allocate? || pc.Overflow? }

  predicate Enabled(s: State, e: Event) {
    match e
    case Begin(_) => true
    case Act(c, a) =>
      && c < |s.calls|
      && !s.calls[c].pc.Returned?
      && (Allocates(s.calls[c].pc) ==> a !in s.heap)
  }

  function Advance(n: nat): Pc {
    if n + 1 < PROBES then Load(n + 1) else Overflow
  }

  function Act1(hash: Hash, s: State, c: nat, a: Addr): State
    requires c < |s.calls|
  {
    var k := s.calls[c].key;
    match s.calls[c].pc
    case Load(n) =>
      (match s.tab[SlotOf(hash, k, n)]
       case Empty => Goto(s, c, Allocate(n))
       case Holds(d) => Goto(s, c, Compare(n, d)))
    case Allocate(n) =>
      Goto(s.(heap := s.heap[a := k]), c, Exchange(n, a))
    case Exchange(n, mine) =>
      var i := SlotOf(hash, k, n);
      (match s.tab[i]
       case Empty => Goto(s.(tab := s.tab[i := Holds(mine)]), c, Returned(mine))
       case Holds(d) => Goto(s, c, Delete(n, mine, d)))
    case Delete(n, mine, seen) =>
      Goto(s.(heap := s.heap - {mine}), c, Compare(n, seen))
    case Compare(n, seen) =>
      if seen in s.heap && s.heap[seen] == k then Goto(s, c, Returned(seen))
      else Goto(s, c, Advance(n))
    case Overflow =>
      Goto(s.(heap := s.heap[a := k]), c, Returned(a))
    case Returned(_) => s
  }

  function Goto(s: State, c: nat, pc: Pc): State
    requires c < |s.calls|
  {
    s.(calls := s.calls[c := s.calls[c].(pc := pc)])
  }

  function Apply(hash: Hash, s: State, e: Event): State
    requires Enabled(s, e)
  {
    match e
    case Begin(k) => s.(calls := s.calls + [Call(k, Load(0))])
    case Act(c, a) => Act1(hash, s, c, a)
  }

  /** `trace` is a run from s to t. */
  ghost predicate Run(hash: Hash, s: State, trace: seq<Event>, t: State)
    decreases |trace|
  {
    if trace == [] then s == t
    else
      && Enabled(s, trace[0])
      && Run(hash, Apply(hash, s, trace[0]), trace[1..], t)
  }

  // --- the invariant ----------------------------------------------------------------

  ghost predicate InTable(s: State, d: Addr) {
    exists i :: 0 <= i < |s.tab| && s.tab[i] == Holds(d)
  }

  // Probe j of key k has met a descriptor of another key.
  ghost predicate Other(hash: Hash, s: State, k: Key, j: nat)
  {
    var e := s.tab[SlotOf(hash, k, j)];
    e.Holds? && e.d in s.heap && s.heap[e.d] != k
  }

  ghost predicate Passed(hash: Hash, s: State, k: Key, n: nat)
  {
    forall j: nat | j < n :: Other(hash, s, k, j)
  }

  // Descriptor d stands at the first slot of k's window that does not hold another key.
  ghost predicate Interned(hash: Hash, s: State, k: Key, n: nat, d: Addr)
  {
    && n < PROBES
    && s.tab[SlotOf(hash, k, n)] == Holds(d)
    && d in s.heap && s.heap[d] == k
    && Passed(hash, s, k, n)
  }

  // The address a call keeps to itself: allocated and not yet published, or returned
  // without being in the table.
  ghost function Own(s: State, pc: Pc): set<Addr> {
    match pc
    case Exchange(_, mine) => {mine}
    case Delete(_, mine, _) => {mine}
    case Returned(d) => if InTable(s, d) then {} else {d}
    case _ => {}
  }

  ghost predicate PcOk(hash: Hash, s: State, k: Key, pc: Pc)
  {
    && (forall d | d in Own(s, pc) :: d in s.heap && s.heap[d] == k && !InTable(s, d))
    && match pc
       case Load(n) => n < PROBES && Passed(hash, s, k, n)
       case Allocate(n) => n < PROBES && Passed(hash, s, k, n)
       case Exchange(n, _) => n < PROBES && Passed(hash, s, k, n)
       case Delete(n, _, seen) =>
         n < PROBES && Passed(hash, s, k, n) && s.tab[SlotOf(hash, k, n)] == Holds(seen)
       case Compare(n, seen) =>
         n < PROBES && Passed(hash, s, k, n) && s.tab[SlotOf(hash, k, n)] == Holds(seen)
       case Overflow => Passed(hash, s, k, PROBES)
       case Returned(d) =>
         if InTable(s, d) then exists n: nat :: Interned(hash, s, k, n, d)
         else Passed(hash, s, k, PROBES)
  }

  ghost predicate TableOk(hash: Hash, s: State) {
    && (forall i | 0 <= i < TABLE_SIZE && s.tab[i].Holds? ::
          s.tab[i].d in s.heap
          && exists n: nat :: SlotOf(hash, s.heap[s.tab[i].d], n) == i
                              && Interned(hash, s, s.heap[s.tab[i].d], n, s.tab[i].d))
    && (forall i, j | 0 <= i < j < TABLE_SIZE && s.tab[i].Holds? :: s.tab[i] != s.tab[j])
  }

  ghost predicate OwnersApart(s: State) {
    forall b, c | 0 <= b < c < |s.calls| ::
      Own(s, s.calls[b].pc) !! Own(s, s.calls[c].pc)
  }

  ghost predicate NoLeak(s: State) {
    forall d | d in s.heap ::
      InTable(s, d) || exists c :: 0 <= c < |s.calls| && d in Own(s, s.calls[c].pc)
  }

  ghost predicate Inv(hash: Hash, s: State) {
    && TableOk(hash, s)
    && (forall c | 0 <= c < |s.calls| :: PcOk(hash, s, s.calls[c].key, s.calls[c].pc))
    && OwnersApart(s)
    && NoLeak(s)
  }

  lemma InitInv(hash: Hash)
    ensures Inv(hash, Init())
  {
  }

  // --- every atomic action keeps the invariant --------------------------------------

  /** A written slot keeps its descriptor, and that descriptor stays allocated. */
  ghost predicate Stable(s: State, t: State) {
    forall i | 0 <= i < TABLE_SIZE && s.tab[i].Holds? ::
         && t.tab[i] == s.tab[i]
         && (s.tab[i].d in s.heap ==>
               s.tab[i].d in t.heap && t.heap[s.tab[i].d] == s.heap[s.tab[i].d])
  }

  // The addresses a call owns survive from s to t unpublished.
  ghost predicate OwnKept(s: State, t: State, pc: Pc) {
    forall d | d in Own(s, pc) ::
      d in s.heap && d in t.heap && t.heap[d] == s.heap[d] && !InTable(t, d)
  }

  lemma PassedStable(hash: Hash, s: State, t: State, k: Key, n: nat)
    requires Stable(s, t) && Passed(hash, s, k, n)
    ensures Passed(hash, t, k, n)
  {
    forall j: nat | j < n ensures Other(hash, t, k, j) {
      assert Other(hash, s, k, j);
    }
  }

  lemma InTableStable(s: State, t: State, d: Addr)
    requires Stable(s, t) && InTable(s, d)
    ensures InTable(t, d)
  {
    var i :| 0 <= i < |s.tab| && s.tab[i] == Holds(d);
    assert t.tab[i] == Holds(d);
  }

  lemma KeepCall(hash: Hash, s: State, t: State, k: Key, pc: Pc)
    requires Stable(s, t) && PcOk(hash, s, k, pc) && OwnKept(s, t, pc)
    ensures PcOk(hash, t, k, pc)
    ensures Own(t, pc) == Own(s, pc)
  {
    match pc
    case Load(n) => PassedStable(hash, s, t, k, n);
    case Allocate(n) => PassedStable(hash, s, t, k, n);
    case Exchange(n, _) => PassedStable(hash, s, t, k, n);
    case Delete(n, _, _) => PassedStable(hash, s, t, k, n);
    case Compare(n, _) => PassedStable(hash, s, t, k, n);
    case Overflow => PassedStable(hash, s, t, k, PROBES);
    case Returned(d) =>
      if InTable(s, d) {
        InTableStable(s, t, d);
        var n: nat :| Interned(hash, s, k, n, d);
        PassedStable(hash, s, t, k, n);
        assert Interned(hash, t, k, n, d);
      } else {
        assert d in Own(s, pc);
        PassedStable(hash, s, t, k, PROBES);
      }
  }

  lemma KeepSlot(hash: Hash, s: State, t: State, i: nat)
    requires TableOk(hash, s) && Stable(s, t) && i < TABLE_SIZE && s.tab[i].Holds?
    ensures t.tab[i].d in t.heap
    ensures exists n: nat :: SlotOf(hash, t.heap[t.tab[i].d], n) == i
                             && Interned(hash, t, t.heap[t.tab[i].d], n, t.tab[i].d)
  {
    var k := s.heap[s.tab[i].d];
    var n: nat :| SlotOf(hash, k, n) == i && Interned(hash, s, k, n, s.tab[i].d);
    PassedStable(hash, s, t, k, n);
    assert SlotOf(hash, k, n) == i && Interned(hash, t, k, n, s.tab[i].d);
  }

  // An unchanged table stays in order while its descriptors stay allocated.
  lemma KeepTable(hash: Hash, s: State, t: State)
    requires TableOk(hash, s) && Stable(s, t) && t.tab == s.tab
    ensures TableOk(hash, t)
  {
    forall i: nat | i < TABLE_SIZE && t.tab[i].Holds?
      ensures t.tab[i].d in t.heap
      ensures exists n: nat :: SlotOf(hash, t.heap[t.tab[i].d], n) == i
                               && Interned(hash, t, t.heap[t.tab[i].d], n, t.tab[i].d)
    {
      KeepSlot(hash, s, t, i);
    }
  }

  /** Assembles the invariant after an action of call c: c itself is shown to be in order,
      and every other call keeps what it owns. */
  lemma Reassemble(hash: Hash, s: State, t: State, c: nat)
    requires Inv(hash, s) && Stable(s, t) && c < |s.calls| == |t.calls|
    requires forall b | 0 <= b < |s.calls| && b != c :: t.calls[b] == s.calls[b]
    requires forall b | 0 <= b < |s.calls| && b != c :: OwnKept(s, t, s.calls[b].pc)
    requires TableOk(hash, t)
    requires PcOk(hash, t, t.calls[c].key, t.calls[c].pc)
    requires forall b | 0 <= b < |s.calls| && b != c :: Own(s, s.calls[b].pc) !! Own(t, t.calls[c].pc)
    requires forall d | d in t.heap ::
               || InTable(t, d) || d in Own(t, t.calls[c].pc)
               || exists b :: 0 <= b < |s.calls| && b != c && d in Own(s, s.calls[b].pc)
    ensures Inv(hash, t)
  {
    forall b | 0 <= b < |s.calls| && b != c
      ensures PcOk(hash, t, t.calls[b].key, t.calls[b].pc)
      ensures Own(t, t.calls[b].pc) == Own(s, s.calls[b].pc)
    {
      KeepCall(hash, s, t, s.calls[b].key, s.calls[b].pc);
    }
    forall d | d in t.heap
      ensures InTable(t, d) || exists b :: 0 <= b < |t.calls| && d in Own(t, t.calls[b].pc)
    {
    }
  }

  lemma BeginInv(hash: Hash, s: State, k: Key)
    requires Inv(hash, s)
    ensures Inv(hash, Apply(hash, s, Begin(k)))
    ensures Stable(s, Apply(hash, s, Begin(k)))
  {
    var t := Apply(hash, s, Begin(k));
    KeepTable(hash, s, t);
    forall c | 0 <= c < |s.calls|
      ensures PcOk(hash, t, s.calls[c].key, s.calls[c].pc)
      ensures Own(t, s.calls[c].pc) == Own(s, s.calls[c].pc)
    {
      KeepCall(hash, s, t, s.calls[c].key, s.calls[c].pc);
    }
    assert PcOk(hash, t, k, Load(0)) && Own(t, Load(0)) == {};
    assert OwnersApart(s) && NoLeak(s) && t.calls == s.calls + [Call(k, Load(0))];
    hide PcOk, TableOk, Own, Stable;
    BeginOwners(s, t, k);
    assert forall c | 0 <= c < |t.calls| :: PcOk(hash, t, t.calls[c].key, t.calls[c].pc);
  }

  // A call that begins owns nothing.
  lemma BeginOwners(s: State, t: State, k: Key)
    requires OwnersApart(s) && NoLeak(s) && t.tab == s.tab && t.heap == s.heap
    requires t.calls == s.calls + [Call(k, Load(0))] && Own(t, Load(0)) == {}
    requires forall c | 0 <= c < |s.calls| :: Own(t, s.calls[c].pc) == Own(s, s.calls[c].pc)
    ensures OwnersApart(t) && NoLeak(t)
  {
    hide Own;
    forall d | d in t.heap && !InTable(t, d)
      ensures exists c :: 0 <= c < |t.calls| && d in Own(t, t.calls[c].pc)
    {
      var c :| 0 <= c < |s.calls| && d in Own(s, s.calls[c].pc);
      assert d in Own(t, t.calls[c].pc);
    }
  }

  // Actions that only move call c forward: table and heap stay as they are.
  lemma MoveInv(hash: Hash, s: State, c: nat, pc: Pc)
    requires Inv(hash, s) && c < |s.calls|
    requires PcOk(hash, s, s.calls[c].key, pc)
    requires Own(s, pc) == Own(s, s.calls[c].pc)
    ensures Inv(hash, Goto(s, c, pc)) && Stable(s, Goto(s, c, pc))
  {
    var t := Goto(s, c, pc);
    KeepTable(hash, s, t);
    KeepCall(hash, s, t, t.calls[c].key, pc);
    forall b | 0 <= b < |s.calls| ensures OwnKept(s, t, s.calls[b].pc) {
      assert PcOk(hash, s, s.calls[b].key, s.calls[b].pc);
    }
    Reassemble(hash, s, t, c);
  }

  // Allocation: a fresh address, owned by call c alone.
  lemma AllocateInv(hash: Hash, s: State, c: nat, a: Addr)
    requires Inv(hash, s) && c < |s.calls| && Allocates(s.calls[c].pc) && a !in s.heap
    ensures Inv(hash, Act1(hash, s, c, a)) && Stable(s, Act1(hash, s, c, a))
  {
    var t := Act1(hash, s, c, a);
    var k := s.calls[c].key;
    assert !InTable(s, a);
    assert !InTable(t, a);
    KeepTable(hash, s, t);
    assert PcOk(hash, s, k, s.calls[c].pc);
    PassedStable(hash, s, t, k, if s.calls[c].pc.Overflow? then PROBES else s.calls[c].pc.n);
    assert Own(t, t.calls[c].pc) == {a};
    forall b | 0 <= b < |s.calls| ensures OwnKept(s, t, s.calls[b].pc) {
      assert PcOk(hash, s, s.calls[b].key, s.calls[b].pc);
    }
    forall d | d in t.heap
      ensures || InTable(t, d) || d in Own(t, t.calls[c].pc)
              || exists b :: 0 <= b < |s.calls| && b != c && d in Own(s, s.calls[b].pc)
    {
      if d != a {
        assert InTable(s, d) || exists b :: 0 <= b < |s.calls| && d in Own(s, s.calls[b].pc);
        if InTable(s, d) { InTableStable(s, t, d); }
      }
    }
    Reassemble(hash, s, t, c);
  }

  // Publishing an owned descriptor in the first free slot of its window.
  lemma PublishTableOk(hash: Hash, s: State, t: State, k: Key, n: nat, mine: Addr)
    requires TableOk(hash, s) && n < PROBES && Passed(hash, s, k, n)
    requires s.tab[SlotOf(hash, k, n)].Empty? && !InTable(s, mine)
    requires mine in s.heap && s.heap[mine] == k
    requires t.tab == s.tab[SlotOf(hash, k, n) := Holds(mine)] && t.heap == s.heap
    ensures Stable(s, t) && TableOk(hash, t) && Interned(hash, t, k, n, mine)
  {
    var i0 := SlotOf(hash, k, n);
    assert forall i | 0 <= i < TABLE_SIZE :: s.tab[i] != Holds(mine);
    PassedStable(hash, s, t, k, n);
    assert Interned(hash, t, k, n, mine);
    forall i: nat | i < TABLE_SIZE && t.tab[i].Holds?
      ensures t.tab[i].d in t.heap
      ensures exists m: nat :: SlotOf(hash, t.heap[t.tab[i].d], m) == i
                               && Interned(hash, t, t.heap[t.tab[i].d], m, t.tab[i].d)
    {
      if i != i0 { KeepSlot(hash, s, t, i); }
    }
  }

  lemma Apart(s: State, b: nat, c: nat)
    requires OwnersApart(s) && b < |s.calls| && c < |s.calls|
    ensures b == c || Own(s, s.calls[b].pc) !! Own(s, s.calls[c].pc)
  {
    if b < c {
    } else if c < b {
      assert Own(s, s.calls[c].pc) !! Own(s, s.calls[b].pc);
    }
  }

  // The addresses of another call are neither published nor freed by an action on `mine`.
  lemma OthersOwnKept(s: State, t: State, c: nat, b: nat, mine: Addr)
    requires OwnersApart(s) && b < |s.calls| && c < |s.calls| && b != c
    requires mine in Own(s, s.calls[c].pc)
    requires t.heap == s.heap || t.heap == s.heap - {mine}
    requires forall i | 0 <= i < TABLE_SIZE :: t.tab[i] == s.tab[i] || t.tab[i] == Holds(mine)
    requires OwnKept(s, s, s.calls[b].pc)
    ensures OwnKept(s, t, s.calls[b].pc)
  {
    Apart(s, b, c);
    forall d | d in Own(s, s.calls[b].pc)
      ensures d in t.heap && t.heap[d] == s.heap[d] && !InTable(t, d)
    {
      assert d != mine;
    }
  }

  lemma OthersKept(hash: Hash, s: State, t: State, c: nat, mine: Addr)
    requires Inv(hash, s) && c < |s.calls| && mine in Own(s, s.calls[c].pc)
    requires t.heap == s.heap || t.heap == s.heap - {mine}
    requires forall i | 0 <= i < TABLE_SIZE :: t.tab[i] == s.tab[i] || t.tab[i] == Holds(mine)
    ensures forall b | 0 <= b < |s.calls| && b != c :: OwnKept(s, t, s.calls[b].pc) && mine !in Own(s, s.calls[b].pc)
  {
    forall b | 0 <= b < |s.calls| && b != c
      ensures OwnKept(s, t, s.calls[b].pc) && mine !in Own(s, s.calls[b].pc)
    {
      assert PcOk(hash, s, s.calls[b].key, s.calls[b].pc);
      OthersOwnKept(s, t, c, b, mine);
      Apart(s, b, c);
    }
  }

  // All that is live is owned, when the descriptor of call c is published or gone.
  lemma StillOwned(s: State, t: State, c: nat, mine: Addr)
    requires NoLeak(s) && Stable(s, t) && c < |s.calls| && Own(s, s.calls[c].pc) == {mine}
    requires forall d | d in t.heap :: d in s.heap && (d == mine ==> InTable(t, d))
    ensures forall d | d in t.heap ::
              InTable(t, d) || exists b :: 0 <= b < |s.calls| && b != c && d in Own(s, s.calls[b].pc)
  {
    forall d | d in t.heap
      ensures InTable(t, d) || exists b :: 0 <= b < |s.calls| && b != c && d in Own(s, s.calls[b].pc)
    {
      if InTable(s, d) { InTableStable(s, t, d); }
    }
  }

  lemma OwnPublished(s: State, t: State, c: nat, i: nat, mine: Addr)
    requires i < TABLE_SIZE && t.tab[i] == Holds(mine) && c < |t.calls| && t.calls[c].pc == Returned(mine)
    ensures InTable(t, mine) && Own(t, t.calls[c].pc) == {}
  {
  }

  lemma PublishedOk(hash: Hash, t: State, c: nat, k: Key, n: nat, mine: Addr)
    requires Interned(hash, t, k, n, mine) && InTable(t, mine)
    requires c < |t.calls| && t.calls[c] == Call(k, Returned(mine))
    ensures PcOk(hash, t, k, t.calls[c].pc)
  {
  }

  // A successful exchange publishes the descriptor of call c in an empty slot.
  lemma PublishInv(hash: Hash, s: State, c: nat, a: Addr)
    requires Inv(hash, s) && c < |s.calls| && s.calls[c].pc.Exchange?
    requires s.tab[SlotOf(hash, s.calls[c].key, s.calls[c].pc.n)].Empty?
    ensures Inv(hash, Act1(hash, s, c, a)) && Stable(s, Act1(hash, s, c, a))
  {
    var t := Act1(hash, s, c, a);
    var Call(k, Exchange(n, mine)) := s.calls[c];
    assert PcOk(hash, s, k, s.calls[c].pc);
    assert Own(s, s.calls[c].pc) == {mine} && OwnersApart(s) && NoLeak(s);
    PublishTableOk(hash, s, t, k, n, mine);
    OwnPublished(s, t, c, SlotOf(hash, k, n), mine);
    OthersKept(hash, s, t, c, mine);
    StillOwned(s, t, c, mine);
    PublishedOk(hash, t, c, k, n, mine);
    hide PcOk, OwnersApart, NoLeak, TableOk, Inv, Passed, Own;
    Reassemble(hash, s, t, c);
  }

  // Freeing an unpublished descriptor leaves the table in order.
  lemma FreeTableOk(hash: Hash, s: State, t: State, mine: Addr)
    requires TableOk(hash, s) && !InTable(s, mine)
    requires t.tab == s.tab && t.heap == s.heap - {mine}
    ensures Stable(s, t) && TableOk(hash, t)
  {
    assert forall i | 0 <= i < TABLE_SIZE :: s.tab[i] != Holds(mine);
    KeepTable(hash, s, t);
  }

  // Deleting the descriptor that lost the race.
  lemma DeleteInv(hash: Hash, s: State, c: nat, a: Addr)
    requires Inv(hash, s) && c < |s.calls| && s.calls[c].pc.Delete?
    ensures Inv(hash, Act1(hash, s, c, a)) && Stable(s, Act1(hash, s, c, a))
  {
    var t := Act1(hash, s, c, a);
    var Call(k, Delete(n, mine, seen)) := s.calls[c];
    assert PcOk(hash, s, k, s.calls[c].pc);
    assert Own(s, s.calls[c].pc) == {mine};
    FreeTableOk(hash, s, t, mine);
    PassedStable(hash, s, t, k, n);
    OthersKept(hash, s, t, c, mine);
    assert Own(t, t.calls[c].pc) == {};
    StillOwned(s, t, c, mine);
    Reassemble(hash, s, t, c);
  }

  lemma SeenLive(hash: Hash, t: State, i: nat, seen: Addr)
    requires TableOk(hash, t) && i < TABLE_SIZE && t.tab[i] == Holds(seen)
    ensures seen in t.heap && InTable(t, seen)
  {
  }

  // Where a call goes on behind a descriptor that it has compared.
  lemma ComparedOk(hash: Hash, s: State, k: Key, n: nat, seen: Addr)
    requires n < PROBES && Passed(hash, s, k, n) && s.tab[SlotOf(hash, k, n)] == Holds(seen)
    requires seen in s.heap && InTable(s, seen)
    ensures Own(s, Compare(n, seen)) == {}
    ensures s.heap[seen] == k ==> PcOk(hash, s, k, Returned(seen)) && Own(s, Returned(seen)) == {}
    ensures s.heap[seen] != k ==> PcOk(hash, s, k, Advance(n)) && Own(s, Advance(n)) == {}
  {
    if s.heap[seen] == k {
      assert Interned(hash, s, k, n, seen);
    } else {
      assert Other(hash, s, k, n);
      assert Passed(hash, s, k, n + 1);
    }
  }

  lemma CompareInv(hash: Hash, s: State, c: nat, a: Addr)
    requires Inv(hash, s) && c < |s.calls| && s.calls[c].pc.Compare?
    ensures Inv(hash, Act1(hash, s, c, a)) && Stable(s, Act1(hash, s, c, a))
  {
    var Call(k, Compare(n, seen)) := s.calls[c];
    assert PcOk(hash, s, k, s.calls[c].pc);
    SeenLive(hash, s, SlotOf(hash, k, n), seen);
    ComparedOk(hash, s, k, n, seen);
    hide PcOk, TableOk, OwnersApart, NoLeak, Inv, Passed, Own;
    MoveInv(hash, s, c, if s.heap[seen] == k then Returned(seen) else Advance(n));
  }

  /** One event of any call keeps the invariant and never touches a written slot. */
  lemma StepInv(hash: Hash, s: State, e: Event)
    requires Inv(hash, s) && Enabled(s, e)
    ensures Inv(hash, Apply(hash, s, e)) && Stable(s, Apply(hash, s, e))
  {
    match e
    case Begin(k) => BeginInv(hash, s, k);
    case Act(c, a) =>
      var k := s.calls[c].key;
      assert PcOk(hash, s, k, s.calls[c].pc);
      hide Inv, TableOk, OwnersApart, NoLeak, Stable, Passed, Interned;
      match s.calls[c].pc {
        case Load(n) =>
          match s.tab[SlotOf(hash, k, n)] {
            case Empty => MoveInv(hash, s, c, Allocate(n));
            case Holds(d) => MoveInv(hash, s, c, Compare(n, d));
          }
        case Allocate(n) => AllocateInv(hash, s, c, a);
        case Exchange(n, mine) =>
          if s.tab[SlotOf(hash, k, n)].Empty? {
            PublishInv(hash, s, c, a);
          } else {
            MoveInv(hash, s, c, Delete(n, mine, s.tab[SlotOf(hash, k, n)].d));
          }
        case Delete(_, _, _) => DeleteInv(hash, s, c, a);
        case Compare(_, _) => CompareInv(hash, s, c, a);
        case Overflow => AllocateInv(hash, s, c, a);
      }
  }

  // --- results over whole runs ------------------------------------------------------

  lemma StableTrans(s: State, t: State, u: State)
    requires Stable(s, t) && Stable(t, u)
    ensures Stable(s, u)
  {
    forall i | 0 <= i < TABLE_SIZE && s.tab[i].Holds?
      ensures u.tab[i] == s.tab[i]
      ensures s.tab[i].d in s.heap ==>
                s.tab[i].d in u.heap && u.heap[s.tab[i].d] == s.heap[s.tab[i].d]
    {
      assert t.tab[i] == s.tab[i];
    }
  }

  /** Over every run a slot is written at most once, and the descriptor in it is never
      freed; the invariant holds all along. */
  lemma {:induction false} RunInv(hash: Hash, s: State, trace: seq<Event>, t: State)
    requires Inv(hash, s) && Run(hash, s, trace, t)
    ensures Inv(hash, t) && Stable(s, t)
    decreases |trace|
  {
    if trace != [] {
      var u := Apply(hash, s, trace[0]);
      StepInv(hash, s, trace[0]);
      RunInv(hash, u, trace[1..], t);
      StableTrans(s, u, t);
    }
  }

  ghost predicate Reachable(hash: Hash, t: State) {
    exists trace :: Run(hash, Init(), trace, t)
  }

  lemma ReachableInv(hash: Hash, t: State)
    requires Reachable(hash, t)
    ensures Inv(hash, t)
  {
    var trace :| Run(hash, Init(), trace, t);
    InitInv(hash);
    RunInv(hash, Init(), trace, t);
  }

  /** Call c of state t has ended with descriptor d. */
  ghost predicate Ended(t: State, c: nat, k: Key, d: Addr) {
    c < |t.calls| && t.calls[c] == Call(k, Returned(d))
  }

  /** Slot i holds a descriptor of key k. */
  ghost predicate KeyAt(t: State, i: nat, k: Key) {
    i < |t.tab| && t.tab[i].Holds? && t.tab[i].d in t.heap && t.heap[t.tab[i].d] == k
  }

  lemma InvOneSlotPerKey(hash: Hash, t: State, k: Key, i: nat, j: nat)
    requires Inv(hash, t) && KeyAt(t, i, k) && KeyAt(t, j, k)
    ensures i == j
  {
    var m: nat :| SlotOf(hash, k, m) == i && Interned(hash, t, k, m, t.tab[i].d);
    var n: nat :| SlotOf(hash, k, n) == j && Interned(hash, t, k, n, t.tab[j].d);
    assert !Other(hash, t, k, m) && !Other(hash, t, k, n);
  }

  /** No key ever occupies two slots. */
  lemma OneSlotPerKey(hash: Hash, t: State, k: Key, i: nat, j: nat)
    requires Reachable(hash, t) && KeyAt(t, i, k) && KeyAt(t, j, k)
    ensures i == j
  {
    ReachableInv(hash, t);
    InvOneSlotPerKey(hash, t, k, i, j);
  }

  /** All or nothing: of two ended calls for one key, either both returned the one
      descriptor the table holds for it, or both returned a descriptor of their own and
      the 64 slots of the key's window hold other keys. */
  lemma AllOrNothing(hash: Hash, t: State, k: Key, b: nat, c: nat, d: Addr, e: Addr)
    requires Reachable(hash, t) && Ended(t, b, k, d) && Ended(t, c, k, e)
    ensures d in t.heap && e in t.heap && t.heap[d] == k == t.heap[e]
    ensures || (d == e && InTable(t, d))
            || (!InTable(t, d) && !InTable(t, e) && (b != c ==> d != e)
                && Passed(hash, t, k, 64))
  {
    ReachableInv(hash, t);
    assert PcOk(hash, t, k, t.calls[b].pc) && PcOk(hash, t, k, t.calls[c].pc);
    if InTable(t, d) {
      var m: nat :| Interned(hash, t, k, m, d);
      InternedBlocks(hash, t, k, m, d);
      if InTable(t, e) {
        var n: nat :| Interned(hash, t, k, n, e);
        InvOneSlotPerKey(hash, t, k, SlotOf(hash, k, m), SlotOf(hash, k, n));
      }
    } else if InTable(t, e) {
      var n: nat :| Interned(hash, t, k, n, e);
      InternedBlocks(hash, t, k, n, e);
    } else {
      assert d in Own(t, t.calls[b].pc) && e in Own(t, t.calls[c].pc);
      Apart(t, b, c);
    }
  }

  ghost function TakenSlots(s: State): set<nat> { set i: nat | i < TABLE_SIZE && s.tab[i].Holds? }

  // The slots of the first n probes of a key.
  ghost function Window(hash: Hash, k: Key, n: nat): set<nat> {
    if n == 0 then {} else Window(hash, k, n - 1) + {SlotOf(hash, k, n - 1)}
  }

  // The slots of a window are distinct.
  lemma {:induction false} WindowSize(hash: Hash, k: Key, n: nat)
    requires n <= PROBES
    ensures |Window(hash, k, n)| == n
    ensures forall m: nat | n <= m < PROBES :: SlotOf(hash, k, m) !in Window(hash, k, n)
  {
    if n > 0 {
      WindowSize(hash, k, n - 1);
      hide *;
      forall m: nat | n <= m < PROBES
        ensures SlotOf(hash, k, m) != SlotOf(hash, k, n - 1)
      {
        SlotsApart(hash, k, n - 1, m);
      }
    }
  }

  lemma {:induction false} WindowTaken(hash: Hash, s: State, k: Key, n: nat)
    requires n <= PROBES && Passed(hash, s, k, n)
    ensures Window(hash, k, n) <= TakenSlots(s)
  {
    if n > 0 {
      WindowTaken(hash, s, k, n - 1);
      assert Other(hash, s, k, n - 1);
    }
  }

  lemma SlotsApart(hash: Hash, k: Key, i: nat, j: nat)
    requires i < j < PROBES
    ensures SlotOf(hash, k, i) != SlotOf(hash, k, j)
  {
  }

  /** As long as fewer than 64 slots are taken, all ended calls for a key have returned the same
      descriptor, which is in the table. */
  lemma FewSlotsShared(hash: Hash, t: State, k: Key, b: nat, c: nat, d: Addr, e: Addr)
    requires Reachable(hash, t) && Ended(t, b, k, d) && Ended(t, c, k, e)
    requires |TakenSlots(t)| < 64
    ensures d == e && InTable(t, d)
  {
    AllOrNothing(hash, t, k, b, c, d, e);
    if !(d == e && InTable(t, d)) {
      WindowSize(hash, k, PROBES);
      WindowTaken(hash, t, k, PROBES);
      Subsets(Window(hash, k, PROBES), TakenSlots(t));
    }
  }

  lemma {:induction false} Subsets(a: set<nat>, b: set<nat>)
    requires a <= b
    ensures |a| <= |b|
  {
    if a != {} {
      var x :| x in a;
      Subsets(a - {x}, b - {x});
    }
  }

  /** This is so for the hash of the program. */
  lemma ProgramShared(t: State, k: Key, b: nat, c: nat, d: Addr, e: Addr)
    requires Reachable(WordHash, t) && Ended(t, b, k, d) && Ended(t, c, k, e)
    requires |TakenSlots(t)| < 64
    ensures d == e && InTable(t, d)
  {
    hide *;
    FewSlotsShared(WordHash, t, k, b, c, d, e);
  }

  // A key in the table keeps its window from being full of other keys.
  lemma InternedBlocks(hash: Hash, t: State, k: Key, n: nat, d: Addr)
    requires Interned(hash, t, k, n, d)
    ensures !Passed(hash, t, k, 64)
  {
    assert !Other(hash, t, k, n);
  }

  /** The choice is for ever: once a call for k has ended, every call for k that ends at
      any later time does so in the same way, with the same descriptor if it was shared. */
  lemma ChoiceIsFinal(hash: Hash, s: State, trace: seq<Event>, t: State,
                      k: Key, b: nat, c: nat, d: Addr, e: Addr)
    requires Reachable(hash, s) && Run(hash, s, trace, t)
    requires Ended(s, b, k, d) && Ended(t, c, k, e)
    ensures InTable(s, d) ==> e == d && InTable(t, d)
    ensures !InTable(s, d) ==> !InTable(t, e) && Passed(hash, t, k, 64)
  {
    ReachableInv(hash, s);
    RunInv(hash, s, trace, t);
    assert PcOk(hash, s, k, s.calls[b].pc);
    assert PcOk(hash, t, k, t.calls[c].pc);
    if InTable(s, d) {
      var m: nat :| Interned(hash, s, k, m, d);
      PassedStable(hash, s, t, k, m);
      InternedBlocks(hash, t, k, m, d);
      if InTable(t, e) {
        var n: nat :| Interned(hash, t, k, n, e);
        InvOneSlotPerKey(hash, t, k, SlotOf(hash, k, m), SlotOf(hash, k, n));
      }
    } else {
      PassedStable(hash, s, t, k, PROBES);
      if InTable(t, e) {
        var n: nat :| Interned(hash, t, k, n, e);
        InternedBlocks(hash, t, k, n, e);
      }
    }
  }

  // The three ways a live descriptor can be owned.
  ghost predicate HeldBy(t: State, c: nat, d: Addr) {
    && c < |t.calls|
    && match t.calls[c].pc
       case Exchange(_, mine) => d == mine
       case Delete(_, mine, _) => d == mine
       case _ => false
  }

  ghost predicate OverflowOf(t: State, c: nat, d: Addr) {
    c < |t.calls| && t.calls[c].pc == Returned(d) && !InTable(t, d)
  }

  ghost predicate StoredAt(t: State, i: nat, d: Addr) {
    i < |t.tab| && t.tab[i] == Holds(d)
  }

  lemma OwnerOwns(hash: Hash, t: State, c: nat, d: Addr)
    requires Inv(hash, t) && (HeldBy(t, c, d) || OverflowOf(t, c, d))
    ensures c < |t.calls| && d in Own(t, t.calls[c].pc) && d in t.heap && !InTable(t, d)
  {
    assert PcOk(hash, t, t.calls[c].key, t.calls[c].pc);
  }

  lemma CallOwnersEqual(hash: Hash, t: State, b: nat, c: nat, d: Addr)
    requires Inv(hash, t)
    requires HeldBy(t, b, d) || OverflowOf(t, b, d)
    requires HeldBy(t, c, d) || OverflowOf(t, c, d)
    ensures b == c
  {
    OwnerOwns(hash, t, b, d);
    OwnerOwns(hash, t, c, d);
    Apart(t, b, c);
  }

  lemma OwnHolds(t: State, c: nat, d: Addr)
    requires c < |t.calls| && d in Own(t, t.calls[c].pc)
    ensures HeldBy(t, c, d) || OverflowOf(t, c, d)
  {
  }

  lemma LiveHasOwner(hash: Hash, t: State, d: Addr)
    requires Inv(hash, t) && d in t.heap
    ensures || (exists i :: StoredAt(t, i, d))
            || (exists c :: HeldBy(t, c, d))
            || (exists c :: OverflowOf(t, c, d))
  {
    assert NoLeak(t);
    hide TableOk, OwnersApart, PcOk, Inv, Own, HeldBy, OverflowOf;
    if InTable(t, d) {
      var i :| 0 <= i < |t.tab| && t.tab[i] == Holds(d);
      assert StoredAt(t, i, d);
    } else {
      var c :| 0 <= c < |t.calls| && d in Own(t, t.calls[c].pc);
      OwnHolds(t, c, d);
    }
  }

  /** Ownership: a descriptor is live exactly when something owns it - a slot, a running
      call, or the call that returned it as overflow. */
  lemma LiveIffOwned(hash: Hash, t: State, d: Addr)
    requires Reachable(hash, t)
    ensures d in t.heap <==>
              || (exists i :: StoredAt(t, i, d))
              || (exists c :: HeldBy(t, c, d))
              || (exists c :: OverflowOf(t, c, d))
  {
    ReachableInv(hash, t);
    if d in t.heap {
      LiveHasOwner(hash, t, d);
    } else if exists c: nat :: HeldBy(t, c, d) || OverflowOf(t, c, d) {
      var c: nat :| HeldBy(t, c, d) || OverflowOf(t, c, d);
      OwnerOwns(hash, t, c, d);
    }
  }

  /** Ownership is exclusive: a descriptor has never two owners, of whatever kind. */
  lemma OneOwner(hash: Hash, t: State, d: Addr)
    requires Reachable(hash, t)
    ensures forall i, j :: StoredAt(t, i, d) && StoredAt(t, j, d) ==> i == j
    ensures forall i, c :: StoredAt(t, i, d) ==> !HeldBy(t, c, d) && !OverflowOf(t, c, d)
    ensures forall b, c :: HeldBy(t, b, d) && HeldBy(t, c, d) ==> b == c
    ensures forall b, c :: HeldBy(t, b, d) ==> !OverflowOf(t, c, d)
    ensures forall b, c :: OverflowOf(t, b, d) && OverflowOf(t, c, d) ==> b == c
  {
    ReachableInv(hash, t);
    SlotsOf(hash, t, d);
    hide *;
    forall i: nat, c: nat | StoredAt(t, i, d) && (HeldBy(t, c, d) || OverflowOf(t, c, d))
      ensures false
    {
      OwnerOwns(hash, t, c, d);
    }
    forall b: nat, c: nat |
      (HeldBy(t, b, d) || OverflowOf(t, b, d)) && (HeldBy(t, c, d) || OverflowOf(t, c, d))
      ensures b == c && !(HeldBy(t, b, d) && OverflowOf(t, c, d))
    {
      CallOwnersEqual(hash, t, b, c, d);
      OneKind(t, b, d);
    }
  }

  lemma SlotsOf(hash: Hash, t: State, d: Addr)
    requires Inv(hash, t)
    ensures forall i, j :: StoredAt(t, i, d) && StoredAt(t, j, d) ==> i == j
    ensures forall i :: StoredAt(t, i, d) ==> InTable(t, d)
  {
    assert TableOk(hash, t);
    hide Inv, PcOk, OwnersApart, NoLeak;
  }

  lemma OneKind(t: State, c: nat, d: Addr)
    ensures !(HeldBy(t, c, d) && OverflowOf(t, c, d))
  {
  }

  /** A descriptor some call returned is live, with that call's key, for ever after. */
  lemma ReturnedStaysLive(hash: Hash, s: State, trace: seq<Event>, t: State, c: nat, k: Key, d: Addr)
    requires Reachable(hash, s) && Run(hash, s, trace, t) && Ended(s, c, k, d)
    ensures Ended(t, c, k, d) && d in t.heap && t.heap[d] == k
    decreases |trace|
  {
    ReachableInv(hash, s);
    EndedStays(hash, s, trace, t, c, k, d);
    RunInv(hash, s, trace, t);
    assert PcOk(hash, t, k, t.calls[c].pc);
  }

  /** A call touches live descriptors only: the one it compares with its key is in a slot and live,
      and the one it deletes is live, in no slot, and owned by no other call. */
  lemma TouchesLive(hash: Hash, t: State, c: nat)
    requires Reachable(hash, t) && c < |t.calls|
    ensures t.calls[c].pc.Compare? ==> t.calls[c].pc.seen in t.heap && InTable(t, t.calls[c].pc.seen)
    ensures t.calls[c].pc.Delete? ==>
              var d := t.calls[c].pc.mine;
              d in t.heap && !InTable(t, d) && forall b | 0 <= b < |t.calls| && b != c :: d !in Own(t, t.calls[b].pc)
  {
    ReachableInv(hash, t);
    var pc := t.calls[c].pc;
    assert PcOk(hash, t, t.calls[c].key, pc);
    if pc.Compare? {
      SeenLive(hash, t, SlotOf(hash, t.calls[c].key, pc.n), pc.seen);
    } else if pc.Delete? {
      assert pc.mine in Own(t, pc);
      forall b | 0 <= b < |t.calls| && b != c
        ensures pc.mine !in Own(t, t.calls[b].pc)
      {
        Apart(t, b, c);
      }
    }
  }

  lemma {:induction false} EndedStays(hash: Hash, s: State, trace: seq<Event>, t: State,
                                      c: nat, k: Key, d: Addr)
    requires Run(hash, s, trace, t) && Ended(s, c, k, d)
    ensures Ended(t, c, k, d)
    decreases |trace|
  {
    if trace != [] {
      EndedStays(hash, Apply(hash, s, trace[0]), trace[1..], t, c, k, d);
    }
  }

  // --- comparing callback pointers ----------------------------------------------------

  datatype Pointer = Null | To(d: Addr)

  /** `DgFnP::operator==`: the same descriptor, or two descriptors of the same function. */
  predicate SamePointer(t: State, p: Pointer, q: Pointer) {
    p == q || (p.To? && q.To? && p.d in t.heap && q.d in t.heap && t.heap[p.d].fn == t.heap[q.d].fn)
  }

  /** Pointers made by any two ended calls compare equal exactly when they were made from
      one function, whether their descriptors were shared or not. */
  lemma PointerEquality(hash: Hash, t: State, j: Key, k: Key, b: nat, c: nat, d: Addr, e: Addr)
    requires Reachable(hash, t) && Ended(t, b, j, d) && Ended(t, c, k, e)
    ensures SamePointer(t, To(d), To(e)) <==> j.fn == k.fn
  {
    AllOrNothing(hash, t, j, b, b, d, d);
    AllOrNothing(hash, t, k, c, c, e, e);
  }

  // --- progress ---------------------------------------------------------------------

  /** How many more actions a call can take before it has returned. */
  function Rank(pc: Pc): (r: int) {
    match pc
    case Load(n) => 5 * (PROBES - n) + 1
    case Allocate(n) => 5 * (PROBES - n)
    case Exchange(n, _) => 5 * (PROBES - n) - 1
    case Delete(n, _, _) => 5 * (PROBES - n) - 2
    case Compare(n, _) => 5 * (PROBES - n) - 3
    case Overflow => 1
    case Returned(_) => 0
  }

  // The number of actions call c takes in a trace.
  function ActionsOf(trace: seq<Event>, c: nat): nat {
    if trace == [] then 0
    else (if trace[0].Act? && trace[0].c == c then 1 else 0) + ActionsOf(trace[1..], c)
  }

  // The probe number of a call stays inside its window.
  predicate InWindow(pc: Pc) {
    pc.Overflow? || pc.Returned? || pc.n < PROBES
  }

  // One event: an action of c lowers its rank, an event of another call leaves it.
  lemma StepRank(hash: Hash, s: State, e: Event, c: nat)
    requires Enabled(s, e) && c < |s.calls| && InWindow(s.calls[c].pc)
    ensures var u := Apply(hash, s, e);
            && c < |u.calls| && u.calls[c].key == s.calls[c].key
            && (if e.Act? && e.c == c then Rank(u.calls[c].pc) < Rank(s.calls[c].pc)
                else u.calls[c] == s.calls[c])
  {
  }

  /** Wait-freedom: whatever the other calls do, each action of call c brings it nearer to
      its return by its rank, which starts at 5 * 64 + 1; and as long as it has not returned
      it can act, with any address that is free. */
  lemma {:induction false} WaitFree(hash: Hash, s: State, trace: seq<Event>, t: State, c: nat)
    requires Inv(hash, s) && Run(hash, s, trace, t) && c < |s.calls|
    ensures c < |t.calls| && t.calls[c].key == s.calls[c].key
    ensures 0 <= Rank(t.calls[c].pc)
    ensures Rank(t.calls[c].pc) + ActionsOf(trace, c) <= Rank(s.calls[c].pc)
    ensures Rank(t.calls[c].pc) == 0 <==> t.calls[c].pc.Returned?
    ensures forall a: Addr | a !in t.heap :: t.calls[c].pc.Returned? || Enabled(t, Act(c, a))
    decreases |trace|
  {
    assert PcOk(hash, s, s.calls[c].key, s.calls[c].pc);
    assert InWindow(s.calls[c].pc);
    if trace != [] {
      StepInv(hash, s, trace[0]);
      StepRank(hash, s, trace[0], c);
      WaitFree(hash, Apply(hash, s, trace[0]), trace[1..], t, c);
    }
  }

  /** A call loads at most 64 slots: it takes at most 321 actions from its start. */
  lemma CallBound(hash: Hash, s: State, k: Key, trace: seq<Event>, t: State)
    requires Inv(hash, s) && Run(hash, Apply(hash, s, Begin(k)), trace, t)
    ensures ActionsOf(trace, |s.calls|) <= 321
    ensures |s.calls| < |t.calls|
    ensures ActionsOf(trace, |s.calls|) == 321 ==> t.calls[|s.calls|].pc.Returned?
  {
    StepInv(hash, s, Begin(k));
    WaitFree(hash, Apply(hash, s, Begin(k)), trace, t, |s.calls|);
  }

  // --- the probe loop ---------------------------------------------------------------

  class Desc {
    const key: Key
    constructor (key: Key)
      ensures this.key == key
    {
      this.key := key;
    }
  }

  /** The probe loop of one thread on the shared array.  Between any two atomic actions the
      other threads may change the array in any way that keeps written slots. */
  class Table {
    const tab: array<Desc?>

    ghost predicate Valid() reads this { tab.Length == TABLE_SIZE }

    constructor ()
      ensures Valid() && fresh(tab) && forall i | 0 <= i < TABLE_SIZE :: tab[i] == null
    {
      tab := new Desc?[TABLE_SIZE](_ => null);
    }

    twostate predicate Kept()
      reads tab
    {
      forall i | 0 <= i < tab.Length && old(tab[i]) != null :: tab[i] == old(tab[i])
    }

    method OtherThreads()
      modifies tab
      ensures Kept()
    {
      assert |tab[..]| == tab.Length && forall i | 0 <= i < tab.Length :: tab[..][i] == tab[i];
      var now: seq<Desc?> :| |now| == tab.Length
        && forall i | 0 <= i < tab.Length && tab[i] != null :: now[i] == tab[i];
      forall i | 0 <= i < tab.Length { tab[i] := now[i]; }
    }

    method Intern(hash: Hash, key: Key) returns (d: Desc)
      requires Valid()
      modifies tab
      ensures Kept() && d.key == key
      ensures (exists n: nat :: n < 64 && tab[SlotOf(hash, key, n)] == d)
              || (fresh(d) && forall n: nat | n < 64 ::
                    tab[SlotOf(hash, key, n)] != null && tab[SlotOf(hash, key, n)].key != key)
    {
      var n := 0;
      while n < PROBES
        invariant n <= PROBES && Kept()
        invariant forall m: nat | m < n ::
                    tab[SlotOf(hash, key, m)] != null && tab[SlotOf(hash, key, m)].key != key
      {
        var i := SlotOf(hash, key, n);
        OtherThreads();
        var seen := tab[i];
        if seen == null {
          var mine := new Desc(key);
          OtherThreads();
          if tab[i] == null {
            tab[i] := mine;
            return mine;
          }
          seen := tab[i];
        }
        if seen.key == key {
          return seen;
        }
        n := n + 1;
      }
      d := new Desc(key);
    }
  }
}
