/** RC4 as the PDF filter uses it: `myRC4_set_key` and `myRC4` of delegate/filters/rc4.cpp. */
module Rc4 {
  import opened Bytes

  const SIZE: nat := 256

  function Pow2(n: nat): nat {
    if n == 0 then 1 else 2 * Pow2(n - 1)
  }

  function Bit(a: nat, b: nat): (r: nat)
    ensures r < 2
  {
    if a % 2 == b % 2 then 0 else 1
  }

  /** Exclusive or of the low n bits, bit by bit. */
  function Xor(a: nat, b: nat, n: nat): (r: nat)
    ensures r < Pow2(n)
  {
    if n == 0 then 0 else 2 * Xor(a / 2, b / 2, n - 1) + Bit(a, b)
  }

  lemma BitTwice(h: nat, a: nat, b: nat)
    ensures var x := 2 * h + Bit(a, b); x / 2 == h && Bit(x, b) == a % 2
  {
  }

  lemma {:induction false} XorTwice(a: nat, b: nat, n: nat)
    requires a < Pow2(n)
    ensures Xor(Xor(a, b, n), b, n) == a
    decreases n
  {
    if n > 0 {
      var h := Xor(a / 2, b / 2, n - 1);
      XorTwice(a / 2, b / 2, n - 1);
      BitTwice(h, a, b);
    }
  }

  const BITS: nat := 8

  lemma ByteBits()
    ensures Pow2(BITS) == 256
  {
    assert Pow2(4) == 16;
  }

  function Mask(a: byte, b: byte): byte {
    ByteBits();
    Xor(a, b, BITS)
  }

  lemma MaskTwice(a: byte, b: byte)
    ensures Mask(Mask(a, b), b) == a
  {
    ByteBits();
    XorTwice(a, b, BITS);
  }

  // Bit k of a number.
  function BitAt(v: nat, k: nat): nat { if k == 0 then v % 2 else BitAt(v / 2, k - 1) }

  /** A bit of the exclusive or is set just when it is set in one of the two, not in both. */
  lemma {:induction false} XorBits(a: nat, b: nat, n: nat, k: nat)
    requires k < n
    ensures BitAt(Xor(a, b, n), k) == (BitAt(a, k) + BitAt(b, k)) % 2
  {
    var h := Xor(a / 2, b / 2, n - 1);
    BitTwice(h, a, b);
    if k == 0 {
      assert Xor(a, b, n) % 2 == Bit(a, b);
    } else {
      XorBits(a / 2, b / 2, n - 1, k - 1);
    }
  }

  /** So it is with the eight bits of a byte. */
  lemma MaskBits(a: byte, b: byte, k: nat)
    requires k < 8
    ensures BitAt(Mask(a, b), k) == (BitAt(a, k) + BitAt(b, k)) % 2
  {
    XorBits(a, b, 8, k);
  }

  // --- the state and its specification ----------------------------------------------

  datatype Fields = Fields(x: byte, y: byte, data: seq<byte>)

  type State = f: Fields | |f.data| == SIZE
    witness Fields(0, 0, Identity())

  function Identity(): (d: seq<byte>)
    ensures |d| == SIZE && forall i | 0 <= i < SIZE :: d[i] == i
  {
    seq(SIZE, i requires 0 <= i < SIZE => i)
  }

  function Swap(d: seq<byte>, i: byte, j: byte): (r: seq<byte>)
    requires |d| == SIZE
    ensures |r| == SIZE
  {
    d[i := d[j]][j := d[i]]
  }

  /** The state array holds every value 0..255 exactly once. */
  ghost predicate Permutation(d: seq<byte>) {
    |d| == SIZE && multiset(d) == multiset(Identity())
  }

  // The position of round i in the endlessly repeated key.
  function Wrap(i: nat, len: nat): (k: nat)
    requires len > 0
    ensures k < len
  {
    if i < len then i else Wrap(i - len, len)
  }

  // The key schedule after i of its 256 rounds: the array and the running index j.
  function Schedule(key: seq<byte>, i: nat): (r: (seq<byte>, byte))
    requires key != [] && i <= SIZE
    ensures |r.0| == SIZE
  {
    if i == 0 then (Identity(), 0)
    else
      var (d, j) := Schedule(key, i - 1);
      var j' := (j + d[i - 1] + key[Wrap(i - 1, |key|)]) % 256;
      (Swap(d, i - 1, j'), j')
  }

  function KeyState(key: seq<byte>): (s: State)
  {
    Fields(0, 0, if key == [] then Identity() else Schedule(key, SIZE).0)
  }

  // One round of the generator.
  function Next(s: State): State {
    var x := (s.x + 1) % 256;
    var y := (s.y + s.data[x]) % 256;
    Fields(x, y, Swap(s.data, x, y))
  }

  // The key byte the state offers after a round.
  function Out(s: State): byte
  {
    var a: int, b: int := s.data[s.x], s.data[s.y];
    s.data[(a + b) % 256]
  }

  function Iterate<T>(f: T -> T, t: T, n: nat): T {
    if n == 0 then t else Iterate(f, f(t), n - 1)
  }

  /** The text a generator produces from state t: each byte is masked with the key byte that
      the next state offers. */
  function Stream<T>(f: T -> T, out: T -> byte, t: T, input: seq<byte>): (output: seq<byte>)
    ensures |output| == |input|
    decreases |input|
  {
    if input == [] then []
    else [Mask(input[0], out(f(t)))] + Stream(f, out, f(t), input[1..])
  }

  function After(s: State, n: nat): State {
    Iterate(Next, s, n)
  }

  function Text(s: State, input: seq<byte>): seq<byte> {
    Stream(Next, Out, s, input)
  }

  // --- properties -------------------------------------------------------------------

  lemma SwapPermutes(d: seq<byte>, i: byte, j: byte)
    requires |d| == SIZE
    ensures multiset(Swap(d, i, j)) == multiset(d)
  {
  }

  lemma {:induction false} SchedulePermutes(key: seq<byte>, i: nat)
    requires key != [] && i <= SIZE
    ensures Permutation(Schedule(key, i).0)
  {
    if i > 0 {
      SchedulePermutes(key, i - 1);
      SwapPermutes(Schedule(key, i - 1).0, i - 1, Schedule(key, i).1);
    }
  }

  lemma {:induction false} RoundsPermute(s: State, n: nat)
    ensures multiset(After(s, n).data) == multiset(s.data)
    decreases n
  {
    if n > 0 {
      SwapPermutes(s.data, Next(s).x, Next(s).y);
      RoundsPermute(Next(s), n - 1);
    }
  }

  /** After any key setup and any number of rounds the array is a permutation of 0..255. */
  lemma AlwaysPermutation(key: seq<byte>, n: nat)
    ensures Permutation(After(KeyState(key), n).data)
  {
    if key != [] { SchedulePermutes(key, SIZE); }
    RoundsPermute(KeyState(key), n);
  }

  // Every value 0..255 stands at exactly one place of a permutation.
  lemma PermutationHolds(d: seq<byte>, v: byte)
    requires Permutation(d)
    ensures exists i: byte :: d[i] == v
    ensures forall i: byte, j: byte :: d[i] == v && d[j] == v ==> i == j
  {
    IdentityCounts(v);
    assert v in multiset(d);
    var i :| 0 <= i < SIZE && d[i] == v;
    forall j: byte | d[j] == v ensures i == j {
      OnePlace(d, v, i, j);
    }
  }

  lemma OnePlace(d: seq<byte>, v: byte, i: byte, j: byte)
    requires |d| == SIZE && multiset(d)[v] == 1 && d[i] == d[j] == v
    ensures i == j
  {
    var lo, hi := if i < j then i else j, if i < j then j else i;
    assert d == d[..hi] + d[hi..];
    assert multiset(d) == multiset(d[..hi]) + multiset(d[hi..]);
    assert d[hi..][0] == v;
    assert multiset(d[hi..])[v] >= 1;
    assert multiset(d[..hi])[v] == 0;
  }

  lemma IdentityCounts(v: byte)
    ensures multiset(Identity())[v] == 1
  {
    var d := Identity();
    assert d == d[..v] + [v] + d[v + 1..];
    assert v !in d[..v] && v !in d[v + 1..];
    assert multiset(d[..v])[v] == 0 && multiset(d[v + 1..])[v] == 0;
  }

  // One round of the loop over the text: the state u after t masks byte i.
  lemma StreamNone<T>(f: T -> T, out: T -> byte, t: T, text: seq<byte>)
    ensures [] + Stream(f, out, t, text[0..]) == Stream(f, out, t, text)
    ensures Iterate(f, t, 0) == t
    ensures Stream(f, out, t, []) == []
  {
    assert text[0..] == text;
  }

  lemma StreamStep<T>(f: T -> T, out: T -> byte, t: T, u: T, text: seq<byte>, i: nat,
                      done: seq<byte>, whole: seq<byte>)
    requires i < |text| && u == f(t)
    requires done + Stream(f, out, t, text[i..]) == whole
    ensures done + [Mask(text[i], out(u))] + Stream(f, out, u, text[i + 1..]) == whole
    ensures Iterate(f, u, |text| - (i + 1)) == Iterate(f, t, |text| - i)
  {
    assert text[i..][1..] == text[i + 1..];
  }

  /** Text produced in two pieces, the state carried over, is the text produced at once. */
  lemma {:induction false} Chunks<T>(f: T -> T, out: T -> byte, t: T, a: seq<byte>, b: seq<byte>)
    ensures Stream(f, out, t, a + b) == Stream(f, out, t, a) + Stream(f, out, Iterate(f, t, |a|), b)
    decreases |a|
  {
    if a == [] {
      assert a + b == b;
    } else {
      assert (a + b)[1..] == a[1..] + b;
      Chunks(f, out, f(t), a[1..], b);
    }
  }

  /** The same state turns the produced text back into the input. */
  lemma {:induction false} RoundTrip<T>(f: T -> T, out: T -> byte, t: T, input: seq<byte>)
    ensures Stream(f, out, t, Stream(f, out, t, input)) == input
    decreases |input|
  {
    if input != [] {
      MaskTwice(input[0], out(f(t)));
      RoundTrip(f, out, f(t), input[1..]);
    }
  }

  function Feed<T>(f: T -> T, out: T -> byte, t: T, inputs: seq<seq<byte>>): seq<byte>
    decreases |inputs|
  {
    if inputs == [] then []
    else Stream(f, out, t, inputs[0]) + Feed(f, out, Iterate(f, t, |inputs[0]|), inputs[1..])
  }

  function Flat(pieces: seq<seq<byte>>): seq<byte> {
    if pieces == [] then [] else pieces[0] + Flat(pieces[1..])
  }

  lemma {:induction false} FeedIsStream<T>(f: T -> T, out: T -> byte, t: T, inputs: seq<seq<byte>>)
    ensures Feed(f, out, t, inputs) == Stream(f, out, t, Flat(inputs))
    decreases |inputs|
  {
    if inputs != [] {
      FeedIsStream(f, out, Iterate(f, t, |inputs[0]|), inputs[1..]);
      Chunks(f, out, t, inputs[0], Flat(inputs[1..]));
    }
  }

  /** However the plain text is cut into calls on one key object, and however the produced
      text is cut into calls on a second object set up with the same key, the second object
      gives the plain text back. */
  lemma {:induction false} Conversation(key: seq<byte>, sent: seq<seq<byte>>, received: seq<seq<byte>>)
    requires Flat(received) == Feed(Next, Out, KeyState(key), sent)
    ensures Feed(Next, Out, KeyState(key), received) == Flat(sent)
  {
    FeedIsStream(Next, Out, KeyState(key), sent);
    FeedIsStream(Next, Out, KeyState(key), received);
    RoundTrip(Next, Out, KeyState(key), Flat(sent));
  }

  // --- what a round does ------------------------------------------------------------

  /** The arrays differ in the places i and j only, whose values are exchanged. */
  predicate Exchanged(d: seq<byte>, e: seq<byte>, i: nat, j: nat)
    requires |d| == |e| == 256 && i < 256 && j < 256
  {
    e[i] == d[j] && e[j] == d[i] && forall k | 0 <= k < 256 && k != i && k != j :: e[k] == d[k]
  }

  /** A round of the generator: x goes on by one, y by the value there, the two values are
      exchanged, and the key byte stands where their sum points. */
  lemma RoundIs(s: State)
    ensures var t := Next(s);
            && t.x == (s.x as int + 1) % 256 && t.y == (s.y as int + s.data[t.x]) % 256
            && Exchanged(s.data, t.data, t.x, t.y)
            && Out(t) == t.data[(s.data[t.x] as int + s.data[t.y]) % 256]
  {
  }

  // What wraps has gone round some times.
  lemma {:induction false} WrapIs(i: nat, len: nat) returns (q: nat)
    requires len > 0
    ensures i == q * len + Wrap(i, len)
  {
    q := 0;
    if i >= len {
      var r := WrapIs(i - len, len);
      q := r + 1;
      assert q * len == r * len + len;
    }
  }

  /** The key schedule begins with the values in order; round i adds the value there and the byte
      that stands at i in the repeated key to j, and exchanges the values at i and j. */
  lemma ScheduleIs(key: seq<byte>, i: nat) returns (q: nat, k: nat)
    requires key != [] && i < 256
    ensures forall k | 0 <= k < 256 :: Schedule(key, 0).0[k] == k
    ensures Schedule(key, 0).1 == 0
    ensures i == q * |key| + k && k < |key|
    ensures var (d, j) := Schedule(key, i);
            var (e, j') := Schedule(key, i + 1);
            j' == (j as int + d[i] + key[k]) % 256 && Exchanged(d, e, i, j')
  {
    k := Wrap(i, |key|);
    q := WrapIs(i, |key|);
    ScheduleStep(key, i);
  }

  /** With the empty key the first key bytes are 2, 5 and 7. */
  lemma EmptyKey()
    ensures Text(KeyState([]), [0, 0, 0]) == [2, 5, 7]
  {
    var s0 := KeyState([]);
    var s1 := Next(s0);
    assert s1.x == 1 && s1.y == 1 && s1.data == Identity();
    assert Out(s1) == 2;
    var s2 := Next(s1);
    assert s2.x == 2 && s2.y == 3 && s2.data[2] == 3 && s2.data[3] == 2 && s2.data[5] == 5 && s2.data[7] == 7;
    assert Out(s2) == 5;
    var s3 := Next(s2);
    assert s3.x == 3 && s3.y == 5 && s3.data[3] == 5 && s3.data[5] == 2 && s3.data[7] == 7;
    assert Out(s3) == 7;
    ThreeBytes(s0, s1, s2, s3);
  }

  lemma ThreeBytes(s0: State, s1: State, s2: State, s3: State)
    requires s1 == Next(s0) && s2 == Next(s1) && s3 == Next(s2)
    ensures Text(s0, [0, 0, 0]) == [Out(s1), Out(s2), Out(s3)]
  {
    hide Next, Out, Mask;
    MaskZero(Out(s1));
    MaskZero(Out(s2));
    MaskZero(Out(s3));
    assert [0, 0, 0][1..] == [0, 0] && [0, 0][1..] == [0] && [0][1..] == [];
    assert Stream(Next, Out, s2, [0]) == [Out(s3)];
    assert Stream(Next, Out, s1, [0, 0]) == [Out(s2)] + [Out(s3)];
  }

  lemma {:induction false} XorZero(b: nat, n: nat)
    requires b < Pow2(n)
    ensures Xor(0, b, n) == b
  {
    if n > 0 { XorZero(b / 2, n - 1); }
  }

  lemma MaskZero(b: byte)
    ensures Mask(0, b) == b
  {
    ByteBits();
    XorZero(b, 8);
  }

  // --- the program ------------------------------------------------------------------

  class Rc4Key {
    var x: byte
    var y: byte
    const data: array<byte>

    ghost predicate Valid() reads this, data { data.Length == SIZE }

    ghost function Value(): (s: State)
      reads this, data
      requires Valid()
    {
      Fields(x, y, data[..])
    }

    constructor ()
      ensures Valid() && fresh(data)
    {
      x, y := 0, 0;
      data := new byte[SIZE](_ => 0);
    }

    method SetKey(len: int, key: seq<byte>)
      requires Valid() && len <= |key|
      modifies this, data
      ensures Valid() && Value() == KeyState(if len <= 0 then [] else key[..len])
    {
      hide Schedule, Wrap, Swap;
      for i := 0 to SIZE
        invariant forall m | 0 <= m < i :: data[m] == m
      {
        data[i] := i;
      }
      x, y := 0, 0;
      assert data[..] == Identity();
      if len <= 0 {
        return;
      }
      ScheduleNone(key[..len]);
      var j: byte, k := 0, 0;
      for i := 0 to SIZE
        invariant x == y == 0
        invariant 0 <= k < len && k == Wrap(i, len)
        invariant (data[..], j) == Schedule(key[..len], i)
      {
        ScheduleStep(key[..len], i);
        assert key[..len][k] == key[k];
        j := MixRound(i, j, key[k]);
        k := k + 1;
        if k == len { k := 0; }
        NextIndex(i, len);
      }
    }

    // One round of the key schedule.
    method MixRound(i: byte, j: byte, key: byte) returns (j': byte)
      requires Valid()
      modifies data
      ensures j' == (j as int + old(data[i]) + key) % 256
      ensures data[..] == Swap(old(data[..]), i, j')
    {
      var t := data[i];
      j' := (j as int + t + key) % 256;
      data[i] := data[j'];
      data[j'] := t;
    }

    // One round of the generator; returns the key byte.
    method Round() returns (k: byte)
      requires Valid()
      modifies this, data
      ensures Valid() && Value() == Next(old(Value())) && k == Out(Value())
    {
      x := (x as int + 1) % 256;
      var tx := data[x];
      y := (y as int + tx) % 256;
      var ty := data[y];
      data[x] := ty;
      data[y] := tx;
      k := data[(tx as int + ty) % 256];
    }

    /** `input` and `output` may be one array. */
    method Crypt(len: nat, input: array<byte>, output: array<byte>)
      requires Valid() && len <= input.Length && len <= output.Length
      requires input != data && output != data
      modifies this, data, output
      ensures Valid() && Value() == After(old(Value()), len)
      ensures output[..len] == Text(old(Value()), old(input[..len]))
      ensures output[len..] == old(output[len..])
    {
      hide Stream, Iterate, Next, Out, Mask;
      ghost var s, text := Value(), input[..len];
      StreamNone(Next, Out, s, text);
      for i := 0 to len
        invariant Valid() && After(Value(), len - i) == After(s, len)
        invariant forall m | i <= m < len :: input[m] == text[m]
        invariant output[..i] + Text(Value(), text[i..]) == Text(s, text)
        invariant forall m | len <= m < output.Length :: output[m] == old(output[m])
      {
        ghost var done, u := output[..i], Value();
        var k := Round();
        output[i] := Mask(input[i], k);
        StreamStep(Next, Out, u, Value(), text, i, done, Text(s, text));
        assert output[..i + 1] == done + [output[i]];
      }
      StreamNone(Next, Out, Value(), text);
      assert text[len..] == [] && output[..len] + [] == output[..len];
    }
  }

  lemma ScheduleNone(key: seq<byte>)
    requires key != []
    ensures Schedule(key, 0) == (Identity(), 0) && Wrap(0, |key|) == 0
  {
  }

  lemma ScheduleStep(key: seq<byte>, i: nat)
    requires key != [] && i < SIZE
    ensures var (d, j) := Schedule(key, i);
            var j' := (j + d[i] + key[Wrap(i, |key|)]) % 256;
            Schedule(key, i + 1) == (Swap(d, i, j'), j')
  {
  }

  lemma {:induction false} NextIndex(i: nat, len: nat)
    requires len > 0
    ensures Wrap(i + 1, len) == if Wrap(i, len) + 1 == len then 0 else Wrap(i, len) + 1
  {
    if i >= len { NextIndex(i - len, len); }
  }
}
