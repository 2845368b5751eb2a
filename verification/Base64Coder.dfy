/** The base64 coder: `init_64`, `MIME_to64X`, `strtoB64`, `B64tostr`, `MIME_from64` of
    delegate/mimekit/mimecodes.cpp.  The format is section 6.8 of RFC 2045. */
module Base64Coder {
  import opened Bytes

  // A value of six bits.
  type sextet = v: int | 0 <= v < 64

  // The character of a value, and back.
  function Symbol(v: sextet): (c: byte)
    ensures c < 128
  {
    if v < 26 then 65 + v
    else if v < 52 then 97 + (v - 26)
    else if v < 62 then 48 + (v - 52)
    else if v == 62 then 43
    else 47
  }

  // What a byte of an encoded text is.
  datatype Kind = White | Pad | Value(v: sextet) | Bad

  function KindOf(c: byte): Kind {
    if c == SPACE || c == TAB || c == CR || c == LF then White
    else if c == EQ then Pad
    else if 65 <= c <= 90 then Value(c - 65)
    else if 97 <= c <= 122 then Value(c - 97 + 26)
    else if 48 <= c <= 57 then Value(c - 48 + 52)
    else if c == 43 then Value(62)
    else if c == 47 then Value(63)
    else Bad
  }

  lemma SymbolKind(v: sextet)
    ensures KindOf(Symbol(v)) == Value(v)
  {
  }

  const UPPER := "ABCDEFGHIJKLMNOPQRSTUVWXYZ"
  const LOWER := "abcdefghijklmnopqrstuvwxyz"

  /** The 64 symbols in order, and what every byte stands for. */
  lemma Symbols(v: sextet, c: byte)
    ensures |UPPER| == |LOWER| == 26 && |UPPER + LOWER + "0123456789+/"| == 64
    ensures Symbol(v) == (UPPER + LOWER + "0123456789+/")[v] as int
    ensures KindOf(c) == Value(v) <==> c == (UPPER + LOWER + "0123456789+/")[v] as int
    ensures KindOf(c) == White <==> c == 32 || c == 9 || c == 13 || c == 10
    ensures KindOf(c) == Pad <==> c == 61
  {
    UpperIs(v);
    LowerIs(v - 26);
    DigitIs(v - 52);
    hide UPPER, LOWER;
    SymbolKind(v);
    KindSymbol(c);
  }

  lemma UpperIs(k: int)
    ensures |UPPER| == 26 && (0 <= k < 26 ==> UPPER[k] as int == 65 + k)
  {
    if 0 <= k < 13 { assert UPPER[..13] == "ABCDEFGHIJKLM" && UPPER[..13][k] as int == 65 + k; }
    if 13 <= k < 26 { assert UPPER[13..] == "NOPQRSTUVWXYZ" && UPPER[13..][k - 13] as int == 65 + k; }
  }

  lemma LowerIs(k: int)
    ensures |LOWER| == 26 && (0 <= k < 26 ==> LOWER[k] as int == 97 + k)
  {
    if 0 <= k < 13 { assert LOWER[..13] == "abcdefghijklm" && LOWER[..13][k] as int == 97 + k; }
    if 13 <= k < 26 { assert LOWER[13..] == "nopqrstuvwxyz" && LOWER[13..][k - 13] as int == 97 + k; }
  }

  lemma DigitIs(k: int)
    ensures |"0123456789+/"| == 12
    ensures 0 <= k < 12 ==> "0123456789+/"[k] as int == if k < 10 then 48 + k else if k == 10 then 43 else 47
  {
  }

  lemma KindSymbol(c: byte)
    ensures KindOf(c).Value? ==> Symbol(KindOf(c).v) == c
    ensures KindOf(c) == White <==> c == 32 || c == 9 || c == 13 || c == 10
    ensures KindOf(c) == Pad <==> c == 61
  {
  }

  // --- the encoded text -------------------------------------------------------------

  const FULL: nat := 71

  // The four sextets of a 24-bit word, highest first.
  function Split24(w: nat): (q: seq<sextet>)
    requires w < 0x100_0000
    ensures |q| == 4
  {
    [w / 0x4_0000, w / 0x1000 % 64, w / 64 % 64, w % 64]
  }

  // The word one, two or three bytes fill from the left.
  function Word(g: bytes): (w: nat)
    requires 1 <= |g| <= 3
    ensures w < 0x100_0000
  {
    var a: nat, b: nat, c: nat :=
      g[0], if |g| > 1 then g[1] else 0, if |g| > 2 then g[2] else 0;
    a * 0x1_0000 + b * 0x100 + c
  }

  // The four characters of one, two or three bytes.
  function Quad(g: bytes): (q: bytes)
    requires 1 <= |g| <= 3
    ensures |q| == 4
  {
    var v := Split24(Word(g));
    [Symbol(v[0]), Symbol(v[1]),
     if |g| > 1 then Symbol(v[2]) else EQ,
     if |g| > 2 then Symbol(v[3]) else EQ]
  }

  function Take3(x: bytes): bytes { if |x| <= 3 then x else x[..3] }

  function Drop3(x: bytes): bytes { if |x| <= 3 then [] else x[3..] }

  function NewLine(withNL: bool): bytes { if withNL then [LF] else [] }

  /** The encoding of x put from column col on, with line feeds or without. */
  function Encoded(x: bytes, col: nat, withNL: bool): bytes
    decreases |x|
  {
    if x == [] then (if col > 0 then NewLine(withNL) else [])
    else
      (if FULL < col then NewLine(withNL) else [])
        + (Quad(Take3(x)) + Encoded(Drop3(x), if FULL < col then 4 else col + 4, withNL))
  }

  /** The four characters of a group, from the bits of its bytes; "=" where there is no byte. */
  lemma QuadIs(a: byte, b: byte, c: byte)
    ensures Quad([a, b, c]) ==
            [Symbol(a / 4), Symbol(a % 4 * 16 + b / 16), Symbol(b % 16 * 4 + c / 64), Symbol(c % 64)]
    ensures Quad([a, b]) == [Symbol(a / 4), Symbol(a % 4 * 16 + b / 16), Symbol(b % 16 * 4), 61]
    ensures Quad([a]) == [Symbol(a / 4), Symbol(a % 4 * 16), 61, 61]
  {
    SplitIs(a, b, c);
    SplitIs(a, b, 0);
    SplitIs(a, 0, 0);
    hide Split24, Symbol;
  }

  lemma SplitIs(a: byte, b: byte, c: byte)
    ensures Split24(a * 0x1_0000 + b * 0x100 + c) == [a / 4, a % 4 * 16 + b / 16, b % 16 * 4 + c / 64, c % 64]
  {
    hide Split24;
    var p: nat, q: nat := a / 4, a % 4;
    var r: nat, t: nat := b / 16, b % 16;
    var u: nat, v: nat := c / 64, c % 64;
    assert a == 4 * p + q && b == 16 * r + t && c == 64 * u + v;
    assert a * 0x1_0000 + b * 0x100 + c == p * 0x4_0000 + (q * 16 + r) * 0x1000 + (t * 4 + u) * 64 + v;
    SplitJoined(p, q * 16 + r, t * 4 + u, v);
  }

  /** The text with lines: 54 bytes to a line of 72 characters, and a line feed at its end. */
  lemma {:induction false} LineByLine(x: bytes, col: nat, n: nat)
    requires col == 4 * n <= 72
    ensures var room := 54 - 3 * n;
            && (x == [] && n == 0 ==> Encoded(x, col, true) == [])
            && (|x| <= room && (x != [] || n > 0) ==> Encoded(x, col, true) == Encoded(x, 0, false) + [10])
            && (|x| > room ==>
                  Encoded(x, col, true) == Encoded(x[..room], 0, false) + [10] + Encoded(x[room..], 0, true))
    decreases |x|
  {
    hide Encoded, Quad, Take3, Drop3;
    var room := 54 - 3 * n;
    NothingMore(col);
    if x == [] {
      assert [] + [10] == [10];
    } else if n == 18 {
      assert x[..0] == [] && x[0..] == x;
      FirstOfLine(x);
    } else {
      DropSize(x);
      var q, y := Quad(Take3(x)), Drop3(x);
      QuadFirst(x, col);
      LineByLine(y, col + 4, n + 1);
      if |x| > room {
        ThreeMore(x, room);
        RegroupStep(q, Encoded(y[..room - 3], 0, false), [10], Encoded(x[room..], 0, true));
      } else {
        assert q + (Encoded(y, 0, false) + [10]) == (q + Encoded(y, 0, false)) + [10];
      }
    }
  }

  lemma NothingMore(col: nat)
    ensures Encoded([], 0, false) == [] && Encoded([], 0, true) == []
    ensures col > 0 ==> Encoded([], col, true) == [10]
  {
  }

  lemma DropSize(x: bytes)
    ensures |Drop3(x)| == (if |x| < 3 then 0 else |x| - 3) && (x != [] ==> 1 <= |Take3(x)| <= 3)
  {
  }

  lemma FirstOfLine(x: bytes)
    requires x != []
    ensures Encoded(x, 72, true) == Encoded([], 0, false) + [10] + Encoded(x, 0, true)
  {
  }

  lemma QuadFirst(x: bytes, col: nat)
    requires x != [] && col < 72
    ensures Encoded(x, col, true) == Quad(Take3(x)) + Encoded(Drop3(x), col + 4, true)
    ensures Encoded(x, 0, false) == Quad(Take3(x)) + Encoded(Drop3(x), 0, false)
  {
    AnyColumn(Drop3(x), 4, 0);
  }

  lemma {:induction false} AnyColumn(x: bytes, col: nat, c: nat)
    ensures Encoded(x, col, false) == Encoded(x, c, false)
    decreases |x|
  {
    if x != [] { AnyColumn(Drop3(x), if FULL < col then 4 else col + 4, if FULL < c then 4 else c + 4); }
  }

  lemma ThreeMore(x: bytes, room: nat)
    requires 3 <= room < |x|
    ensures Encoded(x[..room], 0, false) == Quad(Take3(x)) + Encoded(Drop3(x)[..room - 3], 0, false)
    ensures Drop3(x)[room - 3..] == x[room..]
  {
    var y := x[..room];
    QuadFirst(y, 0);
    assert Take3(y) == Take3(x) && Drop3(y) == Drop3(x)[..room - 3];
  }

  /** "Man", "Ma" and "M" become "TWFu", "TWE=" and "TQ==", each in a line of its own. */
  lemma Man()
    ensures Encoded([77, 97, 110], 0, true) == [84, 87, 70, 117, 10]
    ensures Encoded([77, 97], 0, true) == [84, 87, 69, 61, 10]
    ensures Encoded([77], 0, true) == [84, 81, 61, 61, 10]
  {
    hide Encoded, Quad;
    QuadIs(77, 97, 110);
    EncodedOne([77, 97, 110]);
    EncodedOne([77, 97]);
    EncodedOne([77]);
  }

  lemma EncodedOne(g: bytes)
    requires 1 <= |g| <= 3
    ensures Encoded(g, 0, true) == Quad(g) + [10]
  {
    hide Quad;
    QuadFirst(g, 0);
  }

  // --- decoding ---------------------------------------------------------------------

  // One group read from the text: its values, the text after it, and whether reading stops.
  datatype Group = Group(values: seq<sextet>, rest: bytes, stop: bool)

  function ReadGroup(s: bytes, slots: nat, values: seq<sextet>): (g: Group)
    requires |values| <= slots <= 4
    ensures |g.rest| <= |s| && |g.values| <= 4
    ensures s != [] && slots < 4 ==> |g.rest| < |s|
    decreases |s|
  {
    if slots == 4 then Group(values, s, false)
    else if s == [] then Group(values, [], true)
    else match KindOf(s[0])
      case Bad => Group(values, s[1..], true)
      case White => ReadGroup(s[1..], slots, values)
      case Pad => ReadGroup(s[1..], slots + 1, values)
      case Value(v) => ReadGroup(s[1..], slots + 1, values + [v])
  }

  // The bytes of a group: one less than it has values.
  function GroupBytes(values: seq<sextet>): (b: bytes)
    requires |values| <= 4
    ensures |b| == if |values| == 0 then 0 else |values| - 1
  {
    var w := Join24(values);
    [w / 0x1_0000, w / 0x100 % 256, w % 256][..if |values| == 0 then 0 else |values| - 1]
  }

  function Join24(values: seq<sextet>): (w: nat)
    requires |values| <= 4
    ensures w < 0x100_0000
  {
    var a: nat, b: nat := if |values| > 0 then values[0] else 0, if |values| > 1 then values[1] else 0;
    var c: nat, d: nat := if |values| > 2 then values[2] else 0, if |values| > 3 then values[3] else 0;
    a * 0x4_0000 + b * 0x1000 + c * 64 + d
  }

  /** The bytes a decoder makes of a text. */
  function Decoded(s: bytes): bytes
    decreases |s|
  {
    var g := ReadGroup(s, 0, []);
    if g.values == [] then []
    else GroupBytes(g.values) + (if g.stop || g.rest == [] then [] else Decoded(g.rest))
  }

  // --- one group --------------------------------------------------------------------

  lemma Div64(q: nat, r: nat)
    requires r < 64
    ensures (q * 64 + r) / 64 == q && (q * 64 + r) % 64 == r
  {
  }

  lemma SplitJoined(a: sextet, b: sextet, c: sextet, d: sextet)
    ensures Split24((a as nat) * 0x4_0000 + (b as nat) * 0x1000 + (c as nat) * 64 + d) == [a, b, c, d]
  {
    var w2: nat := a * 64 + b;
    var w1: nat := w2 * 64 + c;
    var w: nat := w1 * 64 + d;
    Div64(w1, d);
    Div64(w2, c);
    Div64(a, b);
    assert w / 64 == w1;
    assert w / 0x1000 == w1 / 64;
    assert w / 0x4_0000 == w2 / 64;
  }

  // The bytes of a group, cut into sextets.
  lemma SplitWord(g: bytes)
    requires 1 <= |g| <= 3
    ensures var a: nat, b: nat, c: nat := g[0], if |g| > 1 then g[1] else 0, if |g| > 2 then g[2] else 0;
            Split24(Word(g)) == [a / 4, a % 4 * 16 + b / 16, b % 16 * 4 + c / 64, c % 64]
  {
    var a: nat, b: nat, c: nat := g[0], if |g| > 1 then g[1] else 0, if |g| > 2 then g[2] else 0;
    SplitJoined(a / 4, a % 4 * 16 + b / 16, b % 16 * 4 + c / 64, c % 64);
  }

  lemma Div256(q: nat, r: nat)
    requires r < 256
    ensures (q * 256 + r) / 256 == q && (q * 256 + r) % 256 == r
  {
  }

  lemma WordBytes(g: bytes)
    requires 1 <= |g| <= 3
    ensures var w := Word(g);
            && w / 0x1_0000 == g[0]
            && (|g| > 1 ==> w / 0x100 % 256 == g[1])
            && (|g| > 2 ==> w % 256 == g[2])
  {
    var a: nat, b: nat, c: nat := g[0], if |g| > 1 then g[1] else 0, if |g| > 2 then g[2] else 0;
    var w1: nat := a * 256 + b;
    Div256(a, b);
    Div256(w1, c);
    assert Word(g) == w1 * 256 + c;
    assert Word(g) / 0x1_0000 == w1 / 256;
  }

  // The values that stand for a group.
  function QuadValues(g: bytes): (v: seq<sextet>)
    requires 1 <= |g| <= 3
    ensures |v| == |g| + 1
  {
    Split24(Word(g))[..|g| + 1]
  }

  lemma JoinWord(g: bytes)
    requires 1 <= |g| <= 3
    ensures Join24(QuadValues(g)) == Word(g)
  {
    SplitWord(g);
  }

  lemma QuadBytes(g: bytes)
    requires 1 <= |g| <= 3
    ensures GroupBytes(QuadValues(g)) == g
  {
    SplitWord(g);
    WordBytes(g);
    JoinWord(g);
  }

  lemma ReadValue(v: sextet, rest: bytes, slots: nat, values: seq<sextet>)
    requires |values| <= slots < 4
    ensures ReadGroup([Symbol(v)] + rest, slots, values) == ReadGroup(rest, slots + 1, values + [v])
  {
    SymbolKind(v);
    assert ([Symbol(v)] + rest)[1..] == rest;
  }

  lemma ReadPad(rest: bytes, slots: nat, values: seq<sextet>)
    requires |values| <= slots < 4
    ensures ReadGroup([EQ] + rest, slots, values) == ReadGroup(rest, slots + 1, values)
  {
    assert ([EQ] + rest)[1..] == rest;
  }

  lemma ReadQuad(g: bytes, rest: bytes)
    requires 1 <= |g| <= 3
    ensures ReadGroup(Quad(g) + rest, 0, []) == Group(QuadValues(g), rest, false)
  {
    var q, v := Quad(g), Split24(Word(g));
    var s3 := [q[3]] + rest;
    var s2 := [q[2]] + s3;
    var s1 := [q[1]] + s2;
    assert q + rest == [q[0]] + s1;
    assert q[0] == Symbol(v[0]) && q[1] == Symbol(v[1]);
    assert q[2] == if |g| == 1 then EQ else Symbol(v[2]);
    assert q[3] == if |g| == 3 then Symbol(v[3]) else EQ;
    assert QuadValues(g) == v[..|g| + 1];
    hide *;
    var none: seq<sextet> := [];
    assert none + [v[0]] == v[..1] && v[..1] + [v[1]] == v[..2];
    ReadValue(v[0], s1, 0, none);
    ReadValue(v[1], s2, 1, v[..1]);
    if |g| == 1 { ReadTwoPads(v[..2], rest); } else { ReadThird(v, |g|, s3, rest); }
  }

  // The end of a group of one byte, and of one of two or three.
  lemma ReadTwoPads(values: seq<sextet>, rest: bytes)
    requires |values| == 2
    ensures ReadGroup([EQ] + ([EQ] + rest), 2, values) == Group(values, rest, false)
  {
    ReadPad([EQ] + rest, 2, values);
    ReadPad(rest, 3, values);
  }

  lemma ReadThird(v: seq<sextet>, n: nat, s3: bytes, rest: bytes)
    requires |v| == 4 && (n == 2 || n == 3) && s3 == [if n == 3 then Symbol(v[3]) else EQ] + rest
    ensures ReadGroup([Symbol(v[2])] + s3, 2, v[..2]) == Group(v[..n + 1], rest, false)
  {
    hide Symbol;
    assert v[..2] + [v[2]] == v[..3] && v[..3] + [v[3]] == v[..4];
    ReadValue(v[2], s3, 2, v[..2]);
    if n == 2 { ReadPad(rest, 3, v[..3]); } else { ReadValue(v[3], rest, 3, v[..3]); }
  }

  // --- white space ------------------------------------------------------------------

  function Stripped(s: bytes): bytes {
    if s == [] then []
    else if KindOf(s[0]).White? then Stripped(s[1..])
    else [s[0]] + Stripped(s[1..])
  }

  lemma {:induction false} ReadGroupStripped(s: bytes, slots: nat, values: seq<sextet>)
    requires |values| <= slots <= 4
    ensures var g, h := ReadGroup(s, slots, values), ReadGroup(Stripped(s), slots, values);
            g.values == h.values && g.stop == h.stop && (!g.stop ==> h.rest == Stripped(g.rest))
    decreases |s|
  {
    if slots < 4 && s != [] {
      match KindOf(s[0])
      case Bad =>
      case White => ReadGroupStripped(s[1..], slots, values);
      case Pad =>
        ReadGroupStripped(s[1..], slots + 1, values);
        assert Stripped(s)[1..] == Stripped(s[1..]);
      case Value(v) =>
        ReadGroupStripped(s[1..], slots + 1, values + [v]);
        assert Stripped(s)[1..] == Stripped(s[1..]);
    }
  }

  /** White space never matters to the decoder, whatever the text is. */
  lemma {:induction false} WhiteSpaceIgnored(s: bytes)
    ensures Decoded(s) == Decoded(Stripped(s))
    decreases |s|
  {
    var g := ReadGroup(s, 0, []);
    ReadGroupStripped(s, 0, []);
    if g.values != [] && !g.stop && g.rest != [] {
      WhiteSpaceIgnored(g.rest);
      if Stripped(g.rest) == [] { assert Decoded([]) == []; }
    }
  }

  lemma StrippedConcat(a: bytes, b: bytes)
    ensures Stripped(a + b) == Stripped(a) + Stripped(b)
  {
    if a == [] {
      assert a + b == b;
    } else {
      assert (a + b)[1..] == a[1..] + b;
      StrippedConcat(a[1..], b);
    }
  }

  lemma SymbolNotWhite(v: sextet)
    ensures !KindOf(Symbol(v)).White?
  {
    SymbolKind(v);
  }

  lemma {:induction false} NothingToStrip(s: bytes)
    requires forall c | c in s :: !KindOf(c).White?
    ensures Stripped(s) == s
  {
    if s != [] {
      assert s[0] in s;
      NothingToStrip(s[1..]);
    }
  }

  lemma StrippedQuad(g: bytes)
    requires 1 <= |g| <= 3
    ensures Stripped(Quad(g)) == Quad(g)
  {
    var v := Split24(Word(g));
    SymbolNotWhite(v[0]);
    SymbolNotWhite(v[1]);
    SymbolNotWhite(v[2]);
    SymbolNotWhite(v[3]);
    NothingToStrip(Quad(g));
  }

  /** The line feeds are the only difference between the two forms of the encoding. */
  lemma {:induction false} LinesStripped(x: bytes, col: nat, c: nat)
    ensures Stripped(Encoded(x, col, true)) == Encoded(x, c, false)
    decreases |x|
  {
    if x == [] {
      assert Stripped([LF]) == [];
    } else {
      var lf := if FULL < col then [LF] else [];
      var r := Encoded(Drop3(x), if FULL < col then 4 else col + 4, true);
      LinesStripped(Drop3(x), if FULL < col then 4 else col + 4, if FULL < c then 4 else c + 4);
      StrippedQuad(Take3(x));
      StrippedConcat(Quad(Take3(x)), r);
      StrippedConcat(lf, Quad(Take3(x)) + r);
      assert Stripped(lf) == [];
      var q := Quad(Take3(x)) + Encoded(Drop3(x), if FULL < c then 4 else c + 4, false);
      assert [] + q == q;
    }
  }

  // --- round trips ------------------------------------------------------------------

  lemma {:induction false} RoundTrip(x: bytes, col: nat)
    ensures Decoded(Encoded(x, col, false)) == x
    decreases |x|
  {
    if x == [] {
    } else {
      var r := Encoded(Drop3(x), if FULL < col then 4 else col + 4, false);
      assert [] + (Quad(Take3(x)) + r) == Quad(Take3(x)) + r;
      ReadQuad(Take3(x), r);
      QuadBytes(Take3(x));
      RoundTrip(Drop3(x), if FULL < col then 4 else col + 4);
      assert Take3(x) + Drop3(x) == x;
      if r == [] {
        EmptyEncoding(Drop3(x), if FULL < col then 4 else col + 4);
      }
    }
  }

  lemma EmptyEncoding(x: bytes, col: nat)
    requires Encoded(x, col, false) == []
    ensures x == []
  {
  }

  /** Decoding undoes encoding for every byte string, wherever white space stands in the
      text: the text need only be the encoding once white space is taken out. */
  lemma RoundTripAnywhere(x: bytes, s: bytes)
    requires Stripped(s) == Encoded(x, 0, false)
    ensures Decoded(s) == x
  {
    WhiteSpaceIgnored(s);
    RoundTrip(x, 0);
  }

  // --- length -----------------------------------------------------------------------

  function CeilDiv(n: nat, d: nat): nat
    requires d > 0
  {
    (n + d - 1) / d
  }

  lemma {:induction false} LengthFrom(x: bytes, k: nat)
    requires k <= 18
    ensures |Encoded(x, 4 * k, true)| == 4 * CeilDiv(|x|, 3) + CeilDiv(k + CeilDiv(|x|, 3), 18)
    decreases |x|
  {
    if x == [] {
    } else {
      assert CeilDiv(|Drop3(x)|, 3) == CeilDiv(|x|, 3) - 1;
      LengthFrom(Drop3(x), if k == 18 then 1 else k + 1);
    }
  }

  /** The text with line feeds has length 4 * ceil(n / 3) + ceil(n / 54). */
  lemma Length(x: bytes)
    ensures |Encoded(x, 0, true)| == 4 * CeilDiv(|x|, 3) + CeilDiv(|x|, 54)
  {
    LengthFrom(x, 0);
    assert CeilDiv(CeilDiv(|x|, 3), 18) == CeilDiv(|x|, 54);
  }

  // --- the program ------------------------------------------------------------------

  // Reads up to three bytes from position i.
  method TakeGroup(input: bytes, i: nat) returns (g: bytes)
    requires i <= |input|
    ensures g == Take3(input[i..])
  {
    g := [];
    while |g| < 3 && i + |g| < |input|
      invariant i + |g| <= |input| && |g| <= 3 && g == input[i..i + |g|]
    {
      g := g + [input[i + |g|]];
    }
  }

  // Puts the four characters of a group, the highest six bits first.
  method PutGroup(g: bytes) returns (q: bytes)
    requires 1 <= |g| <= 3
    ensures q == Quad(g)
  {
    var v := Split24(Word(g));
    q := [];
    for ox := 0 to |g| + 1
      invariant |q| == ox && forall m | 0 <= m < ox :: q[m] == Symbol(v[m])
    {
      q := q + [Symbol(v[ox])];
    }
    while |q| < 4
      invariant |g| + 1 <= |q| <= 4
      invariant forall m | 0 <= m < |q| :: q[m] == if m <= |g| then Symbol(v[m]) else EQ
    {
      q := q + [EQ];
    }
  }

  // A line feed if the line is full, and then the group.
  method PutLine(g: bytes, col: nat, withNL: bool) returns (text: bytes, ocol: nat)
    requires 1 <= |g| <= 3
    ensures text == (if FULL < col then NewLine(withNL) else []) + Quad(g)
    ensures ocol == if FULL < col then 4 else col + 4
  {
    text, ocol := [], col;
    if FULL < ocol {
      if withNL { text := text + [LF]; }
      ocol := 0;
    }
    var q := PutGroup(g);
    text := text + q;
    ocol := ocol + 4;
  }

  // The input of the stream coder: leng > 0 ends it after leng bytes.
  function Limited(input: bytes, leng: int): bytes {
    if 0 < leng < |input| then input[..leng] else input
  }

  // Reads a group from the stream, byte by byte, up to the limit or the end of the stream.
  method ReadStream(input: bytes, leng: int, first: nat) returns (g: bytes, gotEOF: bool)
    requires first <= |Limited(input, leng)|
    ensures g == Take3(Limited(input, leng)[first..])
    ensures gotEOF ==> first + |g| == |Limited(input, leng)|
  {
    ghost var x := Limited(input, leng);
    var icc := first;
    g, gotEOF := [], false;
    while |g| < 3 && !gotEOF
      invariant first + |g| == icc <= |x| && |g| <= 3 && g == x[first..icc]
      invariant gotEOF ==> icc == |x|
      decreases !gotEOF, |x| - icc
    {
      if (0 < leng && leng < icc + 1) || icc == |input| {
        gotEOF := true;
      } else {
        g := g + [input[icc]];
        icc := icc + 1;
      }
    }
  }

  /** `MIME_to64X`: the stream coder. */
  method To64(input: bytes, leng: int) returns (output: bytes)
    ensures output == Encoded(Limited(input, leng), 0, true)
  {
    var gotEOF, ocol, icc := false, 0, 0;
    output := [];
    ghost var x, whole := Limited(input, leng), Encoded(Limited(input, leng), 0, true);
    assert x[0..] == x;
    while !gotEOF
      invariant icc <= |x| && (gotEOF ==> icc == |x|)
      invariant output + Encoded(x[icc..], ocol, true) == whole
      decreases !gotEOF, |x| - icc
    {
      var g, eof := ReadStream(input, leng, icc);
      if |g| == 0 { break; }
      EncodeStep(x, icc, ocol, true, output, whole);
      var text: bytes;
      text, ocol := PutLine(g, ocol, true);
      output := output + text;
      icc, gotEOF := icc + |g|, eof;
    }
    assert x[icc..] == [];
    if 0 < ocol {
      output := output + [LF];
    }
  }

  /** `strtoB64`: the string coder. */
  method StrToB64(str: bytes, withNL: bool) returns (output: bytes)
    ensures output == Encoded(str, 0, withNL)
  {
    var ocol, icc := 0, 0;
    output := [];
    ghost var whole := Encoded(str, 0, withNL);
    assert str[0..] == str;
    while icc < |str|
      invariant icc <= |str|
      invariant output + Encoded(str[icc..], ocol, withNL) == whole
    {
      var g := TakeGroup(str, icc);
      EncodeStep(str, icc, ocol, withNL, output, whole);
      var text: bytes;
      text, ocol := PutLine(g, ocol, withNL);
      output := output + text;
      icc := icc + |g|;
    }
    assert str[icc..] == [];
    if withNL && 0 < ocol {
      output := output + [LF];
    }
  }

  lemma RegroupStep(a: bytes, b: bytes, c: bytes, d: bytes)
    ensures (a + (b + c)) + d == a + (b + (c + d))
  {
  }

  lemma EncodeStep(x: bytes, i: nat, col: nat, withNL: bool, done: bytes, whole: bytes)
    requires i < |x| && done + Encoded(x[i..], col, withNL) == whole
    ensures i + |Take3(x[i..])| <= |x|
    ensures (done + ((if FULL < col then NewLine(withNL) else []) + Quad(Take3(x[i..]))))
              + Encoded(x[i + |Take3(x[i..])|..], if FULL < col then 4 else col + 4, withNL) == whole
  {
    var r := x[i..];
    var n := |Take3(r)|;
    assert Drop3(r) == x[i + n..];
    var lf, q := if FULL < col then NewLine(withNL) else [], Quad(Take3(r));
    var e := Encoded(x[i + n..], if FULL < col then 4 else col + 4, withNL);
    RegroupStep(done, lf, q, e);
  }

  /** The decoder with its table of byte kinds, made at first use. */
  class Decoder {
    var b64ix: array?<Kind>

    ghost predicate Ready() reads this, b64ix {
      && b64ix != null && b64ix.Length == 256
      && forall c: byte :: b64ix[c] == KindOf(c)
    }

    constructor ()
      ensures b64ix == null
    {
      b64ix := null;
    }

    method Init64()
      modifies this
      ensures Ready() && fresh(b64ix)
    {
      b64ix := new Kind[256](_ => Bad);
      b64ix[SPACE], b64ix[TAB], b64ix[CR], b64ix[LF] := White, White, White, White;
      b64ix[EQ] := Pad;
      for v := 0 to 64
        invariant b64ix != null && b64ix.Length == 256 && fresh(b64ix)
        invariant forall c: byte ::
          b64ix[c] == if KindOf(c).Value? && KindOf(c).v >= v then Bad else KindOf(c)
      {
        SymbolKind(v);
        b64ix[Symbol(v)] := Value(v);
      }
    }

    // The values and the rest of one group, read from position i.
    method GetGroup(text: bytes, i: nat) returns (g: Group, icc: nat)
      requires Ready() && i <= |text|
      ensures g == ReadGroup(text[i..], 0, [])
      ensures i <= icc <= |text| && g.rest == text[icc..]
    {
      var slots, values := 0, [];
      icc := i;
      while slots < 4
        invariant slots <= 4 && i <= icc <= |text| && |values| <= slots
        invariant ReadGroup(text[icc..], slots, values) == ReadGroup(text[i..], 0, [])
        decreases 4 - slots + |text| - icc
      {
        if |text| <= icc {
          return Group(values, [], true), icc;
        }
        ghost var s := text[icc..];
        var kind := b64ix[text[icc]];
        icc := icc + 1;
        assert s[1..] == text[icc..];
        match kind {
          case Bad => return Group(values, text[icc..], true), icc;
          case White =>
          case Pad => slots := slots + 1;
          case Value(v) =>
            values := values + [v];
            slots := slots + 1;
        }
      }
      g := Group(values, text[icc..], false);
    }

    /** `MIME_from64` and, for 7-bit text, `B64tostr`. */
    method From64(text: bytes) returns (output: bytes)
      requires b64ix == null || Ready()
      modifies this
      ensures Ready() && output == Decoded(text)
    {
      if b64ix == null { Init64(); }
      var icc, stop := 0, false;
      output := [];
      ghost var whole := Decoded(text);
      assert text[0..] == text;
      while !stop
        invariant icc <= |text| && Ready()
        invariant output + (if stop then [] else Decoded(text[icc..])) == whole
        decreases !stop, |text| - icc
      {
        var g, next := GetGroup(text, icc);
        if |g.values| == 0 {
          return;
        }
        DecodeStep(output, text[icc..], g, whole);
        output := output + GroupBytes(g.values);
        icc, stop := next, g.stop;
      }
    }
  }

  lemma DecodeStep(done: bytes, s: bytes, g: Group, whole: bytes)
    requires done + Decoded(s) == whole && g == ReadGroup(s, 0, []) && g.values != []
    ensures (done + GroupBytes(g.values)) + (if g.stop then [] else Decoded(g.rest)) == whole
    ensures g.stop || |g.rest| < |s|
  {
    var b, d := GroupBytes(g.values), if g.stop then [] else Decoded(g.rest);
    assert Decoded(s) == b + d;
    assert (done + b) + d == done + (b + d);
  }
}
