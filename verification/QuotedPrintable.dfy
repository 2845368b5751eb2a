/** The quoted-printable coder: `init_QP`, `MIME_setQP`, `MIME_toQP`, `MIME_fromQP` of
    delegate/mimekit/mimecodes.cpp and the string wrappers `str_toqp`, `str_fromqp` of
    delegate/mimekit/str_codes.cpp.  The format is section 6.7 of RFC 2045. */
module QuotedPrintable {
  import opened Bytes

  // Which bytes are always escaped.
  datatype Escapes = Escapes(mark: seq<bool>)

  type Table = t: Escapes | |t.mark| == 256 witness Escapes(seq(256, i => true))

  predicate Escaped(t: Table, c: byte) { t.mark[c] }

  function DefaultTable(): Table {
    Escapes(seq(256, i requires 0 <= i < 256 =>
      i >= 0x80 || (IsCntrl(i) && !IsSpace(i)) || i == EQ))
  }

  const SOFT: bytes := [EQ, LF]

  const FULL: nat := 72

  // --- the encoded text -------------------------------------------------------------

  // The text of one byte that is put at column col.
  function Token(t: Table, c: byte, col: nat): (r: bytes)
    ensures |r| == 1 || |r| == 3
  {
    if Escaped(t, c) || (col == 0 && c == DOT)
    then [EQ, HexDigit(c / 16), HexDigit(c % 16)]
    else [c]
  }

  // The column after that token.
  function ColumnAfter(t: Table, c: byte, col: nat): nat {
    if Escaped(t, c) || (col == 0 && c == DOT) then col + 3
    else if c == LF then 0
    else col + 1
  }

  // The soft line break after the token, if it fills the line, and the column after both.
  function Break(t: Table, c: byte, col: nat): (r: bytes)
    ensures r == [] || r == SOFT
  {
    if ColumnAfter(t, c, col) > FULL then SOFT else []
  }

  function NextColumn(t: Table, c: byte, col: nat): nat {
    if ColumnAfter(t, c, col) > FULL then 0 else ColumnAfter(t, c, col)
  }

  /** The encoding of x put from column col on. */
  function Encoded(t: Table, x: bytes, col: nat): bytes {
    if x == [] then (if col > 0 then SOFT else [])
    else Token(t, x[0], col) + (Break(t, x[0], col) + Encoded(t, x[1..], NextColumn(t, x[0], col)))
  }

  // What a decoder makes of the first bytes of s, and how many they are.
  datatype Unit = Unit(text: bytes, used: nat)

  function FirstUnit(s: bytes): (u: Unit)
    requires s != []
    ensures 1 <= u.used <= |s|
  {
    if s[0] != EQ then Unit([s[0]], 1)
    else if |s| == 1 then Unit([], 1)
    else if s[1] == LF then Unit([], 2)
    else if s[1] == CR then
      if |s| == 2 then Unit([], 2)
      else if s[2] == LF then Unit([], 3)
      else Unit([EQ, CR], 2)
    else if !IsXDigit(s[1]) then Unit([EQ, s[1]], 2)
    else if |s| == 2 then Unit([], 2)
    else if !IsXDigit(s[2]) then Unit([EQ, s[1], s[2]], 3)
    else Unit([HexValue(s[1]) * 16 + HexValue(s[2])], 3)
  }

  // The text a decoder makes of an encoding.
  function Decoded(s: bytes): bytes {
    if s == [] then [] else FirstUnit(s).text + Decoded(s[FirstUnit(s).used..])
  }

  // --- the characters of the text ---------------------------------------------------

  const HEXD := "0123456789ABCDEF"

  lemma HexIs(v: nat)
    requires v < 16
    ensures |HEXD| == 16 && HexDigit(v) == HEXD[v] as int
  {
  }

  /** A byte is put as it is, or as "=" and two upper-case digits: bytes of the table, and "."
      at the beginning of a line. */
  lemma TokenIs(t: Table, c: byte, col: nat)
    ensures |HEXD| == 16
    ensures Token(t, c, col) ==
            if t.mark[c] || (col == 0 && c == 46) then [61, HEXD[c / 16] as int, HEXD[c % 16] as int] else [c]
  {
    HexIs(c / 16);
    HexIs(c % 16);
    hide HEXD;
  }

  /** The default table: 8-bit bytes, control characters that are no white space, and "=". */
  lemma DefaultIs(c: byte)
    ensures DefaultTable().mark[c] <==> c >= 128 || c < 9 || 13 < c < 32 || c == 127 || c == 61
  {
  }

  /** One byte after another: a line feed begins a line, and "=" with a line feed is put where a
      line has more than 72 characters, and at the end of a line that has begun. */
  lemma EncodedIs(t: Table, x: bytes, col: nat)
    ensures x == [] ==> Encoded(t, x, col) == if col > 0 then [61, 10] else []
    ensures x != [] ==>
              var k := Token(t, x[0], col);
              var n := if k == [10] then 0 else col + |k|;
              Encoded(t, x, col) ==
                if 72 < n then k + [61, 10] + Encoded(t, x[1..], 0) else k + Encoded(t, x[1..], n)
  {
    if x != [] {
      var r := Encoded(t, x[1..], NextColumn(t, x[0], col));
      var k := Token(t, x[0], col);
      assert k + ([] + r) == k + r && k + (SOFT + r) == k + SOFT + r;
    }
  }

  /** 0xE9 becomes "=E9", and both "=E9" and "=e9" become 0xE9 again. */
  lemma AccentedE()
    ensures Encoded(DefaultTable(), [0xE9], 0) == [61, 69, 57, 61, 10]
    ensures Decoded([61, 69, 57]) == [0xE9] && Decoded([61, 101, 57]) == [0xE9]
  {
    DefaultIs(0xE9);
    TokenIs(DefaultTable(), 0xE9, 0);
    EncodedIs(DefaultTable(), [0xE9], 0);
    EncodedIs(DefaultTable(), [], 3);
    DecodeFirst([61, 69, 57], Unit([0xE9], 3), []);
    DecodeFirst([61, 101, 57], Unit([0xE9], 3), []);
  }

  // --- round trips ------------------------------------------------------------------

  lemma DecodeFirst(s: bytes, u: Unit, rest: bytes)
    requires s != [] && FirstUnit(s) == u && s[u.used..] == rest
    ensures Decoded(s) == u.text + Decoded(rest)
  {
  }

  /** Text that no encoder puts: what is no escape stands for itself, "=" at a line end for
      nothing, and so does "=" at the end of the text. */
  lemma Malformed(c: byte, h: byte, rest: bytes)
    requires IsXDigit(h) && !IsXDigit(c)
    ensures c != 61 ==> Decoded([c] + rest) == [c] + Decoded(rest)
    ensures c != 10 && c != 13 ==> Decoded([61, c] + rest) == [61, c] + Decoded(rest)
    ensures Decoded([61, h, c] + rest) == [61, h, c] + Decoded(rest)
    ensures Decoded([61, 10] + rest) == Decoded(rest) && Decoded([61, 13, 10] + rest) == Decoded(rest)
    ensures Decoded([61]) == Decoded([61, h]) == []
  {
    if c != 61 { DecodeFirst([c] + rest, Unit([c], 1), rest); }
    if c != 10 && c != 13 { DecodeFirst([61, c] + rest, Unit([61, c], 2), rest); }
    DecodeFirst([61, h, c] + rest, Unit([61, h, c], 3), rest);
    DecodeFirst([61, 10] + rest, Unit([], 2), rest);
    DecodeFirst([61, 13, 10] + rest, Unit([], 3), rest);
    DecodeFirst([61], Unit([], 1), []);
    DecodeFirst([61, h], Unit([], 2), []);
    assert [] + Decoded(rest) == Decoded(rest);
  }

  lemma DecodeToken(t: Table, c: byte, col: nat, rest: bytes)
    requires Escaped(t, EQ)
    ensures Decoded(Token(t, c, col) + rest) == [c] + Decoded(rest)
  {
    var tok := Token(t, c, col);
    DecodeFirst(tok + rest, Unit([c], |tok|), rest);
  }

  lemma DecodeSoft(rest: bytes)
    ensures Decoded(SOFT + rest) == Decoded(rest)
  {
    DecodeFirst(SOFT + rest, Unit([], 2), rest);
  }

  lemma DecodeBreak(b: bytes, rest: bytes)
    requires b == [] || b == SOFT
    ensures Decoded(b + rest) == Decoded(rest)
  {
    DecodeSoft(rest);
    assert [] + rest == rest;
  }

  /** Decoding undoes encoding, for every byte string, every table that escapes "=", and
      from every column. */
  lemma {:induction false} RoundTrip(t: Table, x: bytes, col: nat)
    requires Escaped(t, EQ)
    ensures Decoded(Encoded(t, x, col)) == x
    decreases |x|
  {
    if x == [] {
      assert SOFT + [] == SOFT;
      DecodeSoft([]);
    } else {
      var b, r := Break(t, x[0], col), Encoded(t, x[1..], NextColumn(t, x[0], col));
      RoundTrip(t, x[1..], NextColumn(t, x[0], col));
      DecodeBreak(b, r);
      DecodeToken(t, x[0], col, b + r);
    }
  }

  // The encoding without the soft line break that may end it.
  function Core(t: Table, x: bytes, col: nat): bytes {
    if x == [] then []
    else if |x| == 1 then Token(t, x[0], col)
    else Token(t, x[0], col) + (Break(t, x[0], col) + Core(t, x[1..], NextColumn(t, x[0], col)))
  }

  predicate EndsSoft(s: bytes) {
    |s| > 2 && s[|s| - 2..] == SOFT
  }

  // e is c with at most one soft line break after it; c ends neither in "=" nor in one.
  predicate CoreOf(c: bytes, e: bytes) {
    && c != [] && c[|c| - 1] != EQ && !EndsSoft(c) && c != SOFT
    && (e == c || e == c + SOFT)
  }

  lemma Prepend(a: bytes, c: bytes, e: bytes)
    requires a != [] && a[|a| - 1] != EQ && CoreOf(c, e)
    ensures CoreOf(a + c, a + e)
  {
    var s := a + c;
    assert s[|s| - 1] == c[|c| - 1];
    if |c| == 1 {
      assert s[|s| - 2] == a[|a| - 1];
    } else {
      assert s[|s| - 2..] == c[|c| - 2..];
    }
    assert a + (c + SOFT) == a + c + SOFT;
  }

  lemma TokenEnd(t: Table, c: byte, col: nat)
    requires Escaped(t, EQ)
    ensures var tok := Token(t, c, col); CoreOf(tok, tok)
  {
    var tok := Token(t, c, col);
    if |tok| == 3 {
      assert tok[1..] != SOFT;
    }
  }

  lemma {:induction false} CoreAndBreak(t: Table, x: bytes, col: nat)
    requires Escaped(t, EQ) && x != []
    ensures CoreOf(Core(t, x, col), Encoded(t, x, col))
    decreases |x|
  {
    var tok, b := Token(t, x[0], col), Break(t, x[0], col);
    TokenEnd(t, x[0], col);
    if |x| == 1 {
      assert tok + [] == tok && [] + SOFT == SOFT && SOFT + [] == SOFT;
    } else {
      var c := Core(t, x[1..], NextColumn(t, x[0], col));
      var e := Encoded(t, x[1..], NextColumn(t, x[0], col));
      CoreAndBreak(t, x[1..], NextColumn(t, x[0], col));
      if b == SOFT {
        Prepend(SOFT, c, e);
      } else {
        assert [] + c == c && [] + e == e;
      }
      Prepend(tok, b + c, b + e);
    }
  }

  // What the decoder makes of the first m bytes of a token, a break and some text.
  lemma PrefixDecode(t: Table, c: byte, col: nat, soft: bytes, r: bytes, m: nat)
    requires Escaped(t, EQ) && (soft == [] || soft == SOFT)
    requires m <= |Token(t, c, col) + (soft + r)|
    ensures var n := |Token(t, c, col)|;
            Decoded((Token(t, c, col) + (soft + r))[..m]) ==
              if m < n then [] else [c] + Decoded(r[..if m < n + |soft| then 0 else m - n - |soft|])
  {
    var tok := Token(t, c, col);
    if m < |tok| {
      assert (tok + (soft + r))[..m] == tok[..m];
      PartialToken(t, c, col, m);
    } else {
      var k := m - |tok|;
      assert (tok + (soft + r))[..m] == tok + (soft + r)[..k];
      DecodeToken(t, c, col, (soft + r)[..k]);
      if soft == SOFT {
        SoftPrefix(r, k);
      } else {
        assert (soft + r)[..k] == r[..k];
      }
    }
  }

  /** How many bytes of text the first m bytes of an encoding stand for. */
  function Count(t: Table, x: bytes, col: nat, m: nat): (n: nat)
    ensures n <= |x|
  {
    if x == [] || m < |Token(t, x[0], col)| then 0
    else
      var k := m - |Token(t, x[0], col)| - |Break(t, x[0], col)|;
      1 + Count(t, x[1..], NextColumn(t, x[0], col), if k < 0 then 0 else k)
  }

  /** A decoder makes a prefix of the text of every prefix of an encoding. */
  lemma {:induction false} PrefixText(t: Table, x: bytes, col: nat, m: nat)
    requires Escaped(t, EQ) && m <= |Encoded(t, x, col)|
    ensures Decoded(Encoded(t, x, col)[..m]) == x[..Count(t, x, col, m)]
    decreases |x|
  {
    hide Token, Break, NextColumn, FirstUnit, Escaped;
    if x == [] {
      NoText(t, col, m);
    } else {
      var tok, soft := Token(t, x[0], col), Break(t, x[0], col);
      var col' := NextColumn(t, x[0], col);
      PrefixDecode(t, x[0], col, soft, Encoded(t, x[1..], col'), m);
      if m >= |tok| {
        var k := if m < |tok| + |soft| then 0 else m - |tok| - |soft|;
        PrefixText(t, x[1..], col', k);
        HeadTake(x, Count(t, x[1..], col', k));
      }
    }
  }

  lemma NoText(t: Table, col: nat, m: nat)
    requires m <= |Encoded(t, [], col)|
    ensures Decoded(Encoded(t, [], col)[..m]) == []
  {
    var none: bytes := [];
    SoftPrefix(none, m);
    assert none[..0] == none;
    assert SOFT + [] == SOFT;
  }

  lemma HeadTake(x: bytes, n: nat)
    requires n < |x|
    ensures [x[0]] + x[1..][..n] == x[..n + 1]
  {
  }

  // All of the text stands in the core, and only in all of the core.
  lemma {:induction false} CountAll(t: Table, x: bytes, col: nat, m: nat)
    ensures Count(t, x, col, m) == |x| <==> |Core(t, x, col)| <= m
    decreases |x|
  {
    if x != [] {
      var k := m - |Token(t, x[0], col)| - |Break(t, x[0], col)|;
      CountAll(t, x[1..], NextColumn(t, x[0], col), if k < 0 then 0 else k);
    }
  }

  lemma PartialToken(t: Table, c: byte, col: nat, m: nat)
    requires m < |Token(t, c, col)|
    ensures Decoded(Token(t, c, col)[..m]) == []
  {
    var p := Token(t, c, col)[..m];
    if m == 1 {
      assert p == [EQ];
    } else if m == 2 {
      assert p[0] == EQ && IsXDigit(p[1]);
    }
  }

  lemma SoftPrefix(r: bytes, m: nat)
    requires m <= |r| + 2
    ensures Decoded((SOFT + r)[..m]) == if m < 2 then [] else Decoded(r[..m - 2])
  {
    if m >= 2 {
      assert (SOFT + r)[..m] == SOFT + r[..m - 2];
      DecodeSoft(r[..m - 2]);
    } else if m == 1 {
      assert (SOFT + r)[..1] == [EQ];
    }
  }

  // --- the string wrappers ----------------------------------------------------------

  /** `str_callfunc` puts the text into a buffer of osize bytes, cut so that a NUL fits. */
  function Cut(s: bytes, osize: int): bytes {
    if osize <= |s| then s[..if osize < 1 then 0 else osize - 1] else s
  }

  function StringEncoded(t: Table, x: bytes, osize: int): bytes {
    var s := Cut(Encoded(t, x, 0), osize);
    if EndsSoft(s) then s[..|s| - 2] else s
  }

  function StringDecoded(s: bytes, dsize: int): bytes { Cut(Decoded(s), dsize) }

  /** Through the string wrappers decoding undoes encoding exactly when the encoder's buffer has
      room for the encoding without its final soft line break, and a NUL, and the decoder's
      buffer has room for the bytes and a NUL. */
  lemma StringRoundTrip(t: Table, x: bytes, osize: int, dsize: int)
    requires Escaped(t, EQ)
    ensures StringDecoded(StringEncoded(t, x, osize), dsize) == x <==>
              x == [] || (osize > |Core(t, x, 0)| && dsize > |x|)
  {
    hide Decoded, StringEncoded, Core;
    StringPrefix(t, x, osize);
  }

  // What has been kept decodes to a prefix of the bytes.
  lemma StringPrefix(t: Table, x: bytes, osize: int)
    requires Escaped(t, EQ)
    ensures Decoded(StringEncoded(t, x, osize)) <= x
    ensures Decoded(StringEncoded(t, x, osize)) == x <==> x == [] || osize > |Core(t, x, 0)|
  {
    var e, c := Encoded(t, x, 0), Core(t, x, 0);
    var s, r := Cut(e, osize), StringEncoded(t, x, osize);
    assert r == e[..|r|];
    PrefixText(t, x, 0, |r|);
    CountAll(t, x, 0, |r|);
    if x != [] {
      CoreAndBreak(t, x, 0);
      assert x[..|x|] == x;
      CutSoft(c, e, |s|);
    }
  }

  // Dropping a soft break from the end of a prefix never cuts into the core.
  lemma CutSoft(c: bytes, e: bytes, m: nat)
    requires CoreOf(c, e) && m <= |e|
    ensures |c| <= m && EndsSoft(e[..m]) ==> |c| <= m - 2
  {
    var s := e[..m];
    assert m >= |c| ==> e[..|c|] == c;
    assert EndsSoft(s) ==> s[|s| - 2..][1] == LF && e[m - 1] == LF;
    assert m == |c| + 1 ==> e[m - 1] == EQ;
  }

  // --- what the encoding looks like -------------------------------------------------

  /** Read from column col on, s has lines of at most 76 bytes, none of them begins with ".",
      and no byte is 8-bit. */
  predicate LinesOk(s: bytes, col: nat) {
    s == []
    || (if s[0] == LF then LinesOk(s[1..], 0)
        else col < 76 && (col == 0 ==> s[0] != DOT) && s[0] < 128 && LinesOk(s[1..], col + 1))
  }

  predicate SevenBit(t: Table) {
    forall c: byte | c >= 128 :: Escaped(t, c)
  }

  lemma LineLF(s: bytes, rest: bytes, col: nat)
    requires s == [LF] && LinesOk(rest, 0)
    ensures LinesOk(s + rest, col)
  {
    assert (s + rest)[1..] == rest;
  }

  lemma LineByte(c: byte, rest: bytes, col: nat)
    requires c != LF && c < 128 && col < 76 && (col == 0 ==> c != DOT) && LinesOk(rest, col + 1)
    ensures LinesOk([c] + rest, col)
  {
    assert ([c] + rest)[1..] == rest;
  }

  lemma LineSoft(rest: bytes, col: nat)
    requires col < 76 && LinesOk(rest, 0)
    ensures LinesOk(SOFT + rest, col)
  {
    LineLF([LF], rest, col + 1);
    LineByte(EQ, [LF] + rest, col);
    assert [EQ] + ([LF] + rest) == SOFT + rest;
  }

  lemma LineToken(t: Table, c: byte, rest: bytes, col: nat)
    requires SevenBit(t) && col <= FULL && LinesOk(rest, ColumnAfter(t, c, col))
    ensures LinesOk(Token(t, c, col) + rest, col)
  {
    if Escaped(t, c) || (col == 0 && c == DOT) {
      var h, l := HexDigit(c / 16), HexDigit(c % 16);
      LineByte(l, rest, col + 2);
      LineByte(h, [l] + rest, col + 1);
      LineByte(EQ, [h] + ([l] + rest), col);
      assert [EQ] + ([h] + ([l] + rest)) == [EQ, h, l] + rest;
    } else if c == LF {
      LineLF([c], rest, col);
    } else {
      LineByte(c, rest, col);
    }
  }

  lemma {:induction false} LinesOfEncoded(t: Table, x: bytes, col: nat)
    requires SevenBit(t) && col <= FULL
    ensures LinesOk(Encoded(t, x, col), col)
    decreases |x|
  {
    if x == [] {
      LineSoft([], col);
      assert SOFT + [] == SOFT;
    } else {
      var next, r := ColumnAfter(t, x[0], col), Encoded(t, x[1..], NextColumn(t, x[0], col));
      LinesOfEncoded(t, x[1..], NextColumn(t, x[0], col));
      if next > FULL {
        LineSoft(r, next);
      } else {
        assert [] + r == r;
      }
      LineToken(t, x[0], Break(t, x[0], col) + r, col);
    }
  }

  // n bytes without a line feed fit in the rest of the line.
  lemma {:induction false} ShortLine(s: bytes, col: nat, n: nat)
    requires LinesOk(s, col) && n <= |s| && LF !in s[..n] && col <= 76
    ensures col + n <= 76
  {
    if n > 0 {
      assert s[..n][0] == s[0] && s[1..][..n - 1] == s[..n][1..];
      ShortLine(s[1..], col + 1, n - 1);
    }
  }

  lemma {:induction false} LinesOkFrom(s: bytes, col: nat, i: nat) returns (c: nat)
    requires LinesOk(s, col) && i <= |s| && col <= 76
    ensures LinesOk(s[i..], c) && c <= 76
    ensures i == 0 ==> c == col
    ensures i > 0 && s[i - 1] == LF ==> c == 0
  {
    if i == 0 {
      c := col;
      assert s[0..] == s;
    } else {
      c := LinesOkFrom(s[1..], if s[0] == LF then 0 else col + 1, i - 1);
      assert s[1..][i - 1..] == s[i..];
    }
  }

  /** Every line of an encoding has at most 76 bytes, none begins with ".", and no byte is
      8-bit - for every text and every table that escapes the 8-bit bytes. */
  lemma Layout(t: Table, x: bytes)
    requires SevenBit(t)
    ensures var e := Encoded(t, x, 0);
            && (forall i | 0 <= i < |e| :: e[i] < 128)
            && (forall i | 0 <= i < |e| && (i == 0 || e[i - 1] == LF) :: e[i] != DOT)
            && (forall i, j | 0 <= i <= j <= |e| && LF !in e[i..j] :: j - i <= 76)
  {
    var e := Encoded(t, x, 0);
    LinesOfEncoded(t, x, 0);
    forall i | 0 <= i < |e|
      ensures e[i] < 128 && (i == 0 || e[i - 1] == LF ==> e[i] != DOT)
    {
      var c := LinesOkFrom(e, 0, i);
    }
    forall i, j | 0 <= i <= j <= |e| && LF !in e[i..j] ensures j - i <= 76 {
      var c := LinesOkFrom(e, 0, i);
      assert e[i..][..j - i] == e[i..j];
      ShortLine(e[i..], c, j - i);
    }
  }

  // --- the program ------------------------------------------------------------------

  // The coder with its escape table, made at first use.
  class Coder {
    var qpix: array?<bool>

    ghost predicate Ready() reads this, qpix { qpix != null && qpix.Length == 256 }

    ghost function Table0(): (t: Table)
      reads this, qpix
    {
      if Ready() then Escapes(qpix[..]) else DefaultTable()
    }

    constructor ()
      ensures qpix == null
    {
      qpix := null;
    }

    method InitQP()
      modifies this
      ensures Ready() && fresh(qpix) && Table0() == DefaultTable()
    {
      qpix := new bool[256];
      for c := 0 to 256
        invariant qpix != null && qpix.Length == 256 && fresh(qpix)
        invariant forall m | 0 <= m < c :: qpix[m] == DefaultTable().mark[m]
      {
        qpix[c] := c >= 0x80 || (IsCntrl(c) && !IsSpace(c)) || c == EQ;
      }
    }

    /** Escapes the given 7-bit bytes as well. */
    method SetQP(chars: bytes)
      requires forall c | c in chars :: c < 128
      modifies this
      ensures Ready() && fresh(qpix)
      ensures forall c: byte :: Escaped(Table0(), c) <==> Escaped(DefaultTable(), c) || c in chars
    {
      InitQP();
      for i := 0 to |chars|
        invariant qpix != null && qpix.Length == 256 && fresh(qpix)
        invariant forall c: byte :: qpix[c] <==> Escaped(DefaultTable(), c) || c in chars[..i]
      {
        qpix[chars[i]] := true;
        assert chars[..i + 1] == chars[..i] + [chars[i]];
      }
    }

    method ToQP(input: bytes) returns (output: bytes)
      requires qpix == null || Ready()
      modifies this
      ensures Ready() && Table0() == old(Table0())
      ensures output == Encoded(Table0(), input, 0)
    {
      if qpix == null { InitQP(); }
      ghost var t := Table0();
      var ocol: nat := 0;
      output := [];
      ghost var whole := Encoded(t, input, 0);
      assert input[0..] == input;
      hide Encoded, HexDigit;
      for i := 0 to |input|
        invariant Ready() && Table0() == t && ocol <= FULL
        invariant output + Encoded(t, input[i..], ocol) == whole
      {
        var ich := input[i];
        ghost var done, col := output, ocol;
        if qpix[ich] || (ocol == 0 && ich == DOT) {
          output := output + [EQ, HexDigit(ich / 16), HexDigit(ich % 16)];
          ocol := ocol + 3;
        } else if ich == LF {
          output := output + [ich];
          ocol := 0;
        } else {
          output := output + [ich];
          ocol := ocol + 1;
        }
        assert output == done + Token(t, ich, col) && ocol == ColumnAfter(t, ich, col);
        if FULL < ocol {
          output := output + [EQ, LF];
          ocol := 0;
        }
        TokenBreak(t, ich, col, done, output);
        EncodeStep(t, input, i, col, done, whole);
      }
      assert input[|input|..] == [];
      EncodedEnd(t, ocol);
      if 0 < ocol {
        output := output + [EQ, LF];
      }
    }

    method FromQP(input: bytes) returns (output: bytes)
      ensures output == Decoded(input)
    {
      var i := 0;
      output := [];
      ghost var whole := Decoded(input);
      assert input[0..] == input;
      while i < |input|
        invariant i <= |input|
        invariant output + Decoded(input[i..]) == whole
      {
        var u := GetUnit(input, i);
        NextUnit(input, i, output, u, whole);
        output := output + u.text;
        i := i + u.used;
      }
    }

    // One round of the loop: reads one byte or one escape.  At the end of the input an
    // unfinished escape is dropped.
    method GetUnit(input: bytes, i: nat) returns (u: Unit)
      requires i < |input|
      ensures u == FirstUnit(input[i..])
    {
      var ch1 := input[i];
      if ch1 != EQ { return Unit([ch1], 1); }
      if i + 1 == |input| { return Unit([], 1); }
      ch1 := input[i + 1];
      var n := 2;
      if ch1 == CR {
        if i + 2 == |input| { return Unit([], 2); }
        if input[i + 2] == LF {
          ch1 := LF;
          n := 3;
        }
      }
      if ch1 == LF { return Unit([], n); }
      if !IsXDigit(ch1) { return Unit([EQ, ch1], 2); }
      if i + 2 == |input| { return Unit([], 2); }
      var ch2 := input[i + 2];
      if !IsXDigit(ch2) { return Unit([EQ, ch1, ch2], 3); }
      u := Unit([HexValue(ch1) * 16 + HexValue(ch2)], 3);
    }

    /** `str_toqp` into a buffer of osize bytes. */
    method StrToQP(input: bytes, osize: int) returns (output: bytes)
      requires qpix == null || Ready()
      modifies this
      ensures Ready() && Table0() == old(Table0())
      ensures output == StringEncoded(Table0(), input, osize)
    {
      output := ToQP(input);
      var len := |output|;
      if osize <= len {
        len := if osize < 1 then 0 else osize - 1;
      }
      output := output[..len];
      assert output == Cut(Encoded(Table0(), input, 0), osize);
      assert 2 < len ==> (output[len - 2..] == SOFT <==> output[len - 2] == EQ && output[len - 1] == LF);
      if 2 < len && output[len - 2] == EQ && output[len - 1] == LF {
        output := output[..len - 2];
      }
    }

    /** `str_fromqp` */
    method StrFromQP(input: bytes, osize: int) returns (output: bytes)
      ensures output == StringDecoded(input, osize)
    {
      output := FromQP(input);
      if osize <= |output| {
        output := output[..if osize < 1 then 0 else osize - 1];
      }
    }
  }

  lemma NextUnit(s: bytes, i: nat, done: bytes, u: Unit, whole: bytes)
    requires i < |s| && u == FirstUnit(s[i..])
    requires done + Decoded(s[i..]) == whole
    ensures i + u.used <= |s| && (done + u.text) + Decoded(s[i + u.used..]) == whole
  {
    var r := s[i..];
    assert r[u.used..] == s[i + u.used..];
    DecodeFirst(r, u, s[i + u.used..]);
    assert (done + u.text) + Decoded(s[i + u.used..]) == done + (u.text + Decoded(s[i + u.used..]));
  }

  lemma EncodedEnd(t: Table, col: nat)
    ensures Encoded(t, [], col) == if col > 0 then SOFT else []
  {
  }

  lemma TokenBreak(t: Table, c: byte, col: nat, done: bytes, output: bytes)
    requires output == done + Token(t, c, col) + (if FULL < ColumnAfter(t, c, col) then [EQ, LF] else [])
    ensures output == done + (Token(t, c, col) + Break(t, c, col))
  {
    hide Token, ColumnAfter;
  }

  lemma EncodeStep(t: Table, s: bytes, i: nat, col: nat, done: bytes, whole: bytes)
    requires i < |s| && done + Encoded(t, s[i..], col) == whole
    ensures (done + (Token(t, s[i], col) + Break(t, s[i], col)))
              + Encoded(t, s[i + 1..], NextColumn(t, s[i], col)) == whole
  {
    var r := s[i..];
    var tok, soft, rest := Token(t, s[i], col), Break(t, s[i], col), Encoded(t, s[i + 1..], NextColumn(t, s[i], col));
    assert r[0] == s[i] && r[1..] == s[i + 1..];
    assert Encoded(t, r, col) == tok + (soft + rest);
    assert (done + (tok + soft)) + rest == done + (tok + (soft + rest));
  }
}
