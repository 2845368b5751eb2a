/** Messages that the relay does not copy exactly, one for each way in which it fails: a piece of
    a line is taken for the dot line in a header, in a part behind a header that filled its buffer,
    in a part, and in an epilogue; a line end is supplied to a part, in front of the dot line and
    behind a boundary. */
module MimeCut {
  import opened Bytes
  import opened MimeText
  import opened MimeBoundaries
  import opened MimeRelay
  import opened MimeThru
  import opened Sequences

  // --- lines of plain bytes --------------------------------------------------------------------

  // "e" to "z".
  predicate IsLetter(b: byte) { 101 <= b <= 122 }

  type Letter = b: byte | 101 <= b <= 122 witness 101

  function Times(n: nat, b: byte): (t: bytes)
    ensures |t| == n && forall i | 0 <= i < n :: t[i] == b
  {
    if n == 0 then [] else [b] + Times(n - 1, b)
  }

  lemma {:induction false} LineOf(a: bytes, more: bytes)
    requires LF !in a
    ensures LineLen(a + [LF] + more) == |a| + 1
  {
    var s := a + [LF] + more;
    if a != [] {
      assert s[1..] == a[1..] + [LF] + more;
      LineOf(a[1..], more);
    }
  }

  // A line in front of a message; the dot line ends it.
  lemma LineInFront(a: bytes, crlf: bool, more: bytes)
    requires Plain(a) && Uniform(more, crlf)
    ensures var l := a + Eol(crlf);
            Uniform(l + more, crlf) && DotEnd(l + more, true) == |l| + (if a == [DOT] then 0 else DotEnd(more, true))
  {
    hide Uniform, DotEnd, LineLen, IsEOR, Plain, WholeLine;
    var l := a + Eol(crlf);
    FirstOf(a, crlf, more);
    assert (l + more)[..|l|] == l && (l + more)[|l|..] == more;
    PlainLine(a, crlf);
    UniformBy(l + more, crlf);
    DotFirst(l + more, true);
    DotLine(a, crlf);
  }

  lemma FirstOf(a: bytes, crlf: bool, more: bytes)
    requires Plain(a)
    ensures LineLen(a + Eol(crlf) + more) == |a + Eol(crlf)|
  {
    hide LineLen;
    var e := Eol(crlf);
    var b := a + e[..|e| - 1];
    assert a + e == b + [LF] && a + e + more == b + [LF] + more;
    assert forall x | x in b :: x in a || x == CR;
    LineOf(b, more);
  }

  lemma PlainLine(a: bytes, crlf: bool)
    requires Plain(a)
    ensures WholeLine(a + Eol(crlf), crlf)
  {
    var e, l := Eol(crlf), a + Eol(crlf);
    assert l[|a|..] == e;
    assert forall i | 0 <= i < |a| :: l[i] == a[i] && a[i] in a;
    assert |l| - |e| == |a|;
  }

  lemma DotLine(a: bytes, crlf: bool)
    requires Plain(a)
    ensures IsEOR(a + Eol(crlf)) <==> a == [DOT]
  {
    var l := a + Eol(crlf);
    if |a| > 1 { assert l[1] == a[1] && a[1] in a; }
    if |a| == 1 { assert l[0] == a[0] && l[1] == Eol(crlf)[0]; }
  }

  lemma UniformBy(s: bytes, crlf: bool)
    requires s != [] && WholeLine(s[..LineLen(s)], crlf) && Uniform(s[LineLen(s)..], crlf)
    ensures Uniform(s, crlf)
  {
  }

  lemma NoLines(crlf: bool)
    ensures Uniform([], crlf) && DotEnd([], true) == 0
  {
  }

  // --- what is read of them --------------------------------------------------------------------

  // Bytes that are read as they are, and what is read behind them.
  lemma {:induction false} ReadPlain(a: bytes, t: bytes, max: nat)
    requires (forall x | x in a :: x != NUL && x != LF) && |a| <= max
    ensures ReadLine(a + t, max).text == a + ReadLine(t, max - |a|).text
    ensures LineRest(a + t, max) == LineRest(t, max - |a|)
    decreases |a|
  {
    hide ReadLine, LineRest;
    if a == [] {
      assert a + t == t;
    } else {
      assert a[0] in a && forall x | x in a[1..] :: x in a;
      assert (a + t)[1..] == a[1..] + t;
      LineStep(a + t, max);
      ReadPlain(a[1..], t, max - 1);
      assert a == [a[0]] + a[1..];
      Regroup([a[0]], a[1..], ReadLine(t, max - |a|).text);
    }
  }

  // A line that fits.
  lemma ReadsLine(a: bytes, crlf: bool, more: bytes)
    requires Plain(a) && |a + Eol(crlf)| <= LINESIZE - 2
    ensures ReadLine(a + Eol(crlf) + more, LINESIZE - 2).text == a + Eol(crlf)
    ensures LineRest(a + Eol(crlf) + more, LINESIZE - 2) == more
  {
    hide ReadLine, LineRest;
    var b := a + Eol(crlf)[..|Eol(crlf)| - 1];
    var t := [LF] + more;
    assert a + Eol(crlf) + more == b + t && a + Eol(crlf) == b + [LF];
    assert forall x | x in b :: x in a || x == CR;
    ReadPlain(b, t, LINESIZE - 2);
    LineStep(t, LINESIZE - 2 - |b|);
    assert t[1..] == more;
  }

  // A piece that fills the buffer.
  lemma ReadsPiece(a: bytes, max: nat, more: bytes)
    requires (forall x | x in a :: x != NUL && x != LF) && |a| == max
    ensures ReadLine(a + more, max).text == a && LineRest(a + more, max) == more
  {
    hide ReadLine, LineRest;
    ReadPlain(a, more, max);
    LineStep(more, 0);
    assert a + [] == a;
  }

  // A line or a piece that is read as a field of its own.
  lemma ReadsField(rules: Rules, l: bytes, more: bytes, rem: int)
    requires ReadLine(l + more, LINESIZE - 2).text == l && LineRest(l + more, LINESIZE - 2) == more
    requires l != [] && !IsEOH(l) && !IsEOR(l) && !IsDate(l) && rem > LINESIZE
    requires |l| > LINESIZE - 81 || !Continues(more)
    ensures var h, next := ReadHeader(rules, l + more, rem), ReadHeader(rules, more, rem - |l|);
            && h == Header(l + next.text, h.used, [l] + next.fields, next.eor)
            && (l + more)[h.used..] == more[next.used..]
  {
    hide ReadLine, LineRest, ReadMore, MoreRest, ReadField, ReadHeader, IsEOH, IsEOR, IsDate, Continues;
    var s := l + more;
    FieldStep(s);
    MoreStep(more, LINESIZE - |l|);
    assert l + [] == l;
    HeaderCases(rules, s, rem);
    CanonSame(rules, l);
  }

  lemma CanonSame(rules: Rules, t: bytes)
    requires !IsDate(t)
    ensures Canon(rules, t) == t
  {
  }

  // The header ends for want of room, or with the stream.
  lemma NoHeader(rules: Rules, s: bytes, rem: int)
    requires rem <= LINESIZE
    ensures ReadHeader(rules, s, rem) == Header([], 0, [], false) && s[0..] == s
  {
  }

  // The first line of a part that is not its last.
  lemma PartLine(l: bytes, more: bytes, st: Stack)
    requires ReadLine(l + more, LINESIZE - 2).text == l && LineRest(l + more, LINESIZE - 2) == more && l != []
    requires l[0] != DASH && !IsEOR(l)
    ensures var p, next := ReadPart(l + more, st), ReadPart(more, st);
            && p == Part(l + next.text, p.used, next.stop, next.code, next.stack)
            && (l + more)[p.used..] == more[next.used..]
  {
    hide ReadLine, LineRest, ReadPart, IsEOR;
    PartCases(l + more, st);
  }

  // The line that ends a part.
  lemma PartLast(l: bytes, more: bytes, st: Stack)
    requires ReadLine(l + more, LINESIZE - 2).text == l && LineRest(l + more, LINESIZE - 2) == more && l != []
    requires Pop(st, l, 0).code != NONE
    ensures var p, d := ReadPart(l + more, st), Pop(st, l, 0);
            p == Part([], p.used, l, d.code, d.stack) && (l + more)[p.used..] == more
  {
    hide ReadLine, LineRest, ReadPart, Pop;
    PartCases(l + more, st);
  }

  lemma DotPops(crlf: bool, st: Stack)
    ensures IsEOR([DOT] + Eol(crlf)) && Pop(st, [DOT] + Eol(crlf), 0).code == MP_EOR
  {
    PopDot(st, [DOT] + Eol(crlf), 0);
  }

  // --- a continuation line that is cut -----------------------------------------------------------

  // A field of 941 bytes, a continuation line of 83, and a line.
  function CutFirst(z: Letter): bytes { Times(940, z) + [LF] }
  function CutFold(z: Letter): bytes { [SPACE] + Times(80, z) }
  function CutRest(): bytes { [DOT] + [LF] + ([99] + [LF]) }
  function CutMessage(z: Letter): bytes { CutFirst(z) + (CutFold(z) + CutRest()) }

  lemma TimesPlain(n: nat, b: byte)
    requires b != NUL && b != CR && b != LF
    ensures Plain(Times(n, b)) && (n > 1 ==> !IsEOH(Times(n, b)) && (b != DOT ==> !IsEOR(Times(n, b))))
  {
  }

  lemma CutLines(z: Letter)
    ensures Uniform(CutMessage(z), false) && DotEnd(CutMessage(z), true) == |CutMessage(z)|
    ensures |CutMessage(z)| > 0 && CutMessage(z)[0] == z 
    ensures |CutFirst(z) + CutFold(z)| == 1022 && (CutFirst(z) + CutFold(z))[0] == z
  {
    hide Uniform, DotEnd, Times;
    TimesPlain(940, z);
    TimesPlain(80, z);
    NoLines(false);
    var last: bytes := [99] + [LF];
    LineInFront([99], false, []);
    assert last + [] == last;
    var fold := CutFold(z) + [DOT];
    LineInFront(fold, false, last);
    assert fold + [LF] + last == CutFold(z) + CutRest();
    LineInFront(Times(940, z), false, CutFold(z) + CutRest());
    assert CutFirst(z)[0] == z;
  }

  // The continuation line is cut in front of its dot.
  lemma CutField(z: Letter)
    ensures ReadField(CutMessage(z)).text == CutFirst(z) + CutFold(z) && FieldRest(CutMessage(z)) == CutRest()
  {
    hide Times, ReadLine, LineRest, ReadMore, MoreRest, ReadField, CutRest;
    TimesPlain(940, z);
    TimesPlain(80, z);
    var a, b, t := Times(940, z), Times(80, z), CutFold(z) + CutRest();
    ReadsLine(a, false, t);
    assert CutFirst(z)[0] == z && CutFirst(z)[1] == z;
    FieldStep(CutMessage(z));
    FieldRestIs(CutMessage(z));
    assert t[1..] == b + CutRest() && Continues(t) && t[0] == SPACE;
    ReadsPiece(b, 80, CutRest());
    MoreStep(t, 83);
    MoreStep(CutRest(), 2);
    assert [SPACE] + b + [] == CutFold(z);
  }

  // What was cut off is read as the dot line.
  lemma CutDot()
    ensures ReadLine(CutRest(), LINESIZE - 2).text == [DOT, LF] && LineRest(CutRest(), LINESIZE - 2) == [99, LF]
    ensures ReadField(CutRest()).text == [DOT, LF] && IsEOR([DOT, LF])
  {
    hide ReadLine, LineRest, ReadField;
    ReadsLine([DOT], false, [99] + [LF]);
    FieldStep(CutRest());
  }

  lemma CutHeader(z: Letter, rules: Rules, rem: int)
    requires rem > LINESIZE
    ensures var h, next := ReadHeader(rules, CutMessage(z), rem), ReadHeader(rules, CutRest(), rem - 1022);
            && h.text == CutFirst(z) + CutFold(z) + next.text && h.eor == next.eor
            && CutMessage(z)[h.used..] == CutRest()[next.used..]
  {
    hide *;
    CutField(z);
    CutLines(z);
    HeaderCases(rules, CutMessage(z), rem);
    FieldRestIs(CutMessage(z));
    var g := CutFirst(z) + CutFold(z);
    NotEnd(g);
    CanonSame(rules, g);
  }

  lemma NotEnd(t: bytes)
    requires |t| > 1 && IsLetter(t[0])
    ensures !IsEOH(t) && !IsEOR(t) && !IsDate(t)
  {
  }

  /** "." at the end of a continuation line that has to be cut just there: what is cut off ends
      the message, whatever the rules are, and the last line is lost. */
  lemma CutLosesLine(z: Letter, rules: Rules)
    ensures Uniform(CutMessage(z), false) && DotEnd(CutMessage(z), true) == |CutMessage(z)|
    ensures Output(rules, CutMessage(z), []) + [99, LF] == CutMessage(z)
  {
    CutLines(z);
    CutDot();
    CutHeader(z, rules, HEADSIZE);
    HeaderCases(rules, CutRest(), HEADSIZE - 1022);
    OutputIs(rules, CutMessage(z), [], []);
    CutText(z);
    hide *;
  }

  lemma CutText(z: Letter)
    ensures CutFirst(z) + CutFold(z) + [DOT, LF] + [99, LF] == CutMessage(z)
  {
    hide Times;
  }

  // --- a header that fills its buffer ----------------------------------------------------------

  // Lines of 1022 bytes in front of the text.
  function LongLines(z: Letter, n: nat, crlf: bool, text: bytes): bytes {
    if n == 0 then text else Times(1022 - |Eol(crlf)|, z) + Eol(crlf) + LongLines(z, n - 1, crlf, text)
  }

  // A message whose header is ended, for want of room, in front of the rest.
  ghost predicate EndsAt(rules: Rules, s: bytes, rem: int, rest: bytes, crlf: bool) {
    var h := ReadHeader(rules, s, rem);
    && Uniform(s, crlf) && DotEnd(s, true) == |s| && s != [] && IsLetter(s[0])
    && !h.eor && s == h.text + rest && s[h.used..] == rest
  }

  lemma {:induction false} LongHeader(z: Letter, rules: Rules, n: nat, crlf: bool, text: bytes, rest: bytes)
    requires EndsAt(rules, text, 1150, rest, crlf)
    ensures EndsAt(rules, LongLines(z, n, crlf, text), 1150 + 1022 * n, rest, crlf)
  {
    hide EndsAt;
    if n > 0 {
      LongHeader(z, rules, n - 1, crlf, text, rest);
      OneLong(z, rules, LongLines(z, n - 1, crlf, text), 1150 + 1022 * (n - 1), rest, crlf);
    }
  }

  // One more line of 1022 bytes is read as a field of its own.
  lemma OneLong(z: Letter, rules: Rules, t: bytes, rem: int, rest: bytes, crlf: bool)
    requires EndsAt(rules, t, rem, rest, crlf) && rem >= 1150
    ensures EndsAt(rules, Times(1022 - |Eol(crlf)|, z) + Eol(crlf) + t, rem + 1022, rest, crlf)
  {
    hide Times, Uniform, DotEnd, ReadHeader, ReadLine, LineRest;
    var a := Times(1022 - |Eol(crlf)|, z);
    var l := a + Eol(crlf);
    TimesPlain(1022 - |Eol(crlf)|, z);
    LineInFront(a, crlf, t);
    ReadsLine(a, crlf, t);
    NotEnd(l);
    ReadsField(rules, l, t, rem + 1022);
    assert (l + t)[0] == z;
    Regroup(l, ReadHeader(rules, t, rem).text, rest);
  }

  lemma FullAtCut(z: Letter, rules: Rules)
    ensures EndsAt(rules, CutMessage(z), 1150, CutRest(), false)
  {
    CutLines(z);
    CutHeader(z, rules, 1150);
    NoHeader(rules, CutRest(), 128);
    hide Uniform, DotEnd, ReadHeader, CutFirst, CutFold, CutRest;
    assert CutFirst(z) + CutFold(z) + [] == CutFirst(z) + CutFold(z);
    Regroup(CutFirst(z), CutFold(z), CutRest());
  }

  // What the output is behind such a header.
  lemma Behind64K(rules: Rules, s: bytes, rest: bytes, crlf: bool)
    requires EndsAt(rules, s, HEADSIZE, rest, crlf)
    ensures var h := ReadHeader(rules, s, HEADSIZE);
            var kind := rules.kind(h.fields);
            var p := ReadPart(rest, Pushed([], kind));
            s == h.text + rest && (p.code == MP_EOR ==> Output(rules, s, []) == h.text + PartPut(kind, p))
  {
    hide ReadHeader, ReadPart, Output, Pushed, After, Body, Uniform, DotEnd;
    OutputIs(rules, s, [], []);
    var h := ReadHeader(rules, s, HEADSIZE);
    var kind := rules.kind(h.fields);
    var p := ReadPart(rest, Pushed([], kind));
    AfterEnd(rules, MP_EOR, rest[p.used..], p.stack);
    assert [] + Output(rules, s, []) == Output(rules, s, []) && [] + h.text == h.text;
    assert h.text + PartPut(kind, p) + [] == h.text + PartPut(kind, p);
  }

  /** A header of 64 KB that ends in the line that is cut: what is cut off ends the message in
      the part, and the last line is lost as well. */
  lemma FullHeaderLosesLine(z: Letter, rules: Rules)
    ensures var s := LongLines(z, 63, false, CutMessage(z));
            && Uniform(s, false) && DotEnd(s, true) == |s|
            && Output(rules, s, []) + [99, LF] == s
  {
    hide LongLines, CutRest, CutMessage, Uniform, DotEnd, ReadHeader, Output;
    FullAtCut(z, rules);
    LongHeader(z, rules, 63, false, CutMessage(z), CutRest());
    LosesLine(rules, LongLines(z, 63, false, CutMessage(z)));
  }

  lemma LosesLine(rules: Rules, s: bytes)
    requires EndsAt(rules, s, HEADSIZE, CutRest(), false)
    ensures Output(rules, s, []) + [99, LF] == s
  {
    hide CutRest, Uniform, DotEnd, ReadHeader, ReadPart, Output, ReadLine, LineRest, Pop, Pushed, PartPut;
    CutDot();
    Behind64K(rules, s, CutRest(), false);
    var h := ReadHeader(rules, s, HEADSIZE);
    var kind := rules.kind(h.fields);
    var st := Pushed([], kind);
    DotPops(false, st);
    assert [DOT] + Eol(false) == [DOT, LF];
    RestIs();
    PartLast([DOT, LF], [99, LF], st);
    LastPut(kind, ReadPart(CutRest(), st));
    Regroup(h.text, [DOT, LF], [99, LF]);
  }

  lemma RestIs()
    ensures CutRest() == [DOT, LF] + [99, LF]
  {
  }

  // A part that is only the line that ends it.
  lemma LastPut(kind: Kind, p: Part)
    requires p.text == []
    ensures PartPut(kind, p) == p.stop
  {
    assert [] + p.stop == p.stop && p.stop + [] == p.stop && [] + [] + p.stop == p.stop;
  }

  // A line whose CR fills the buffer, and the dot line.
  function LoneRest(): bytes { [LF] + ([DOT] + [CR, LF]) }
  function LoneMessage(z: Letter): bytes { Times(1021, z) + [CR, LF] + ([DOT] + [CR, LF]) }

  lemma FullAtLone(z: Letter, rules: Rules)
    ensures EndsAt(rules, LoneMessage(z), 1150, LoneRest(), true)
  {
    hide Times, Uniform, DotEnd, ReadHeader, ReadLine, LineRest;
    var a, dot := Times(1021, z), [DOT] + Eol(true);
    TimesPlain(1021, z);
    NoLines(true);
    LineInFront([DOT], true, []);
    assert dot + [] == dot;
    LineInFront(a, true, dot);
    var g := a + [CR];
    assert LoneMessage(z) == g + LoneRest();
    assert forall x | x in g :: x in a || x == CR;
    ReadsPiece(g, LINESIZE - 2, LoneRest());
    NotEnd(g);
    ReadsField(rules, g, LoneRest(), 1150);
    NoHeader(rules, LoneRest(), 128);
    assert g + [] == g && LoneMessage(z)[0] == z;
  }

  /** A header of 64 KB that ends between CR and LF, directly before the dot line: when its part is
      single, a whole line end is put behind the LF. */
  lemma LoneLfDoubled(z: Letter, rules: Rules)
    ensures var s := LongLines(z, 63, true, LoneMessage(z));
            var h := ReadHeader(rules, s, HEADSIZE);
            && Uniform(s, true) && DotEnd(s, true) == |s| && s == h.text + [LF] + [DOT, CR, LF]
            && (rules.kind(h.fields).Single? ==> Output(rules, s, []) == h.text + [LF] + [CR, LF] + [DOT, CR, LF])
  {
    hide LongLines, LoneMessage, Uniform, DotEnd, ReadHeader, Output;
    FullAtLone(z, rules);
    LongHeader(z, rules, 63, true, LoneMessage(z), LoneRest());
    DoublesLF(rules, LongLines(z, 63, true, LoneMessage(z)));
  }

  lemma DoublesLF(rules: Rules, s: bytes)
    requires EndsAt(rules, s, HEADSIZE, LoneRest(), true)
    ensures var h := ReadHeader(rules, s, HEADSIZE);
            && s == h.text + [LF] + [DOT, CR, LF]
            && (rules.kind(h.fields).Single? ==> Output(rules, s, []) == h.text + [LF] + [CR, LF] + [DOT, CR, LF])
  {
    hide Uniform, DotEnd, ReadHeader, ReadPart, Output, ReadLine, LineRest, Pop, Pushed, FromEOL;
    Behind64K(rules, s, LoneRest(), true);
    var h := ReadHeader(rules, s, HEADSIZE);
    var kind, dot := rules.kind(h.fields), [DOT, CR, LF];
    var st := Pushed([], kind);
    ReadsLine([], false, dot);
    assert [] + Eol(false) == [LF] && [LF] + dot == LoneRest();
    PartLine([LF], dot, st);
    ReadsLine([DOT], true, []);
    DotPops(true, st);
    assert [DOT] + Eol(true) == dot && dot + [] == dot;
    PartLast(dot, [], st);
    var p := ReadPart(LoneRest(), st);
    assert [LF] + [] == [LF];
    LonePut(p);
    Regroup(h.text, [LF], dot);
    assert h.text + ([LF] + [CR, LF] + dot) == h.text + [LF] + [CR, LF] + dot;
  }

  lemma LonePut(p: Part)
    requires p.text == [LF] && p.stop == [DOT, CR, LF] && p.code == MP_EOR
    ensures Body(p) == [LF] + [CR, LF] + [DOT, CR, LF]
  {
    assert p.stop[1..] == [CR, LF];
    assert FromEOL(p.stop) == FromEOL(p.stop[1..]) == [CR, LF];
    EolsEnd([LF], true);
  }

  // --- long lines in parts -----------------------------------------------------------------------

  // A line of which 1022 bytes are read first.
  function Long(z: Letter): bytes { Times(1022, z) }

  function BodyMessage(z: Letter): bytes { [LF] + (Long(z) + CutRest()) }

  lemma LongLine(z: Letter)
    ensures Plain(Long(z)) && |Long(z)| == 1022 && Long(z)[0] == z && !IsEOR(Long(z)) && FromEOL(Long(z)) == []
    ensures forall more :: ReadLine(Long(z) + more, LINESIZE - 2).text == Long(z)
    ensures forall more :: LineRest(Long(z) + more, LINESIZE - 2) == more
  {
    hide ReadLine, LineRest, Times, FromEOL;
    TimesPlain(1022, z);
    NoEol(Long(z));
    forall more
      ensures ReadLine(Long(z) + more, LINESIZE - 2).text == Long(z) && LineRest(Long(z) + more, LINESIZE - 2) == more
    {
      ReadsPiece(Long(z), LINESIZE - 2, more);
    }
  }

  lemma {:induction false} NoEol(a: bytes)
    requires Plain(a)
    ensures FromEOL(a) == []
  {
    if a != [] {
      assert a[0] in a && forall x | x in a[1..] :: x in a;
      NoEol(a[1..]);
    }
  }

  // The blank line that ends a header.
  lemma BlankHead(rules: Rules, t: bytes, rem: int)
    requires rem > LINESIZE
    ensures var h := ReadHeader(rules, [LF] + t, rem);
            h.text == [LF] && !h.eor && h.fields == [] && ([LF] + t)[h.used..] == t
  {
    hide ReadHeader, ReadField, ReadLine, LineRest;
    ReadsLine([], false, t);
    assert [] + Eol(false) == [LF];
    FieldStep([LF] + t);
    HeaderCases(rules, [LF] + t, rem);
    SameRest([LF] + t);
  }

  /** "." behind 1022 bytes of a line in the body: it ends the message, behind a line end when the
      part is single, and the last line is lost. */
  lemma LongBodyLine(z: Letter, rules: Rules)
    ensures Uniform(BodyMessage(z), false) && DotEnd(BodyMessage(z), true) == |BodyMessage(z)|
    ensures BodyMessage(z) == [LF] + Long(z) + [DOT, LF] + [99, LF]
    ensures Output(rules, BodyMessage(z), []) ==
              [LF] + Long(z) + (if rules.kind([]).Single? then [LF] else []) + [DOT, LF]
  {
    hide Long, CutRest, Uniform, DotEnd, ReadHeader, ReadPart, Output, Pushed, After, PartPut;
    var kind, t := rules.kind([]), Long(z) + CutRest();
    var st := Pushed([], kind);
    var p := ReadPart(t, st);
    BodyLines(z);
    BlankHead(rules, t, HEADSIZE);
    OutputIs(rules, BodyMessage(z), [], []);
    LongPart(z, st);
    AfterEnd(rules, MP_EOR, t[p.used..], p.stack);
    LongPut(z, kind, p);
    PutSame(kind, p);
    LongText(z, Output(rules, BodyMessage(z), []), PartPut(kind, p), if kind.Single? then [LF] else []);
  }

  lemma LongText(z: Letter, out: bytes, put: bytes, eol: bytes)
    requires put == Long(z) + eol + [DOT, LF] && [] + out == ([] + [LF]) + put + []
    ensures out == [LF] + Long(z) + eol + [DOT, LF]
  {
    hide Long;
    assert [] + out == out && ([] + [LF]) + put + [] == [LF] + put;
    assert [LF] + (Long(z) + eol + [DOT, LF]) == [LF] + Long(z) + eol + [DOT, LF];
  }

  lemma LongPart(z: Letter, st: Stack)
    ensures var p := ReadPart(Long(z) + CutRest(), st);
            p.text == Long(z) && p.stop == [DOT, LF] && p.code == MP_EOR
  {
    hide Long, CutRest, ReadPart, ReadLine, LineRest, Pop, IsEOR, FromEOL;
    LongLine(z);
    CutDot();
    PartLine(Long(z), CutRest(), st);
    DotPops(false, st);
    assert [DOT] + Eol(false) == [DOT, LF];
    RestIs();
    PartLast([DOT, LF], [99, LF], st);
    assert Long(z) + [] == Long(z);
  }

  lemma BodyLines(z: Letter)
    ensures Uniform(BodyMessage(z), false) && DotEnd(BodyMessage(z), true) == |BodyMessage(z)|
    ensures BodyMessage(z) == [LF] + Long(z) + [DOT, LF] + [99, LF]
  {
    LongTail(z);
    hide Long, Uniform, DotEnd;
    LineInFront([], false, Long(z) + CutRest());
    assert [] + Eol(false) == [LF];
    RestIs();
    assert [LF] + (Long(z) + ([DOT, LF] + [99, LF])) == [LF] + Long(z) + [DOT, LF] + [99, LF];
  }

  lemma LongTail(z: Letter)
    ensures Uniform(Long(z) + CutRest(), false) && DotEnd(Long(z) + CutRest(), true) == |Long(z) + CutRest()|
  {
    LongLine(z);
    hide Long, Uniform, DotEnd, ReadLine, LineRest;
    NoLines(false);
    LineInFront([99], false, []);
    var last := [99] + [LF];
    assert last + [] == last;
    var a := Long(z) + [DOT];
    assert forall x | x in a :: x in Long(z) || x == DOT;
    LineInFront(a, false, last);
    assert a + [LF] + last == Long(z) + CutRest();
  }

  // A part of a piece of a line, ended by another.
  lemma LongPut(z: Letter, kind: Kind, p: Part)
    requires p.text == Long(z) && p.stop == [DOT, LF] && p.code == MP_EOR
    ensures PartPut(kind, p) == Long(z) + (if kind.Single? then [LF] else []) + [DOT, LF]
  {
    hide Times;
    assert p.stop[1..] == [LF];
    assert FromEOL(p.stop) == FromEOL(p.stop[1..]) == [LF];
    assert Long(z)[1021..][0] == z;
    assert Long(z) + [] == Long(z);
  }

  // --- long lines in multiparts --------------------------------------------------------------------

  // A header "M", which the rules take to announce the boundary "b", and the lines "--b", "--b--".
  function Announce(): bytes { [77] + [LF] }
  function Delimiter(): bytes { [DASH, DASH, 98] + [LF] }
  function Close(): bytes { [DASH, DASH, 98, DASH, DASH] + [LF] }

  const STACK: Stack := [[98]]

  ghost predicate Announces(rules: Rules) {
    rules.kind([Announce()]) == Multipart([98]) && rules.kind([]) == Single
  }

  lemma Pops()
    ensures Pop(STACK, Delimiter(), 0) == Popped(MP_EOC, STACK) && Pop(STACK, Close(), 0) == Popped(MP_EOP, [])
    ensures Pushed([], Multipart([98])) == STACK && Pushed(STACK, Single) == STACK
  {
    var d, c := Delimiter(), Close();
    assert d[2..] == [98] + [LF] && d[3..] == [LF] && c[2..] == [98] + [DASH, DASH, LF] && c[3..] == [DASH, DASH, LF];
  }

  // The header of the multipart.
  lemma AnnounceHead(rules: Rules, t: bytes)
    ensures var s := Announce() + ([LF] + t);
            var h := ReadHeader(rules, s, HEADSIZE);
            h.text == Announce() + [LF] && !h.eor && h.fields == [Announce()] && s[h.used..] == t
  {
    hide ReadHeader, ReadLine, LineRest;
    ReadsLine([77], false, [LF] + t);
    ReadsField(rules, Announce(), [LF] + t, HEADSIZE);
    BlankHead(rules, t, HEADSIZE - 2);
  }

  // The end of the output behind a multipart's header and the line that ends its preamble.
  lemma AnnounceOutput(rules: Rules, l: bytes, code: Code, st: Stack, t: bytes)
    requires ReadLine(l + t, LINESIZE - 2).text == l && LineRest(l + t, LINESIZE - 2) == t && l != []
    requires Announces(rules)
    requires Pop(STACK, l, 0) == Popped(code, st) && code != NONE
    ensures Output(rules, Announce() + ([LF] + (l + t)), []) == Announce() + [LF] + l + After(rules, code, t, st)
  {
    hide ReadHeader, ReadPart, Output, After, ReadLine, LineRest, Pop, Pushed, Announce;
    var s := Announce() + ([LF] + (l + t));
    AnnounceHead(rules, l + t);
    Pops();
    PartLast(l, t, STACK);
    OutputIs(rules, s, [], []);
    assert [] + Output(rules, s, []) == Output(rules, s, []) && [] + (Announce() + [LF]) == Announce() + [LF];
    assert [] + l == l;
  }

  function EpilogueMessage(z: Letter): bytes { Announce() + ([LF] + (Close() + (Long(z) + CutRest()))) }

  /** "." behind 1022 bytes of a line in an epilogue: it ends the message, and the last line is
      lost. */
  lemma LongEpilogueLine(z: Letter, rules: Rules)
    requires Announces(rules)
    ensures Uniform(EpilogueMessage(z), false) && DotEnd(EpilogueMessage(z), true) == |EpilogueMessage(z)|
    ensures Output(rules, EpilogueMessage(z), []) + [99, LF] == EpilogueMessage(z)
  {
    hide Announces, Long, CutRest, Uniform, DotEnd, Output, After, ReadLine, LineRest, Pop, Epilogue, IsEOR;
    EpilogueLines(z);
    LongLine(z);
    Pops();
    var t := Long(z) + CutRest();
    ReadsLine([DASH, DASH, 98, DASH, DASH], false, t);
    AnnounceOutput(rules, Close(), MP_EOP, [], t);
    AfterEnd(rules, MP_EOP, t, []);
    EpilogueStep(t);
    EpilogueStep(CutRest());
    CutDot();
    RestIs();
    EpilogueText(z);
  }

  lemma EpilogueText(z: Letter)
    ensures Announce() + [LF] + Close() + (Long(z) + [DOT, LF]) + [99, LF] == EpilogueMessage(z)
  {
    hide Times, Announce, Close;
    RestIs();
    hide CutRest, Long;
    assert Announce() + [LF] + Close() + (Long(z) + [DOT, LF]) + [99, LF]
        == Announce() + ([LF] + (Close() + (Long(z) + ([DOT, LF] + [99, LF]))));
  }

  lemma EpilogueLines(z: Letter)
    ensures Uniform(EpilogueMessage(z), false) && DotEnd(EpilogueMessage(z), true) == |EpilogueMessage(z)|
  {
    LongTail(z);
    hide Long, CutRest, Uniform, DotEnd;
    var t := Long(z) + CutRest();
    LineInFront([DASH, DASH, 98, DASH, DASH], false, t);
    assert [] + Eol(false) == [LF];
    LineInFront([], false, Close() + t);
    LineInFront([77], false, [LF] + (Close() + t));
  }

  // The part "x", with "--b" behind 1022 bytes of its second line.
  function InsideText(z: Letter): bytes { [120] + [LF] + (Long(z) + Delimiter()) }
  function InsideMessage(z: Letter): bytes { Announce() + ([LF] + (Delimiter() + ([LF] + InsideText(z)))) }

  /** A boundary behind 1022 bytes of a line in a single part: it ends the part, and a line end is
      put behind it. */
  lemma LongLineDelimits(z: Letter, rules: Rules)
    requires Announces(rules)
    ensures Uniform(InsideMessage(z), false) && DotEnd(InsideMessage(z), true) == |InsideMessage(z)|
    ensures Output(rules, InsideMessage(z), []) == InsideMessage(z) + [LF]
  {
    hide Long, Uniform, DotEnd, Output, After, ReadLine, LineRest, Pop, InsideText;
    InsideLines(z);
    Pops();
    var t := [LF] + InsideText(z);
    ReadsLine([DASH, DASH, 98], false, t);
    AnnounceOutput(rules, Delimiter(), MP_EOC, STACK, t);
    AfterPart(rules, t, STACK);
    InsideOutput(z, rules);
    assert Announce() + [LF] + Delimiter() + (t + [LF]) == Announce() + ([LF] + (Delimiter() + t)) + [LF];
  }

  lemma InsideLines(z: Letter)
    ensures Uniform(InsideMessage(z), false) && DotEnd(InsideMessage(z), true) == |InsideMessage(z)|
  {
    hide Long, InsideText, Uniform, DotEnd;
    InsideTail(z);
    assert [] + Eol(false) == [LF];
    LineInFront([], false, InsideText(z));
    LineInFront([DASH, DASH, 98], false, [LF] + InsideText(z));
    LineInFront([], false, Delimiter() + ([LF] + InsideText(z)));
    LineInFront([77], false, [LF] + (Delimiter() + ([LF] + InsideText(z))));
  }

  lemma InsideTail(z: Letter)
    ensures Uniform(InsideText(z), false) && DotEnd(InsideText(z), true) == |InsideText(z)|
  {
    hide Long, Uniform, DotEnd, ReadLine, LineRest;
    LongLine(z);
    NoLines(false);
    var last, t := Long(z) + [DASH, DASH, 98], Long(z) + Delimiter();
    assert forall x | x in last :: x in Long(z) || x == DASH || x == 98;
    LineInFront(last, false, []);
    assert last + [LF] + [] == t;
    LineInFront([120], false, t);
  }

  lemma InsideOutput(z: Letter, rules: Rules)
    requires Announces(rules)
    ensures Output(rules, [LF] + InsideText(z), STACK) == [LF] + InsideText(z) + [LF]
  {
    hide Long, Output, After, ReadLine, LineRest, ReadHeader, ReadPart, Pop, Pushed, InsideText, Body, Delimiter;
    var s := [LF] + InsideText(z);
    BlankHead(rules, InsideText(z), HEADSIZE);
    Pops();
    InsidePart(z);
    var p := ReadPart(InsideText(z), STACK);
    OutputIs(rules, s, STACK, []);
    NothingLeft(rules, STACK, MP_EOC);
    assert [] + Output(rules, s, STACK) == Output(rules, s, STACK) && [] + [LF] == [LF];
    assert [LF] + (InsideText(z) + [LF]) + [] == [LF] + InsideText(z) + [LF];
  }

  lemma InsidePart(z: Letter)
    ensures var p := ReadPart(InsideText(z), STACK);
            p.code == MP_EOC && p.stack == STACK && InsideText(z)[p.used..] == [] && Body(p) == InsideText(z) + [LF]
  {
    hide Long, ReadLine, LineRest, ReadPart, Pop, FromEOL, IsEOR, Delimiter;
    LongLine(z);
    Pops();
    var l, d := [120] + [LF], Delimiter();
    ReadsLine([120], false, Long(z) + d);
    DotLine([120], false);
    PartLine(l, Long(z) + d, STACK);
    PartLine(Long(z), d, STACK);
    ReadsLine([DASH, DASH, 98], false, []);
    DelimiterIs();
    assert d + [] == d;
    PartLast(d, [], STACK);
    var p := ReadPart(InsideText(z), STACK);
    assert p.text == l + (Long(z) + []);
    assert Long(z) + [] == Long(z);
    InsideBody(z, p, d);
  }

  lemma DelimiterIs()
    ensures Delimiter() == [DASH, DASH, 98] + [LF] && Delimiter() != []
  {
  }

  lemma InsideBody(z: Letter, p: Part, d: bytes)
    requires p.text == [120] + [LF] + Long(z) && p.stop == d && p.code == MP_EOC
    ensures Body(p) == [120] + [LF] + (Long(z) + d) + [LF]
  {
    LongLast(z);
    hide Long;
    InsideEol(p.text, Long(z));
    assert EolOf(p) == [LF];
    assert p.text + d == [120] + [LF] + (Long(z) + d);
  }

  lemma InsideEol(t: bytes, a: bytes)
    requires t == [120] + [LF] + a && |a| > 0 && a[|a| - 1] != LF
    ensures FromEOL(t) != [] && FromEOL(t)[0] == LF && !EndsWith(t, [LF])
  {
    assert t[1..] == [LF] + a;
    assert FromEOL(t) == FromEOL(t[1..]) == t[1..];
    assert t[|t| - 1..][0] != LF;
  }

  lemma LongLast(z: Letter)
    ensures |Long(z)| == 1022 && Long(z)[1021] == z
  {
  }
}
