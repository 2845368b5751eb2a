/** The header decoder of delegate/mimekit/mimehead.cpp on headers without "=?":
    `DE_FGETC`, `DE_FPUTCX`, `DE_FPUTC1X`, `nodecode_word`, `MIME_headerDecodeX`.
    White space is held back in a small buffer and some of it is dropped; without encoded
    words nothing else in the decoder is at work. */
module HeaderDecoder {
  import opened Bytes
  import opened HeaderSpaces
  import opened HeaderText
  import opened Sequences

  const QUESTION: Ch := 63

  // Codes the decoder passes to its output stage besides characters.
  const XC_FORMFEED: Ch := -0x7FFF_FFFA
  const XC_OFLUSH: Ch := -0x7FFF_FFF7

  // --- dropping white space only --------------------------------------------------------

  predicate WhiteCh(ch: Ch) { IsLWSP(ch) || ch == NL || ch == CR as int }

  /** b is a with some white space left out: every other character stands once, in order. */
  predicate Kept(a: seq<Ch>, b: seq<Ch>) {
    if a == [] then b == []
    else (b != [] && a[0] == b[0] && Kept(a[1..], b[1..])) || (WhiteCh(a[0]) && Kept(a[1..], b))
  }

  lemma {:induction false} KeptSame(a: seq<Ch>)
    ensures Kept(a, a)
  {
    if a != [] { KeptSame(a[1..]); }
  }

  lemma {:induction false} KeptConcat(a: seq<Ch>, b: seq<Ch>, c: seq<Ch>, d: seq<Ch>)
    requires Kept(a, b) && Kept(c, d)
    ensures Kept(a + c, b + d)
    decreases |a|
  {
    if a == [] {
      assert a + c == c && b + d == d;
    } else {
      assert (a + c)[1..] == a[1..] + c;
      if b != [] && a[0] == b[0] && Kept(a[1..], b[1..]) {
        assert (b + d)[1..] == b[1..] + d;
        KeptConcat(a[1..], b[1..], c, d);
      } else {
        KeptConcat(a[1..], b, c, d);
      }
    }
  }

  lemma {:induction false} KeptTrans(a: seq<Ch>, b: seq<Ch>, c: seq<Ch>)
    requires Kept(a, b) && Kept(b, c)
    ensures Kept(a, c)
    decreases |a|, |b|
  {
    if a != [] {
      if b != [] && a[0] == b[0] && Kept(a[1..], b[1..]) {
        if c != [] && b[0] == c[0] && Kept(b[1..], c[1..]) {
          KeptTrans(a[1..], b[1..], c[1..]);
        } else {
          KeptTrans(a[1..], b[1..], c);
        }
      } else {
        KeptTrans(a[1..], b, c);
      }
    }
  }

  // The characters that are not white space.
  function NonWhite(a: seq<Ch>): seq<Ch> {
    if a == [] then []
    else if WhiteCh(a[0]) then NonWhite(a[1..])
    else [a[0]] + NonWhite(a[1..])
  }

  /** What Kept means: the same other characters in the same order. */
  lemma {:induction false} KeptNonWhite(a: seq<Ch>, b: seq<Ch>)
    requires Kept(a, b)
    ensures NonWhite(a) == NonWhite(b) && |b| <= |a|
    decreases |a|
  {
    if a != [] {
      if b != [] && a[0] == b[0] && Kept(a[1..], b[1..]) {
        KeptNonWhite(a[1..], b[1..]);
      } else {
        KeptNonWhite(a[1..], b);
      }
    }
  }

  // --- headers ----------------------------------------------------------------------------

  // What the decoder takes from a stream at once: a character, a form feed with a line end,
  // or the blank line that ends the header.
  datatype Token = Token(chars: seq<Ch>, used: nat, blank: bool)

  function FirstToken(s: bytes): (k: Token)
    requires s != []
    ensures 1 <= k.used <= |s|
  {
    var r := ReadCh(s);
    var t := s[r.used..];
    if r.ch == FORMFEED && t != [] && ReadCh(t).ch == NL then
      Token([FORMFEED, NL], r.used + ReadCh(t).used, false)
    else if BlankLine(r.ch, t) then Token([NL, NL], r.used + ReadCh(t).used, true)
    else Token([r.ch], r.used, false)
  }

  /** There is no "=?" up to the blank line. */
  predicate NoWord(s: bytes)
    decreases |s|
  {
    s != [] ==>
      var k := FirstToken(s);
      var t := s[k.used..];
      k.blank || (!(k.chars == [EQUAL] && t != [] && ReadCh(t).ch == QUESTION) && NoWord(t))
  }

  /** No line up to the blank line ends in "=". */
  predicate NoEqualLine(s: bytes)
    decreases |s|
  {
    s != [] ==>
      var k := FirstToken(s);
      var t := s[k.used..];
      k.blank || (!(k.chars == [EQUAL] && t != [] && ReadCh(t).ch == NL) && NoEqualLine(t))
  }

  /** The line ends up to the blank line are of one style. */
  predicate OneStyle(s: bytes, crlf: bool)
    decreases |s|
  {
    s != [] ==>
      var k := FirstToken(s);
      Raws(k.chars, crlf) == s[..k.used] && (k.blank || OneStyle(s[k.used..], crlf))
  }

  /** The header as characters, with the blank line. */
  function Head(s: bytes): seq<Ch>
    decreases |s|
  {
    if s == [] then []
    else FirstToken(s).chars + (if FirstToken(s).blank then [] else Head(s[FirstToken(s).used..]))
  }

  // What follows the blank line.
  function Body(s: bytes): bytes
    decreases |s|
  {
    if s == [] then []
    else
      var t := s[FirstToken(s).used..];
      if FirstToken(s).blank then t else Body(t)
  }

  /** A header that ends with the stream, and with "=". */
  predicate EndsInEqual(s: bytes)
    decreases |s|
  {
    s != [] && !FirstToken(s).blank
    && (if FirstToken(s).used == |s| then FirstToken(s).chars == [EQUAL]
        else EndsInEqual(s[FirstToken(s).used..]))
  }

  /** A blank line ends the header. */
  predicate HasBlank(s: bytes)
    decreases |s|
  {
    s != [] && (FirstToken(s).blank || HasBlank(s[FirstToken(s).used..]))
  }

  /** The fields of the header: its characters in front of the blank line, without a "=" that is
      the last of the stream. */
  function Fields(s: bytes): seq<Ch>
    decreases |s|
  {
    if s == [] then []
    else
      var k := FirstToken(s);
      var t := s[k.used..];
      if k.blank || (k.chars == [EQUAL] && t == []) then [] else k.chars + Fields(t)
  }

  // The header is its fields and what ends it.
  lemma {:induction false} FieldsHead(s: bytes)
    ensures Head(s) == Fields(s) + (if HasBlank(s) then [NL, NL] else if EndsInEqual(s) then [EQUAL] else [])
    ensures HasBlank(s) ==> !EndsInEqual(s)
    decreases |s|
  {
    if s != [] {
      var k := FirstToken(s);
      var t := s[k.used..];
      FieldsEnd();
      if k.blank {
        assert k.chars + [] == k.chars && [] + [NL, NL] == [NL, NL];
      } else {
        FieldsHead(t);
        var end := if HasBlank(t) then [NL, NL] else if EndsInEqual(t) then [EQUAL] else [];
        if k.chars == [EQUAL] && t == [] {
          assert [EQUAL] + [] == [EQUAL] == [] + [EQUAL];
        } else {
          assert Head(s) == k.chars + (Fields(t) + end);
          Regroup(k.chars, Fields(t), end);
        }
      }
    }
  }

  lemma FieldsEnd()
    ensures Head([]) == [] && Fields([]) == [] && !HasBlank([]) && !EndsInEqual([])
  {
  }

  // --- the output stage ---------------------------------------------------------------------

  /** The held back white space (out_deLWSP) and what has been put, as characters. */
  datatype Stage = Stage(p0: Ch, p1: Ch, out: seq<Ch>)

  function Pending(st: Stage): seq<Ch> {
    if st.p0 == 0 then [] else if st.p1 == 0 then [st.p0] else [st.p0, st.p1]
  }

  predicate StageOk(st: Stage) {
    && (st.p0 == 0 || st.p0 == NL || IsLWSP(st.p0))
    && (st.p1 == 0 || st.p1 == NL || IsLWSP(st.p1))
  }

  // All that has gone into the stage and is not dropped yet.
  function Total(st: Stage): seq<Ch> { st.out + Pending(st) }

  function Flushed(st: Stage): Stage { Stage(0, st.p1, st.out + Pending(st)) }

  /** `DE_FPUTCX` on a character or EOF while lines are being unfolded. */
  function PutChar(st: Stage, ch: Ch, unfold: bool): Stage {
    if st.p0 != 0 && ch == NL && st.p0 == NL then st
    else if st.p0 != 0 && ch == NL then Stage(NL, 0, st.out + [st.p0])
    else if st.p0 != 0 && IsLWSP(ch) then st.(p1 := ch)
    else
      var f := if st.p0 != 0 then Flushed(st) else st;
      if unfold && (ch == NL || IsLWSP(ch)) then Stage(ch, 0, f.out)
      else if ch == EOF then f
      else f.(out := f.out + [ch])
  }

  /** What has been put and what is held back are the header taken so far: in front of its last
      run what Squeezed says, and of that run what can be put before its end is seen. */
  predicate Holds(done: seq<Ch>, st: Stage) {
    st.out == Squeezed(Front(done)) + Early(Tail(done)) && Pending(st) == Late(Tail(done))
  }

  lemma HoldsNone()
    ensures Holds([], Stage(0, 0, []))
  {
  }

  // A character of white space goes into the stage.
  lemma HoldsWhite(done: seq<Ch>, st: Stage, ch: Ch)
    requires Holds(done, st) && StageOk(st) && IsWhite(ch) && (ch == NL && done != [] ==> done[|done| - 1] != FORMFEED)
    ensures Holds(done + [ch], PutChar(st, ch, true))
  {
    AddWhite(done, ch);
    hide Tail, Front, Squeezed;
    PutWhite(Squeezed(Front(done)), Tail(done), st, ch);
  }

  lemma PutWhite(sofar: seq<Ch>, w: seq<Ch>, st: Stage, ch: Ch)
    requires st.out == sofar + Early(w) && Pending(st) == Late(w) && StageOk(st) && IsWhite(ch)
    ensures var r := PutChar(st, ch, true); r.out == sofar + Early(w + [ch]) && Pending(r) == Late(w + [ch])
  {
    LateIs(w);
    if ch == NL {
      LineAdded(w);
      hide Early, Late, Blanks;
      assert w == [] ==> w + [NL] == [NL];
    } else {
      BlankAdded(w, ch);
      hide Early, Late, Blanks;
      assert w == [] ==> w + [ch] == [ch];
    }
    EarlyNone();
  }

  lemma EarlyNone()
    ensures Early([]) == [] && Late([]) == []
  {
  }

  // What is held back begins with the line end just when the run has one.
  lemma LateIs(w: seq<Ch>)
    ensures Late(w) == [] <==> w == []
    ensures w != [] ==> (Late(w)[0] == NL <==> Blanks(w) < |w|)
    ensures w != [] && Blanks(w) == |w| ==> Late(w)[0] == w[0] && Early(w) == []
  {
  }

  // Another character is put; at the top of a field of the run only its line end.
  lemma HoldsChar(done: seq<Ch>, st: Stage, ch: Ch)
    requires Holds(done, st) && StageOk(st) && !IsWhite(ch) && ch != EOF && (ch == EQUAL || !LineTail(done))
    ensures Holds(done + [ch], PutChar(st, ch, true))
  {
    hide *;
    LineTailIs(done);
    AddChar(done, ch);
    RunIs(Tail(done));
    EarlyNone();
    Plain(st, ch);
    HoldsRun(done, st, ch != EQUAL);
    var r := Squeezed(done + [ch]);
    assert r + [] == r;
    HoldsBy(done + [ch], PutChar(st, ch, true));
  }

  lemma HoldsBy(done: seq<Ch>, st: Stage)
    requires st.out == Squeezed(Front(done)) + Early(Tail(done)) && Pending(st) == Late(Tail(done))
    ensures Holds(done, st)
  {
  }

  // All that is held is the run.
  lemma HoldsRun(done: seq<Ch>, st: Stage, field: bool)
    requires Holds(done, st) && Run(Tail(done), field) == Early(Tail(done)) + Late(Tail(done))
    ensures st.out + Pending(st) == Squeezed(Front(done)) + Run(Tail(done), field)
  {
    hide Squeezed, Run, Early, Late, Tail, Front;
    Regroup(Squeezed(Front(done)), Early(Tail(done)), Late(Tail(done)));
  }

  lemma Plain(st: Stage, ch: Ch)
    requires !IsWhite(ch) && ch != EOF
    ensures PutChar(st, ch, true).out == st.out + Pending(st) + [ch] && Pending(PutChar(st, ch, true)) == []
  {
    assert st.out + [] == st.out;
  }

  // A new field begins: only a held back line end is put.
  function FieldTop(st: Stage): Stage {
    Stage(0, st.p1, if st.p0 == NL then st.out + [NL] else st.out)
  }

  predicate EndsIn(cs: seq<Ch>, ch: Ch) { cs != [] && cs[|cs| - 1] == ch }

  // The run in front ends in a line end.
  predicate LineTail(done: seq<Ch>) { Tail(done) != [] && Tail(done)[|Tail(done)| - 1] == NL }

  lemma LineTailIs(done: seq<Ch>)
    ensures LineTail(done) <==> Tail(done) != [] && Tail(done)[|Tail(done)| - 1] == NL
  {
    hide Tail;
  }

  // At the top of a field the run has been put.
  predicate Topped(done: seq<Ch>, st: Stage) {
    st.p0 == 0 && st.out == Squeezed(Front(done)) + Run(Tail(done), true)
  }

  lemma HoldsTop(done: seq<Ch>, st: Stage)
    requires Holds(done, st) && LineTail(done)
    ensures Topped(done, FieldTop(st))
  {
    hide Squeezed, Run, Early, Late, Tail, Front;
    var w := Tail(done);
    RunIs(w);
    assert st.p0 == NL;
    Regroup(Squeezed(Front(done)), Early(w), [NL]);
  }

  lemma ToppedChar(done: seq<Ch>, st: Stage, ch: Ch)
    requires Topped(done, st) && !IsWhite(ch) && ch != EOF && ch != EQUAL
    ensures Holds(done + [ch], PutChar(st, ch, true))
  {
    hide *;
    AddChar(done, ch);
    EarlyNone();
    Plain(st, ch);
    ToppedIs(done, st);
    var r := Squeezed(done + [ch]);
    assert r + [] == r;
    HoldsBy(done + [ch], PutChar(st, ch, true));
  }

  // Where a character may go: at the top of a field no white space and no "=" is put.
  predicate Goes(done: seq<Ch>, top: bool, ch: Ch) {
    if IsWhite(ch) then !top && (ch == NL && done != [] ==> done[|done| - 1] != FORMFEED)
    else if top then ch != EQUAL
    else ch == EQUAL || !LineTail(done)
  }

  lemma HoldsNext(done: seq<Ch>, top: bool, st: Stage, ch: Ch)
    requires (if top then Topped(done, st) else Holds(done, st)) && StageOk(st) && 0 <= ch && Goes(done, top, ch)
    ensures Holds(done + [ch], PutChar(st, ch, true))
    ensures LineTail(done + [ch]) <==> ch == NL
  {
    hide Holds, Topped, PutChar, StageOk, Tail;
    if IsWhite(ch) {
      HoldsWhite(done, st, ch);
      AddWhite(done, ch);
    } else {
      if top { ToppedChar(done, st, ch); } else { HoldsChar(done, st, ch); }
      AddChar(done, ch);
    }
  }

  lemma HoldsFormFeed(done: seq<Ch>, top: bool, st: Stage)
    requires if top then Topped(done, st) else Holds(done, st) && !LineTail(done)
    ensures Holds(done + [FORMFEED, NL], FormFeed(st)) && !LineTail(done + [FORMFEED, NL])
  {
    hide *;
    LineTailIs(done);
    LineTailIs(done + [FORMFEED, NL]);
    AddFormFeed(done);
    EarlyNone();
    RunIs(Tail(done));
    FormFeedPut(st);
    if top { ToppedIs(done, st); } else { HoldsRun(done, st, true); }
    var r := Squeezed(done + [FORMFEED, NL]);
    assert r + [] == r;
    HoldsBy(done + [FORMFEED, NL], FormFeed(st));
  }

  lemma ToppedIs(done: seq<Ch>, st: Stage)
    requires Topped(done, st)
    ensures st.out + Pending(st) == Squeezed(Front(done)) + Run(Tail(done), true)
  {
    hide Squeezed, Front, Run, Tail;
    assert st.out + [] == st.out;
  }

  lemma FormFeedPut(st: Stage)
    ensures FormFeed(st).out == st.out + Pending(st) + [FORMFEED, NL] && Pending(FormFeed(st)) == []
  {
    assert st.out + [] == st.out;
    assert FormFeed(st).out == st.out + Pending(st) + [FORMFEED] + [NL];
  }

  // At the end of the header all of it has been put.
  lemma HoldsEnd(done: seq<Ch>, st: Stage)
    requires Holds(done, st)
    ensures Total(st) == Squeezed(done)
  {
    hide *;
    RunIs(Tail(done));
    AtEnd(done);
    HoldsRun(done, st, false);
    TotalIs(st);
  }

  lemma TotalIs(st: Stage)
    ensures Total(st) == st.out + Pending(st)
    ensures var r := PutChar(st, EOF, true); r.p0 == 0 && r.out == Total(st)
  {
    assert st.out + [] == st.out;
  }

  lemma PendingIn(st: Stage, ch: Ch)
    ensures ch in Pending(st) ==> ch in Total(st)
  {
  }

  // Where the loop puts a character, and which comes behind a line end.
  lemma GoesIs(done: seq<Ch>, prevch: Ch, ch: Ch)
    requires (prevch == NL <==> LineTail(done)) && ch != EQUAL && (ch == NL ==> !EndsIn(done, FORMFEED))
    ensures Goes(done, prevch == NL && ch != NL && !IsLWSP(ch), ch)
  {
    hide LineTail;
  }

  // What stands after the flush of a form feed at a line end.
  function FormFeed(st: Stage): Stage {
    var f := if st.p0 != 0 then Flushed(st) else st;
    f.(out := f.out + [FORMFEED] + [NL])
  }

  lemma DropLast(a: seq<Ch>, w: Ch)
    requires WhiteCh(w)
    ensures Kept(a + [w], a)
  {
    KeptSame(a);
    assert Kept([w], []) by { assert [w][1..] == []; }
    KeptConcat(a, a, [w], []);
    assert a + [] == a;
  }

  /** Putting a character loses nothing but white space. */
  lemma PutCharKeeps(st: Stage, ch: Ch, unfold: bool)
    requires StageOk(st) && 0 <= ch < 256
    requires !unfold ==> st.p0 == 0
    ensures StageOk(PutChar(st, ch, unfold))
    ensures Kept(Total(st) + [ch], Total(PutChar(st, ch, unfold)))
    ensures !unfold ==> PutChar(st, ch, unfold) == st.(out := st.out + [ch])
  {
    var r := PutChar(st, ch, unfold);
    if st.p0 != 0 && ch == NL && st.p0 == NL {
      DropLast(Total(st), ch);
    } else if st.p0 != 0 && (ch == NL || IsLWSP(ch)) && st.p1 != 0 {
      DropLast(st.out + [st.p0], st.p1);
      KeptSame([ch]);
      KeptConcat(st.out + [st.p0] + [st.p1], st.out + [st.p0], [ch], [ch]);
      assert Total(st) + [ch] == st.out + [st.p0] + [st.p1] + [ch];
      assert Total(r) == st.out + [st.p0] + [ch];
    } else {
      assert Total(r) == Total(st) + [ch];
      KeptSame(Total(r));
    }
  }

  // --- putting characters as bytes ----------------------------------------------------------

  /** The line ends that are put: all LF, all CR LF, or either. */
  datatype Ends = LFs | CRLFs | Either

  /** x are bytes for the characters cs, with such line ends. */
  predicate Renders(cs: seq<Ch>, x: bytes, ends: Ends) {
    if cs == [] then x == []
    else
      || (!ends.CRLFs? && Raw(cs[0], false) <= x && Renders(cs[1..], x[|Raw(cs[0], false)|..], ends))
      || (!ends.LFs? && Raw(cs[0], true) <= x && Renders(cs[1..], x[|Raw(cs[0], true)|..], ends))
  }

  // The form that the first character of the text has.
  predicate FirstForm(cs: seq<Ch>, x: bytes, ends: Ends)
    requires cs != []
  {
    ends.CRLFs? || !(!ends.CRLFs? && Raw(cs[0], false) <= x && Renders(cs[1..], x[|Raw(cs[0], false)|..], ends))
  }

  lemma {:induction false} RendersConcat(a: seq<Ch>, x: bytes, b: seq<Ch>, y: bytes, ends: Ends)
    requires Renders(a, x, ends) && Renders(b, y, ends)
    ensures Renders(a + b, x + y, ends)
    decreases |a|
  {
    if a == [] {
      assert a + b == b && x + y == y;
    } else {
      assert (a + b)[1..] == a[1..] + b;
      var r := Raw(a[0], FirstForm(a, x, ends));
      assert (x + y)[|r|..] == x[|r|..] + y;
      RendersConcat(a[1..], x[|r|..], b, y, ends);
      assert r <= x + y;
    }
  }

  lemma RendersOne(ch: Ch, style: bool, ends: Ends)
    requires ends.Either? || style == ends.CRLFs? || ch != NL
    ensures Renders([ch], Raw(ch, style), ends)
  {
    var r := Raw(ch, style);
    assert r[|r|..] == [] && [ch][1..] == [];
    assert Renders([ch][1..], r[|r|..], ends);
    assert (!ends.CRLFs? && r == Raw(ch, false)) || (!ends.LFs? && r == Raw(ch, true));
  }

  lemma WhiteOne(ch: Ch)
    requires WhiteCh(ch)
    ensures Kept([ch], [])
  {
    assert [ch][1..] == [];
  }

  // One character, kept or left out, in bytes.
  lemma RawKept(ch: Ch, style: bool, crlf: bool)
    requires crlf || !style || ch != NL
    ensures Kept(Raw(ch, crlf), Raw(ch, style))
    ensures WhiteCh(ch) ==> Kept(Raw(ch, crlf), [])
  {
    KeptSame(Raw(ch, crlf));
    var cr: seq<Ch>, lf: seq<Ch> := [CR], [LF];
    KeptSame(lf);
    assert cr + lf == [CR, LF] && cr[1..] == [] && lf[1..] == [];
    assert Kept(cr, []) && Kept(lf, []);
    KeptConcat(cr, [], lf, lf);
    KeptConcat(cr, [], lf, []);
    assert [] + lf == lf;
    if ch != NL && WhiteCh(ch) {
      WhiteOne(ch);
    }
  }

  /** Bytes of characters from which only white space was dropped are the bytes with only white
      space dropped. */
  lemma {:induction false} RenderedKept(a: seq<Ch>, b: seq<Ch>, x: bytes, y: bytes, ends: Ends)
    requires Kept(a, b) && x == Raws(a, !ends.LFs?) && Renders(b, y, ends)
    ensures Kept(x, y)
    decreases |a|
  {
    hide Raw;
    var crlf := !ends.LFs?;
    if a != [] {
      var x' := Raws(a[1..], crlf);
      if b != [] && a[0] == b[0] && Kept(a[1..], b[1..]) {
        var style := FirstForm(b, y, ends);
        FirstRendered(b, y, ends);
        var r := Raw(b[0], style);
        RawKept(a[0], style, crlf);
        RenderedKept(a[1..], b[1..], x', y[|r|..], ends);
        KeptConcat(Raw(a[0], crlf), r, x', y[|r|..]);
      } else {
        RawKept(a[0], crlf, crlf);
        RenderedKept(a[1..], b, x', y, ends);
        KeptConcat(Raw(a[0], crlf), [], x', y);
        assert [] + y == y;
      }
    }
  }

  lemma FirstRendered(b: seq<Ch>, y: bytes, ends: Ends)
    requires b != [] && Renders(b, y, ends)
    ensures var r := Raw(b[0], FirstForm(b, y, ends));
            |r| <= |y| && y == r + y[|r|..] && Renders(b[1..], y[|r|..], ends)
    ensures FirstForm(b, y, ends) ==> !ends.LFs?
  {
    hide Raw;
  }

  lemma HeadStep(s: bytes, crlf: bool)
    requires s != [] && OneStyle(s, crlf)
    ensures var k := FirstToken(s);
            var t := s[k.used..];
            && s == Raws(k.chars, crlf) + t
            && Head(s) == k.chars + (if k.blank then [] else Head(t))
            && Body(s) == (if k.blank then t else Body(t))
            && (k.blank || OneStyle(t, crlf))
  {
    hide FirstToken, Raws;
    assert s == s[..FirstToken(s).used] + s[FirstToken(s).used..];
  }

  lemma {:induction false} HeadBytes(s: bytes, crlf: bool)
    requires OneStyle(s, crlf)
    ensures s == Raws(Head(s), crlf) + Body(s)
    decreases |s|
  {
    if s != [] {
      HeadStep(s, crlf);
      hide *;
      var k := FirstToken(s);
      var t := s[k.used..];
      if k.blank {
        assert k.chars + [] == k.chars;
      } else {
        HeadBytes(t, crlf);
        RawsConcat(k.chars, Head(t), crlf);
        Regroup(Raws(k.chars, crlf), Raws(Head(t), crlf), Body(t));
      }
    }
  }

  // --- reading on after a character has been pushed back ------------------------------------

  // The stream t when its first character has been read and pushed back as one byte.
  function Again(t: bytes): (a: bytes)
    requires t != []
    ensures 1 <= |a| <= |t|
  {
    [ReadCh(t).ch] + t[ReadCh(t).used..]
  }

  lemma AgainReads(t: bytes)
    requires t != []
    ensures ReadCh(Again(t)) == Read(ReadCh(t).ch, 1) && Again(t)[1..] == t[ReadCh(t).used..]
  {
  }

  lemma AgainToken(t: bytes)
    requires t != []
    ensures FirstToken(Again(t)).chars == FirstToken(t).chars
    ensures FirstToken(Again(t)).blank == FirstToken(t).blank
    ensures Again(t)[FirstToken(Again(t)).used..] == t[FirstToken(t).used..]
  {
    AgainReads(t);
    var r := t[ReadCh(t).used..];
    if r != [] {
      assert Again(t)[1 + ReadCh(r).used..] == r[ReadCh(r).used..];
      assert t[ReadCh(t).used + ReadCh(r).used..] == r[ReadCh(r).used..];
    }
  }

  lemma AgainSame(t: bytes)
    requires t != []
    ensures NoWord(Again(t)) == NoWord(t) && Head(Again(t)) == Head(t) && Body(Again(t)) == Body(t)
    ensures OneStyle(t, false) ==> OneStyle(Again(t), false)
    ensures OneStyle(t, true) && ReadCh(t).ch != NL ==> OneStyle(Again(t), true)
    ensures EndsInEqual(Again(t)) == EndsInEqual(t) && HasBlank(Again(t)) == HasBlank(t)
    ensures NoEqualLine(Again(t)) == NoEqualLine(t)
  {
    AgainToken(t);
    var a := Again(t);
    assert (FirstToken(a).used == |a|) == (a[FirstToken(a).used..] == []);
    assert (FirstToken(t).used == |t|) == (t[FirstToken(t).used..] == []);
    if OneStyle(t, false) {
      StyleLF(t);
      assert a == t;
    }
    if ReadCh(t).ch != NL { assert ReadCh(t).used == 1 && a == t; }
  }

  /** The header as it is put: its fields, squeezed, and the blank line. */
  function SpacedHeader(s: bytes): seq<Ch> {
    if HasBlank(s) then Squeezed(Fields(s)) + [NL, NL] else Squeezed(Fields(s))
  }

  lemma HeaderIs(s: bytes)
    ensures SpacedHeader(s) == if HasBlank(s) then Squeezed(Fields(s)) + [NL, NL] else Squeezed(Fields(s))
  {
    hide HasBlank, Squeezed, Fields;
  }

  lemma TokenLength(cs: seq<Ch>, crlf: bool)
    requires |cs| == 1 || |cs| == 2
    requires forall i | 0 <= i < |cs| :: 0 <= cs[i] < 256
    ensures |Raws(cs, crlf)| == |cs| + if crlf then (if cs[0] == NL then 1 else 0)
                                                    + (if |cs| == 2 && cs[1] == NL then 1 else 0) else 0
  {
    if |cs| == 2 { assert cs[1..] == [cs[1]]; } else { assert cs == [cs[0]]; }
  }

  // How many bytes a token is in a style.
  lemma TokenStyle(t: bytes)
    requires t != []
    ensures var k := FirstToken(t);
            && (OneStyle(t, false) ==> k.used == |k.chars|)
            && (OneStyle(t, true) ==>
                  k.used == |k.chars| + (if k.chars[0] == NL then 1 else 0)
                            + (if |k.chars| == 2 && k.chars[1] == NL then 1 else 0))
  {
    var k := FirstToken(t);
    TokenLength(k.chars, false);
    TokenLength(k.chars, true);
    hide Raws;
    assert OneStyle(t, false) ==> |Raws(k.chars, false)| == k.used;
    assert OneStyle(t, true) ==> |Raws(k.chars, true)| == k.used;
  }

  // In the LF style pushing back changes nothing.
  lemma StyleLF(t: bytes)
    requires t != [] && OneStyle(t, false)
    ensures ReadCh(t).used == 1 && Again(t) == t
  {
    var k := FirstToken(t);
    assert Raws(k.chars, false) == t[..k.used];
    assert k.chars[0] == ReadCh(t).ch;
    assert Raw(k.chars[0], false) <= Raws(k.chars, false);
    assert t[..k.used][0] == t[0];
  }

  // --- what decoding means ------------------------------------------------------------------

  // The bytes of the header, without a "=" that is the last byte of the stream.
  function HeaderBytes(s: bytes): bytes {
    EndsEmpty(s);
    if EndsInEqual(s) then s[..|s| - 1] else s[..|s| - |Body(s)|]
  }

  /** The output for s: the header with only white space left out, then the body as it was. */
  predicate Decoded(s: bytes, bodytoo: bool, out: bytes) {
    var b := if bodytoo then Body(s) else [];
    |b| <= |out| && out[|out| - |b|..] == b && Kept(HeaderBytes(s), out[..|out| - |b|])
  }

  /** The output for s, character by character: the header squeezed, then the body. */
  predicate Spaced(s: bytes, bodytoo: bool, out: bytes, ends: Ends) {
    var b := if bodytoo then Body(s) else [];
    |b| <= |out| && Renders(SpacedHeader(s), out[..|out| - |b|], ends)
  }

  /** Line ends are put as they are read; but one behind a "=" is read again, as LF. */
  function EndsOf(s: bytes, crlf: bool): Ends {
    if !crlf then LFs else if NoEqualLine(s) then CRLFs else Either
  }

  lemma {:induction false} EndsEmpty(s: bytes)
    ensures |Body(s)| <= |s|
    ensures EndsInEqual(s) ==> s != [] && Body(s) == [] && s[|s| - 1] == EQ
    decreases |s|
  {
    if s != [] && !FirstToken(s).blank {
      EndsEmpty(s[FirstToken(s).used..]);
    }
  }

  lemma {:induction false} NonWhiteLast(a: seq<Ch>, c: Ch)
    ensures |NonWhite(a + [c])| == |NonWhite(a)| + (if WhiteCh(c) then 0 else 1)
  {
    if a == [] {
      assert a + [c] == [c] && [c][1..] == [];
    } else {
      assert (a + [c])[1..] == a[1..] + [c];
      NonWhiteLast(a[1..], c);
    }
  }

  /** Only white space is lost from a header, except when the stream ends in its header with
      "=": that byte is lost. */
  lemma OnlyWhiteLost(s: bytes, bodytoo: bool, out: bytes)
    requires Decoded(s, bodytoo, out)
    ensures |Body(s)| <= |s|
    ensures var head := out[..|out| - (if bodytoo then |Body(s)| else 0)];
            && (Kept(s[..|s| - |Body(s)|], head) <==> !EndsInEqual(s))
            && (NonWhite(s[..|s| - |Body(s)|]) == NonWhite(head) <==> !EndsInEqual(s))
  {
    hide Kept, EndsInEqual, Body, NonWhite;
    EndsEmpty(s);
    var header := s[..|s| - |Body(s)|];
    var head := out[..|out| - (if bodytoo then |Body(s)| else 0)];
    KeptNonWhite(HeaderBytes(s), head);
    if EndsInEqual(s) {
      assert header == HeaderBytes(s) + [EQ];
      NonWhiteLast(HeaderBytes(s), EQ);
      if Kept(header, head) { KeptNonWhite(header, head); }
    }
  }

  // A header of one ordinary character and more.
  lemma PlainFirst(c: byte, t: bytes)
    requires c != FORMFEED && c != LF && c != CR && (c == EQ ==> t == [])
    ensures var s := [c] + t;
            && (OneStyle(s, false) <==> OneStyle(t, false)) && (NoWord(s) <==> NoWord(t)) && Body(s) == Body(t)
            && (EndsInEqual(s) <==> if t == [] then c == EQ else EndsInEqual(t))
  {
    hide OneStyle, NoWord, Body, EndsInEqual;
    var s := [c] + t;
    assert s[1..] == t && s[..1] == [c];
    assert FirstToken(s) == Token([c], 1, false);
    assert Raws([c], false) == [c] by { assert [c as Ch][1..] == []; }
    PlainStep(s, t);
  }

  lemma PlainStep(s: bytes, t: bytes)
    requires s != [] && FirstToken(s) == Token([s[0]], 1, false) && t == s[1..] && (s[0] == EQ ==> t == [])
    requires Raws([s[0]], false) == s[..1]
    ensures (OneStyle(s, false) <==> OneStyle(t, false)) && (NoWord(s) <==> NoWord(t)) && Body(s) == Body(t)
    ensures EndsInEqual(s) <==> if t == [] then s[0] == EQ else EndsInEqual(t)
  {
    hide FirstToken, Raws;
  }

  /** "A:=" becomes "A:". */
  lemma LastEqualLost(out: bytes)
    ensures OneStyle([65, 58, EQ], false) && NoWord([65, 58, EQ])
    ensures Decoded([65, 58, EQ], true, out) <==> out == [65, 58]
  {
    hide OneStyle, NoWord, Body, EndsInEqual, Kept;
    var s: bytes := [65, 58, EQ];
    assert [EQ] + [] == [EQ] && [58] + [EQ] == [58, EQ] && [65] + [58, EQ] == s;
    PlainFirst(EQ, []);
    PlainFirst(58, [EQ]);
    PlainFirst(65, [58, EQ]);
    NothingMore();
    assert s[..|s| - 1] == [65, 58];
    KeptLetters(65, 58, out);
    assert out[|out| - 0..] == [] && out[..|out| - 0] == out;
  }

  lemma NothingMore()
    ensures OneStyle([], false) && NoWord([]) && Body([]) == []
  {
  }

  lemma KeptLetters(a: Ch, b: Ch, out: seq<Ch>)
    requires !WhiteCh(a) && !WhiteCh(b)
    ensures Kept([a, b], out) <==> out == [a, b]
  {
    assert [a, b][1..] == [b] && [b][1..] == [];
    KeptSame([a, b]);
    if Kept([a, b], out) {
      assert out != [] && Kept([b], out[1..]);
      assert out[1..] != [] && Kept([], out[1..][1..]);
    }
  }

  // The header as it has been put is the header with white space left out.
  lemma HeaderKept(s: bytes, done: seq<Ch>, put: seq<Ch>, out: bytes, ends: Ends)
    requires OneStyle(s, !ends.LFs?) && Kept(done, put) && Renders(put, out, ends)
    requires Head(s) == if EndsInEqual(s) then done + [EQUAL] else done
    ensures Kept(HeaderBytes(s), out)
  {
    hide Kept, Renders, OneStyle, Head, Body, EndsInEqual;
    var crlf := !ends.LFs?;
    HeadBytes(s, crlf);
    EndsEmpty(s);
    RawsConcat(done, [EQUAL], crlf);
    assert Raws([EQUAL], crlf) == [EQ] by { assert [EQUAL][1..] == []; }
    assert HeaderBytes(s) == Raws(done, crlf);
    RenderedKept(done, put, Raws(done, crlf), out, ends);
  }

  lemma {:induction false} RendersEither(a: seq<Ch>, x: bytes, ends: Ends)
    requires Renders(a, x, ends)
    ensures Renders(a, x, Either)
  {
    if a != [] { RendersEither(a[1..], x[|Raw(a[0], FirstForm(a, x, ends))|..], ends); }
  }

  // --- the loop over the header -------------------------------------------------------------

  // `done` has been taken from the stream s and r is still to be read.
  predicate Split(s: bytes, done: seq<Ch>, r: bytes, ends: Ends) {
    && done + Head(r) == Head(s) && Body(r) == Body(s) && EndsInEqual(r) == EndsInEqual(s)
    && HasBlank(r) == HasBlank(s) && (EndsIn(done, FORMFEED) ==> r == [] || ReadCh(r).ch != NL)
    && NoWord(r) && (ends.Either? || OneStyle(r, ends.CRLFs?)) && (ends.CRLFs? ==> NoEqualLine(r))
  }

  // The code DE_FGETC returns for a token.
  predicate TokenIs(k: Token, ch: Ch) {
    if k.blank then ch == NLNL && k.chars == [NL, NL]
    else if ch == XC_FORMFEED then k.chars == [FORMFEED, NL]
    else 0 <= ch < 256 && k.chars == [ch]
  }

  // The next token is split off, or ends the header.
  lemma SplitCases(s: bytes, done: seq<Ch>, r: bytes, ends: Ends)
    requires Split(s, done, r, ends)
    ensures r == [] ==> done == Head(s) == Fields(s) && Body(s) == [] && !EndsInEqual(s) && !HasBlank(s)
    ensures r != [] ==>
              var k := FirstToken(r);
              var t := r[k.used..];
              && (k.blank ==> done + k.chars == Head(s) && done == Fields(s) && t == Body(s)
                              && !EndsInEqual(s) && HasBlank(s))
              && (!k.blank ==> ends.Either? || OneStyle(t, ends.CRLFs?))
              && (!k.blank && k.chars != [EQUAL] ==> Split(s, done + k.chars, t, ends))
              && (!k.blank && k.chars == [EQUAL] && t != [] ==> Split(s, done + [EQUAL], Again(t), ends))
              && (!k.blank && k.chars == [EQUAL] && t != [] && ends.CRLFs? ==> ReadCh(t).ch != NL)
              && (!k.blank && k.chars == [EQUAL] && t == [] ==>
                    done + [EQUAL] == Head(s) && done == Fields(s) && Body(s) == []
                    && EndsInEqual(s) && !HasBlank(s))
              && (k.chars == [NL] ==> !EndsIn(done, FORMFEED))
  {
    FieldsHead(s);
    if r == [] {
      FieldsEnd();
      EndIs0(done, Fields(s), []);
    } else {
      hide FirstToken, Again, Raws, Fields;
      var k := FirstToken(r);
      var t := r[k.used..];
      TokenStart(r);
      if k.blank {
        assert Head(r) == k.chars by { assert k.chars + [] == k.chars; }
        EndIs0(done, Fields(s), [NL, NL]);
      } else {
        assert Head(r) == k.chars + Head(t) && Body(r) == Body(t) && NoWord(t);
        assert EndsInEqual(r) == (if t == [] then k.chars == [EQUAL] else EndsInEqual(t));
        Regroup(done, k.chars, Head(t));
        if t != [] {
          AgainSame(t);
        } else {
          assert k.chars + [] == k.chars;
          EndIs0(done, Fields(s), [EQUAL]);
        }
        LastOf(done, k.chars);
      }
    }
  }

  lemma EndIs0(done: seq<Ch>, fields: seq<Ch>, end: seq<Ch>)
    ensures done + end == fields + end ==> done == fields
    ensures done + [] == done && fields + [] == fields
  {
    assert (done + end)[..|done + end| - |end|] == done && (fields + end)[..|fields + end| - |end|] == fields;
  }

  lemma LastOf(done: seq<Ch>, more: seq<Ch>)
    requires more != []
    ensures forall ch :: EndsIn(done + more, ch) <==> more[|more| - 1] == ch
  {
    assert (done + more)[|done + more| - 1] == more[|more| - 1];
  }

  // The first character of a token is the next one; behind a form feed alone no line ends.
  lemma TokenStart(r: bytes)
    requires r != []
    ensures var k := FirstToken(r);
            var t := r[k.used..];
            && k.chars != [] && k.chars[0] == ReadCh(r).ch && (k.blank ==> k.chars == [NL, NL])
            && (!k.blank && k.chars[|k.chars| - 1] == FORMFEED ==> t == [] || ReadCh(t).ch != NL)
  {
  }

  // --- the program ------------------------------------------------------------------------

  class Decoder {
    const input: Stream
    var output: bytes
    var p0: Ch                 // out_deLWSP[0] and [1]; 0 for none
    var p1: Ch
    var unfold: bool
    ghost var put: seq<Ch>     // the characters of the output

    constructor (s: bytes, endCRLF: bool)
      ensures fresh(input) && input.rest == s && input.endCRLF == endCRLF
      ensures output == [] && put == [] && p0 == 0 && p1 == 0 && unfold
    {
      input := new Stream(s, endCRLF);
      output, put, p0, p1, unfold := [], [], 0, 0, true;
    }

    ghost function St(): Stage reads this { Stage(p0, p1, put) }

    ghost predicate Valid(ends: Ends)
      reads this
    {
      StageOk(St()) && Renders(put, output, ends)
    }

    // A line end that is put now has a style the input has.
    ghost predicate MayPutNL(ends: Ends)
      reads input
    {
      ends.Either? || input.endCRLF == ends.CRLFs?
    }

    /** `DE_FPUTC1X`. */
    method Put1(ch: Ch, ghost ends: Ends)
      requires Valid(ends) && (ch == NL ==> MayPutNL(ends))
      modifies this`output, this`put
      ensures Valid(ends) && put == old(put) + [ch]
      ensures output == old(output) + Raw(ch, input.endCRLF)
    {
      RendersOne(ch, input.endCRLF, ends);
      RendersConcat(put, output, [ch], Raw(ch, input.endCRLF), ends);
      output := output + input.Put(ch);
      put := put + [ch];
    }

    // Puts the held back white space.
    method Flush(ghost ends: Ends)
      requires Valid(ends) && p0 != 0 && (NL in Pending(St()) ==> MayPutNL(ends))
      modifies this`output, this`put, this`p0
      ensures Valid(ends) && St() == Flushed(old(St()))
    {
      Put1(p0, ends);
      if p1 != 0 { Put1(p1, ends); }
      p0 := 0;
    }

    /** `DE_FPUTCX` on a character, EOF, or the code to flush. */
    method Fputc(ch: Ch, ghost ends: Ends)
      requires Valid(ends) && (0 <= ch < 256 || ch == EOF || ch == XC_OFLUSH)
      requires NL in Pending(St()) + [ch] ==> MayPutNL(ends)
      modifies this`output, this`put, this`p0, this`p1
      ensures Valid(ends) && St() == PutChar(old(St()), if ch == XC_OFLUSH then EOF else ch, unfold)
      ensures !unfold && old(p0) == 0 ==> output == old(output) + (if ch < 0 then [] else Raw(ch, input.endCRLF))
    {
      if p0 != 0 {
        if ch == NL && p0 == NL { return; }
        if ch == NL || IsLWSP(ch) {
          if ch == NL {
            Put1(p0, ends);
            p0, p1 := ch, 0;
          } else {
            p1 := ch;
          }
          return;
        }
        Flush(ends);
      }
      if unfold && (ch == NL || IsLWSP(ch)) {
        p0, p1 := ch, 0;
        return;
      }
      if ch != EOF && ch != XC_OFLUSH {
        Put1(ch, ends);
      }
    }

    /** `DE_FPUTCX` at the top of a field. */
    method FputFieldTop(ghost ends: Ends)
      requires Valid(ends) && (p0 == NL ==> MayPutNL(ends))
      modifies this`output, this`put, this`p0
      ensures Valid(ends) && St() == FieldTop(old(St()))
    {
      if p0 == NL { Put1(p0, ends); }
      p0 := 0;
    }

    /** `DE_FPUTCX` on a form feed at a line end. */
    method FputFormFeed(ghost ends: Ends)
      requires Valid(ends) && MayPutNL(ends)
      modifies this`output, this`put, this`p0
      ensures Valid(ends) && St() == FormFeed(old(St()))
    {
      if p0 != 0 { Flush(ends); }
      Put1(FORMFEED, ends);
      Put1(NL, ends);
    }

    /** `DE_FGETC`: one token. */
    method Fgetc() returns (ch: Ch)
      modifies input
      ensures old(input.rest) == [] ==> ch == EOF && input.rest == [] && input.endCRLF == old(input.endCRLF)
      ensures old(input.rest) != [] ==>
                var k := FirstToken(old(input.rest));
                && input.rest == old(input.rest)[k.used..]
                && ch == (if k.blank then NLNL else if |k.chars| == 2 then XC_FORMFEED else k.chars[0])
                && (NL !in k.chars ==> input.endCRLF == old(input.endCRLF))
      ensures old(input.rest) != [] ==>
                forall crlf :: OneStyle(old(input.rest), crlf) && NL in FirstToken(old(input.rest)).chars ==>
                  input.endCRLF == crlf
    {
      ghost var s := input.rest;
      if s != [] { TokenStyle(s); }
      ch := input.NLfgetc();
      if ch == FORMFEED {
        ghost var t := input.rest;
        ch := input.NLfgetc();
        if ch == NL {
          ch := XC_FORMFEED;
        } else {
          if ch != EOF { input.Ungetc(ch); }
          ch := FORMFEED;
        }
      } else if ch == NL {
        ghost var t := input.rest;
        ch := input.NLfgetc();
        if ch == NL {
          ch := NLNL;
        } else {
          if ch != EOF { input.Ungetc(ch); }
          ch := NL;
        }
      }
    }

    // What the loop of the decoder keeps: `done` are the characters taken so far.
    ghost predicate Keeping(done: seq<Ch>, top: bool, ends: Ends)
      reads this, input
    {
      && Valid(ends) && unfold
      && Kept(done, Total(St())) && (if top then Topped(done, St()) else Holds(done, St()))
      && (MayPutNL(ends) || NL !in done)
    }

    // A character that has been taken goes to the output stage.
    method Take(ch: Ch, ghost done: seq<Ch>, ghost top: bool, ghost ends: Ends)
      requires Keeping(done, top, ends) && 0 <= ch < 256 && (ch == NL ==> MayPutNL(ends)) && Goes(done, top, ch)
      modifies this`output, this`put, this`p0, this`p1
      ensures Keeping(done + [ch], false, ends) && (LineTail(done + [ch]) <==> ch == NL)
    {
      hide Holds, Topped, Goes, LineTail, Kept, Renders, PutChar;
      ghost var st := St();
      KeptMembers(done, Total(st), NL);
      HoldsNext(done, top, st, ch);
      Fputc(ch, ends);
      PutCharKeeps(st, ch, unfold);
      TakeKeeps(done, Total(st), [ch], Total(St()));
    }

    method TakeFieldTop(ghost done: seq<Ch>, ghost ends: Ends)
      requires Keeping(done, false, ends) && LineTail(done)
      modifies this`output, this`put, this`p0
      ensures Keeping(done, true, ends)
    {
      hide Holds, Topped, LineTail, Kept, Renders, FieldTop;
      ghost var st := St();
      KeptMembers(done, Total(st), NL);
      HoldsTop(done, st);
      FputFieldTop(ends);
      FieldTopKeeps(st);
      KeptTrans(done, Total(st), Total(St()));
    }

    method TakeFormFeed(ghost done: seq<Ch>, ghost top: bool, ghost ends: Ends)
      requires Keeping(done, top, ends) && MayPutNL(ends) && (top || !LineTail(done))
      modifies this`output, this`put, this`p0
      ensures Keeping(done + [FORMFEED, NL], false, ends) && !LineTail(done + [FORMFEED, NL])
    {
      hide Holds, Topped, LineTail, Kept, Renders;
      ghost var st := St();
      HoldsFormFeed(done, top, st);
      FputFormFeed(ends);
      assert Total(St()) == Total(st) + [FORMFEED, NL];
      KeptSame(Total(St()));
      TakeKeeps(done, Total(st), [FORMFEED, NL], Total(St()));
    }

    // The end of the header: nothing stays held back.
    method TakeEnd(ghost done: seq<Ch>, ghost ends: Ends)
      requires Keeping(done, false, ends)
      modifies this`output, this`put, this`p0, this`p1
      ensures Valid(ends) && unfold && Kept(done, put) && (MayPutNL(ends) || NL !in done)
      ensures p0 == 0 && put == Squeezed(done)
    {
      hide Holds, Kept, Renders, Squeezed, PutChar, Total, Tail, Front;
      ghost var st := St();
      PendingIn(st, NL);
      KeptMembers(done, Total(st), NL);
      HoldsEnd(done, st);
      TotalIs(st);
      Fputc(XC_OFLUSH, ends);
    }

    // The loop of the decoder, with `done` taken from the stream s.
    ghost predicate Stands(s: bytes, done: seq<Ch>, ends: Ends)
      reads this, input
    {
      Keeping(done, false, ends) && Split(s, done, input.rest, ends)
    }

    /** Reads one token. */
    method NextToken(ghost s: bytes, ghost done: seq<Ch>, ghost ends: Ends) returns (ch: Ch)
      requires Stands(s, done, ends)
      modifies input
      ensures Keeping(done, false, ends)
      ensures old(input.rest) == [] ==> ch == EOF && input.rest == []
      ensures old(input.rest) != [] ==>
                var k := FirstToken(old(input.rest));
                && input.rest == old(input.rest)[k.used..] && TokenIs(k, ch)
                && (NL in k.chars ==> MayPutNL(ends))
    {
      hide NoWord, Head, Body, EndsInEqual, HasBlank, Kept, Renders, Holds;
      assert input.rest != [] && !ends.Either? ==> OneStyle(input.rest, ends.CRLFs?);
      ch := Fgetc();
    }

    /** The character behind "=" is read and pushed back. */
    method TakeEqual(ghost done: seq<Ch>, ghost ends: Ends) returns (ch: Ch)
      requires Keeping(done, false, ends) && (ends.Either? || OneStyle(input.rest, ends.CRLFs?))
      requires ends.CRLFs? && input.rest != [] ==> ReadCh(input.rest).ch != NL
      modifies this`output, this`put, this`p0, this`p1, input
      ensures old(input.rest) == [] ==> ch == EOF && Keeping(done, false, ends)
      ensures old(input.rest) != [] ==>
                && ch != EOF && Keeping(done + [EQUAL], false, ends) && !LineTail(done + [EQUAL])
                && input.rest == Again(old(input.rest))
    {
      hide Kept, Renders, PutChar, Holds, LineTail;
      ghost var t := input.rest;
      if t != [] && ends.LFs? { StyleLF(t); }
      ch := input.NLfgetc();
      if ch != EOF {
        Take(EQUAL, done, false, ends);
        input.Ungetc(ch);
      }
    }

    /** The header: true at the blank line, false at the end of the stream. */
    method DecodeHeader(ghost ends: Ends) returns (blank: bool, ghost done: seq<Ch>)
      requires Stands(input.rest, [], ends)
      modifies this, input
      ensures Valid(ends) && p0 == 0 && !unfold && Kept(done, put)
      ensures blank == HasBlank(old(input.rest)) && put == SpacedHeader(old(input.rest))
      ensures blank ==> done == Head(old(input.rest)) && input.rest == Body(old(input.rest))
                        && !EndsInEqual(old(input.rest))
      ensures !blank ==> Body(old(input.rest)) == []
                         && Head(old(input.rest)) == if EndsInEqual(old(input.rest)) then done + [EQUAL] else done
    {
      hide Split, Kept, Renders, PutChar, Head, Body, EndsInEqual, FirstToken, Again, ReadCh, NoWord, OneStyle, StageOk;
      hide Holds, Topped, LineTail, Goes, Squeezed, SpacedHeader, Fields, HasBlank, EndsIn, Tail, Front;
      LineTailNone();
      ghost var s := input.rest;
      done := [];
      var prevch := EOF;
      while true
        invariant Stands(s, done, ends) && (prevch == NL <==> LineTail(done))
        decreases |input.rest|
      {
        ghost var r := input.rest;
        SplitCases(s, done, r, ends);
        var ch := NextToken(s, done, ends);
        if ch == EOF { break; }
        if ch == EQUAL {
          prevch := EQUAL;
          ch := TakeEqual(done, ends);
          if ch == EOF { break; }
          done := done + [EQUAL];
        } else if ch == NLNL {
          TakeEnd(done, ends);
          unfold := false;
          HeaderIs(s);
          PutBlankLine(done, ends);
          done := done + [NL, NL];
          return true, done;
        } else {
          ghost var top := prevch == NL && ch != NL && !IsLWSP(ch);
          if prevch == NL && ch != NL && !IsLWSP(ch) {
            TakeFieldTop(done, ends);
          }
          ghost var was := prevch;
          prevch := ch;
          if ch == XC_FORMFEED {
            TakeFormFeed(done, top, ends);
            done := done + [FORMFEED, NL];
          } else {
            GoesIs(done, was, ch);
            Take(ch, done, top, ends);
            done := done + [ch];
          }
        }
      }
      HeaderIs(s);
      TakeEnd(done, ends);
      unfold, blank := false, false;
    }

    method PutBlankLine(ghost done: seq<Ch>, ghost ends: Ends)
      requires Valid(ends) && !unfold && p0 == 0 && Kept(done, put) && MayPutNL(ends)
      modifies this`output, this`put, this`p0, this`p1
      ensures Valid(ends) && p0 == 0 && Kept(done + [NL, NL], put) && put == old(put) + [NL, NL]
    {
      ghost var was := put;
      Fputc(NL, ends);
      Fputc(NL, ends);
      KeptSame([NL, NL]);
      KeptConcat(done, was, [NL, NL], [NL, NL]);
      assert put == was + [NL, NL];
    }

    /** `MIME_headerDecodeX` on a header without "=?", and the body when it is asked for. */
    method Decode(bodytoo: bool, ghost crlf: bool)
      requires NoWord(input.rest) && OneStyle(input.rest, crlf)
      requires output == [] && put == [] && p0 == 0 && p1 == 0 && unfold
      modifies this, input
      ensures Decoded(old(input.rest), bodytoo, output)
      ensures Spaced(old(input.rest), bodytoo, output, EndsOf(old(input.rest), crlf))
    {
      hide Split, Kept, Renders, PutChar, Head, EndsInEqual, FirstToken, Again, ReadCh, NoWord, OneStyle, EndsOf;
      hide HeaderBytes, Raw, SpacedHeader, Holds, Squeezed, Fields, HasBlank;
      ghost var s := input.rest;
      ghost var ends := EndsOf(s, crlf);
      EndsIs(s, crlf);
      StartSplit(s, crlf);
      HoldsNone();
      assert Total(St()) == [];
      var blank, done := DecodeHeader(ends);
      ghost var head := output;
      HeaderKept(s, done, put, output, ends);
      ghost var either := ends;
      if blank && bodytoo {
        CopyBody(ends);
        either := Either;
      }
      ghost var all := output;
      Fputc(EOF, either);
      assert output == all;
      assert output[..|head|] == head;
    }

    // The body, whatever line ends it has.
    method CopyBody(ghost ends: Ends)
      requires Valid(ends) && p0 == 0 && !unfold
      modifies this, input
      ensures Valid(Either) && p0 == 0 && !unfold && output == old(output) + old(input.rest)
    {
      hide Kept, Renders, ReadCh, Raw;
      ghost var all := output + input.rest;
      RendersEither(put, output, ends);
      while true
        invariant Valid(Either) && p0 == 0 && !unfold
        invariant output + input.rest == all
        decreases |input.rest|
      {
        ghost var r, sofar := input.rest, output;
        if r != [] { ReadBack(r); }
        var ch := input.NLfgetc();
        if ch == EOF { break; }
        Fputc(ch, Either);
        Regroup(sofar, Raw(ch, input.endCRLF), input.rest);
      }
    }
  }

  lemma LineTailNone()
    ensures !LineTail([])
  {
  }

  lemma EndsIs(s: bytes, crlf: bool)
    ensures EndsOf(s, crlf).LFs? <==> !crlf
  {
  }

  lemma StartSplit(s: bytes, crlf: bool)
    requires NoWord(s) && OneStyle(s, crlf)
    ensures Split(s, [], s, EndsOf(s, crlf)) && Kept([], [])
    ensures Renders([], [], EndsOf(s, crlf))
  {
    assert [] + Head(s) == Head(s);
  }

  // A character read is put back in its own style.
  lemma ReadBack(s: bytes)
    requires s != []
    ensures 0 <= ReadCh(s).ch < 256
    ensures s == Raw(ReadCh(s).ch, ReadCh(s).used == 2) + s[ReadCh(s).used..]
    ensures ReadCh(s).ch != NL ==> forall style :: Raw(ReadCh(s).ch, style) == Raw(ReadCh(s).ch, ReadCh(s).used == 2)
  {
    RawRead(s, ReadCh(s).used == 2);
  }

  lemma {:induction false} KeptMembers(a: seq<Ch>, b: seq<Ch>, ch: Ch)
    requires Kept(a, b)
    ensures ch in b ==> ch in a
    decreases |a|
  {
    if a != [] {
      if b != [] && a[0] == b[0] && Kept(a[1..], b[1..]) {
        KeptMembers(a[1..], b[1..], ch);
      } else {
        KeptMembers(a[1..], b, ch);
      }
    }
  }

  lemma TakeKeeps(done: seq<Ch>, total: seq<Ch>, more: seq<Ch>, total': seq<Ch>)
    requires Kept(done, total) && Kept(total + more, total')
    ensures Kept(done + more, total')
  {
    KeptSame(more);
    KeptConcat(done, total, more, more);
    KeptTrans(done + more, total + more, total');
  }

  lemma FieldTopKeeps(st: Stage)
    requires StageOk(st)
    ensures StageOk(FieldTop(st)) && Kept(Total(st), Total(FieldTop(st)))
  {
    var kept := st.out + (if st.p0 == 0 then [] else [st.p0]);
    assert Kept(Total(st), kept) by {
      if st.p0 != 0 && st.p1 != 0 {
        DropLast(kept, st.p1);
        assert Total(st) == kept + [st.p1];
      } else {
        assert Total(st) == kept;
        KeptSame(kept);
      }
    }
    assert Kept(kept, Total(FieldTop(st))) by {
      if st.p0 == 0 || st.p0 == NL {
        assert Total(FieldTop(st)) == kept;
        KeptSame(kept);
      } else {
        DropLast(st.out, st.p0);
        assert Total(FieldTop(st)) == st.out;
      }
    }
    KeptTrans(Total(st), kept, Total(FieldTop(st)));
  }

  // --- headers with all their white space -----------------------------------------------------------

  lemma {:induction false} RendersRaws(cs: seq<Ch>, x: bytes, ends: Ends)
    requires Renders(cs, x, ends) && !ends.Either?
    ensures x == Raws(cs, ends.CRLFs?) && (ends.LFs? ==> |x| <= |cs|)
  {
    if cs != [] {
      var r := Raw(cs[0], ends.CRLFs?);
      RendersRaws(cs[1..], x[|r|..], ends);
      assert x == r + x[|r|..];
    }
  }

  lemma {:induction false} HeadLength(s: bytes)
    ensures |Raws(Head(s), false)| == |Head(s)|
    decreases |s|
  {
    if s != [] {
      var k := FirstToken(s);
      var t := if k.blank then [] else s[k.used..];
      HeadLength(t);
      RawsConcat(k.chars, Head(t), false);
      if |k.chars| == 2 { assert k.chars[1..] == [k.chars[1]]; }
      assert |Raws(k.chars, false)| == |k.chars|;
      assert Head(s) == k.chars + Head(t);
    }
  }

  /** Every character of a header is put just when the header is tidy and no "=" is the last byte
      of the message; there are never more. */
  lemma AllPut(s: bytes)
    ensures SpacedHeader(s) == Head(s) <==> Tidy(Fields(s)) && !EndsInEqual(s)
    ensures |SpacedHeader(s)| <= |Head(s)|
    ensures |SpacedHeader(s)| == |Head(s)| <==> Tidy(Fields(s)) && !EndsInEqual(s)
  {
    hide Squeezed, Fields, Head, HasBlank, EndsInEqual, Tidy;
    FieldsHead(s);
    Whole(Fields(s));
  }

  /** A message comes out byte by byte as it was when its header is tidy and it does not end in
      its header with "=" - with CR LF, when no line of the header ends in "=". With LF this is
      also the only case. */
  lemma TidyDecoded(s: bytes, out: bytes, crlf: bool)
    requires OneStyle(s, crlf) && Decoded(s, true, out) && Spaced(s, true, out, EndsOf(s, crlf))
    ensures Tidy(Fields(s)) && !EndsInEqual(s) && (crlf ==> NoEqualLine(s)) ==> out == s
    ensures !crlf ==> (out == s <==> Tidy(Fields(s)) && !EndsInEqual(s))
  {
    hide Squeezed, Fields, Head, EndsInEqual, Tidy, SpacedHeader, Renders, OneStyle, Kept, HeaderBytes, Body, Raws;
    hide NoEqualLine;
    var b := Body(s);
    var x := out[..|out| - |b|];
    assert out == x + b;
    HeadBytes(s, crlf);
    HeadLength(s);
    AllPut(s);
    if !EndsOf(s, crlf).Either? { RendersRaws(SpacedHeader(s), x, EndsOf(s, crlf)); }
  }

  // The characters of a header without form feeds and CR, up to its first empty line.
  predicate Lines(h: seq<Ch>) {
    && (forall i | 0 <= i < |h| :: 0 <= h[i] < 256 && h[i] != FORMFEED && h[i] != CR as int)
    && (forall i | 0 < i < |h| :: !(h[i - 1] == NL && h[i] == NL))
    && (h != [] ==> h[|h| - 1] != NL)
  }

  predicate EqualMark(h: seq<Ch>) { exists i | 0 < i < |h| :: h[i - 1] == EQUAL && h[i] == QUESTION }

  // A character, and what follows it.
  lemma OneChar(ch: Ch, t: bytes, crlf: bool)
    requires 0 <= ch < 256 && ch != FORMFEED && ch != CR as int && t != [] && (ch == NL ==> ReadCh(t).ch != NL)
    ensures FirstToken(Raw(ch, crlf) + t) == Token([ch], |Raw(ch, crlf)|, false)
    ensures (Raw(ch, crlf) + t)[|Raw(ch, crlf)|..] == t && (Raw(ch, crlf) + t)[..|Raw(ch, crlf)|] == Raw(ch, crlf)
    ensures ReadCh(Raw(ch, crlf) + t).ch == ch && Raws([ch], crlf) == Raw(ch, crlf)
  {
    assert [ch][1..] == [];
    assert (Raw(ch, crlf) + t)[|Raw(ch, crlf)|..] == t;
  }

  lemma BlankToken(b: bytes, crlf: bool)
    ensures var e := if crlf then [CR, LF, CR, LF] else [LF, LF];
            && FirstToken(e + b) == Token([NL, NL], |e|, true) && ReadCh(e + b).ch == NL
            && (e + b)[|e|..] == b && (e + b)[..|e|] == e && Raws([NL, NL], crlf) == e
  {
    var nl: seq<Ch> := [NL];
    assert nl[1..] == [] && nl + nl == [NL, NL];
    RawsConcat(nl, nl, crlf);
    var e := if crlf then [CR, LF, CR, LF] else [LF, LF];
    var l := if crlf then [CR, LF] else [LF];
    assert (e + b)[|l|..] == l + b;
  }

  /** The header ends at the first empty line: of a message that is the lines h, an empty line
      and b, the fields are h and the body is b. */
  lemma {:induction false} HeaderAndBody(h: seq<Ch>, b: bytes, crlf: bool)
    requires Lines(h)
    ensures var s := Raws(h, crlf) + (if crlf then [CR, LF, CR, LF] else [LF, LF]) + b;
            && s != [] && ReadCh(s).ch == (if h == [] then NL else h[0])
            && Fields(s) == h && HasBlank(s) && Body(s) == b && OneStyle(s, crlf)
            && (NoWord(s) <==> !EqualMark(h))
    decreases |h|
  {
    hide Lines, Raw, ReadCh, Raws, Fields, HasBlank, Body, OneStyle, NoWord, EqualMark, FirstToken;
    var e := if crlf then [CR, LF, CR, LF] else [LF, LF];
    if h == [] {
      NoLines(b, crlf);
    } else {
      var t := Raws(h[1..], crlf) + e + b;
      LinesStep(h);
      HeaderAndBody(h[1..], b, crlf);
      OneChar(h[0], t, crlf);
      MarkStep(h);
      RawsStep(h, e, b, crlf);
      NotBlankStep(Raw(h[0], crlf) + t, h[0], t, crlf);
      assert h == [h[0]] + h[1..];
    }
  }

  lemma NoLines(b: bytes, crlf: bool)
    ensures var s := Raws([], crlf) + (if crlf then [CR, LF, CR, LF] else [LF, LF]) + b;
            && s != [] && ReadCh(s).ch == NL
            && Fields(s) == [] && HasBlank(s) && Body(s) == b && OneStyle(s, crlf) && NoWord(s) && !EqualMark([])
  {
    hide FirstToken, ReadCh;
    var e := if crlf then [CR, LF, CR, LF] else [LF, LF];
    assert Raws([], crlf) + e + b == e + b;
    BlankToken(b, crlf);
  }

  lemma LinesStep(h: seq<Ch>)
    requires Lines(h) && h != []
    ensures Lines(h[1..]) && 0 <= h[0] < 256 && h[0] != FORMFEED && h[0] != CR as int
    ensures h[0] == NL ==> |h| > 1 && h[1] != NL
  {
    var g := h[1..];
    forall i | 0 < i < |g| ensures !(g[i - 1] == NL && g[i] == NL) {
      assert !(h[i] == NL && h[i + 1] == NL);
    }
  }

  lemma RawsStep(h: seq<Ch>, e: bytes, b: bytes, crlf: bool)
    requires h != []
    ensures Raws(h, crlf) + e + b == Raw(h[0], crlf) + (Raws(h[1..], crlf) + e + b)
    ensures 0 <= h[0] < 256 ==> Raw(h[0], crlf) != []
  {
  }

  lemma MarkStep(h: seq<Ch>)
    requires h != []
    ensures EqualMark(h) <==> (|h| > 1 && h[0] == EQUAL && h[1] == QUESTION) || EqualMark(h[1..])
  {
    var g := h[1..];
    if i :| 0 < i < |h| && h[i - 1] == EQUAL && h[i] == QUESTION {
      if i > 1 { assert g[i - 2] == EQUAL && g[i - 1] == QUESTION; }
    }
    if i :| 0 < i < |g| && g[i - 1] == EQUAL && g[i] == QUESTION {
      assert h[i] == EQUAL && h[i + 1] == QUESTION;
    }
  }

  lemma NotBlankStep(s: bytes, ch: Ch, t: bytes, crlf: bool)
    requires 0 < |t| < |s| && FirstToken(s) == Token([ch], |s| - |t|, false) && s[|s| - |t|..] == t
    requires Raws([ch], crlf) == s[..|s| - |t|]
    ensures Fields(s) == [ch] + Fields(t) && HasBlank(s) == HasBlank(t) && Body(s) == Body(t)
    ensures OneStyle(s, crlf) == OneStyle(t, crlf)
    ensures NoWord(s) <==> !(ch == EQUAL && ReadCh(t).ch == QUESTION) && NoWord(t)
  {
    hide FirstToken, Raws, ReadCh;
  }

  // Text of ordinary characters as bytes.
  lemma {:induction false} RawsSame(h: seq<Ch>, x: bytes)
    requires |h| == |x| && (forall i | 0 <= i < |h| :: h[i] == x[i] && h[i] != NL)
    ensures Raws(h, false) == x
  {
    if h != [] {
      RawsSame(h[1..], x[1..]);
      assert x == [x[0]] + x[1..];
    }
  }

  /** "A: b", an empty line and any body come out as they were. */
  lemma OneBlankStays(b: bytes, out: bytes)
    ensures var s := [65, 58, 32, 98] + [LF, LF] + b;
            OneStyle(s, false) && NoWord(s) && (Decoded(s, true, out) && Spaced(s, true, out, LFs) ==> out == s)
  {
    var h: seq<Ch>, x: bytes := [65, 58, 32, 98], [65, 58, 32, 98];
    assert Tidy(h) && Lines(h) && !EqualMark(h);
    RawsSame(h, x);
    hide *;
    HeaderAndBody(h, b, false);
    var s := x + [LF, LF] + b;
    FieldsHead(s);
    EndsIs(s, false);
    if Decoded(s, true, out) && Spaced(s, true, out, LFs) { TidyDecoded(s, out, false); }
  }

  /** "A:   b" loses the blank in the middle, and nothing else. */
  lemma ThreeBlanksLoseOne(b: bytes, out: bytes)
    ensures var s := [65, 58, 32, 32, 32, 98] + [LF, LF] + b;
            OneStyle(s, false) && NoWord(s)
            && (Decoded(s, true, out) && Spaced(s, true, out, LFs) ==> out == [65, 58, 32, 32, 98] + [LF, LF] + b)
  {
    hide *;
    ThreeBlanks();
    ThreeBytes();
    SqueezedOut([65, 58, 32, 32, 32, 98], [65, 58, 32, 32, 98], b, out);
  }

  lemma ThreeBytes()
    ensures Raws([65, 58, 32, 32, 32, 98], false) == [65, 58, 32, 32, 32, 98]
    ensures Raws([65, 58, 32, 32, 98], false) == [65, 58, 32, 32, 98]
  {
    hide Raws;
    RawsSame([65, 58, 32, 32, 32, 98], [65, 58, 32, 32, 32, 98]);
    RawsSame([65, 58, 32, 32, 98], [65, 58, 32, 32, 98]);
  }

  lemma ThreeBlanks()
    ensures var h: seq<Ch> := [65, 58, 32, 32, 32, 98];
            Lines(h) && !EqualMark(h) && Squeezed(h) == [65, 58, 32, 32, 98]
  {
    hide Squeezed;
    assert AllBlank([32, 32, 32]);
    Squeezed3(65, 58, [32, 32, 32], 98);
    assert [65, 58] + [32, 32, 32] + [98] == [65, 58, 32, 32, 32, 98];
    assert [65, 58] + [32, 32] + [98] == [65, 58, 32, 32, 98];
  }

  /** Lines h, an empty line and b become h squeezed, the empty line and b. */
  lemma SqueezedOut(h: seq<Ch>, k: seq<Ch>, b: bytes, out: bytes)
    requires Lines(h) && !EqualMark(h) && Squeezed(h) == k
    ensures var s := Raws(h, false) + [LF, LF] + b;
            OneStyle(s, false) && NoWord(s)
            && (Decoded(s, true, out) && Spaced(s, true, out, LFs) ==> out == Raws(k, false) + [LF, LF] + b)
  {
    hide *;
    HeaderAndBody(h, b, false);
    var s := Raws(h, false) + [LF, LF] + b;
    HeaderIs(s);
    if Decoded(s, true, out) && Spaced(s, true, out, LFs) {
      BlankToken([], false);
      RawsConcat(k, [NL, NL], false);
      SpacedLF(s, out);
    }
  }

  lemma SpacedLF(s: bytes, out: bytes)
    requires Decoded(s, true, out) && Spaced(s, true, out, LFs)
    ensures out == Raws(SpacedHeader(s), false) + Body(s)
  {
    hide SpacedHeader, Kept, Renders, HeaderBytes, Body, Raws;
    var x := out[..|out| - |Body(s)|];
    assert out == x + Body(s);
    RendersRaws(SpacedHeader(s), x, LFs);
  }

  lemma Squeezed3(a: Ch, b: Ch, u: seq<Ch>, c: Ch)
    requires !IsWhite(a) && !IsWhite(b) && !IsWhite(c) && b != FORMFEED && AllBlank(u) && |u| == 3
    ensures Squeezed([a, b] + u + [c]) == [a, b] + [u[0], u[2]] + [c]
  {
    assert AllWhite([]);
    assert Tidy([a, b]) && Tidy([c]);
    hide *;
    Whole([a, b]);
    Whole([c]);
    Loss([a, b], u, [], [c]);
  }
}
