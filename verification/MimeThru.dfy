/** When the multipart relay of delegate/mimekit/mime.cpp copies a message exactly, up to and
    including the dot line: for every nesting of multiparts, closed or not, with lines of any
    length. A line that does not fit a buffer is read in pieces; the copy is exact unless a piece
    that begins inside a line is taken for the dot line, or a line end is supplied to a part. */
module MimeThru {
  import opened Bytes
  import opened MimeText
  import opened MimeBoundaries
  import opened MimeRelay
  import opened Sequences

  // --- messages -----------------------------------------------------------------------------

  // The length of the first line, with its line end.
  function LineLen(s: bytes): (n: nat)
    ensures n <= |s| && (s != [] ==> n > 0)
  {
    if s == [] then 0 else if s[0] == LF then 1 else 1 + LineLen(s[1..])
  }

  function Eol(crlf: bool): bytes { if crlf then [CR, LF] else [LF] }

  predicate Plain(a: bytes) { NUL !in a && CR !in a && LF !in a }

  predicate WholeLine(l: bytes, crlf: bool) { EndsWith(l, Eol(crlf)) && Plain(l[..|l| - |Eol(crlf)|]) }

  /** Complete lines with one style of line end, of any length. */
  predicate Uniform(s: bytes, crlf: bool)
    decreases |s|
  {
    s == [] ||
    (var n := LineLen(s); WholeLine(s[..n], crlf) && Uniform(s[n..], crlf))
  }

  /** Where the message ends: behind its first dot line; `start` when s is at a line start. */
  function DotEnd(s: bytes, start: bool): (n: nat)
    ensures n <= |s| && (s != [] ==> n > 0)
    decreases |s|
  {
    var n := LineLen(s);
    if s == [] then 0
    else if start && IsEOR(s[..n]) then n
    else n + DotEnd(s[n..], true)
  }

  // What may be left of such a message when reading has stopped anywhere.
  predicate Remainder(s: bytes, crlf: bool) {
    s == [] ||
    (var n := LineLen(s); LineLeft(s[..n], crlf) && Uniform(s[n..], crlf))
  }

  predicate At(s: bytes, start: bool, crlf: bool) { if start then Uniform(s, crlf) else Remainder(s, crlf) }

  // Is the position behind this text the start of a line?
  predicate Starts(text: bytes, start: bool) {
    if text == [] then start else text[|text| - 1] == LF
  }

  /** Reading `text` leaves `rest`, and the end of the message is not in the text. */
  predicate Passed(s: bytes, start: bool, text: bytes, rest: bytes, at: bool) {
    s == text + rest && DotEnd(s, start) == |text| + DotEnd(rest, at) && at == Starts(text, start)
  }

  // --- lines -------------------------------------------------------------------------------

  predicate LineLeft(l: bytes, crlf: bool) { WholeLine(l, crlf) || l == [LF] }

  lemma LineTail(l: bytes, crlf: bool)
    requires LineLeft(l, crlf)
    ensures l != [] && l[|l| - 1] == LF && l[0] != NUL
    ensures |l| > 1 ==> l[0] != LF && LineLeft(l[1..], crlf)
  {
    assert EndsWith(l, Eol(crlf)) || l == [LF];
    if |l| > 1 {
      assert l[|l| - |Eol(crlf)|..] == Eol(crlf);
      if l == [CR, LF] {
        assert l[1..] == [LF];
      } else {
        assert l[1..][|l| - 1 - |Eol(crlf)|..] == Eol(crlf);
        assert WholeLine(l[1..], crlf);
      }
    }
  }

  lemma RemainderTail(s: bytes, crlf: bool)
    requires Remainder(s, crlf) && s != []
    ensures s[0] != NUL && At(s[1..], s[0] == LF, crlf) && Remainder(s[1..], crlf)
    ensures s[LineLen(s) - 1] == LF && LineLeft(s[..LineLen(s)], crlf)
  {
    hide WholeLine, Uniform;
    var n := LineLen(s);
    var l, t := s[..n], s[1..];
    LineTail(l, crlf);
    if s[0] == LF {
      UniformLeft(t, crlf);
    } else {
      assert LineLen(t) == n - 1 && t[..n - 1] == l[1..] && t[n - 1..] == s[n..];
    }
  }

  lemma UniformLeft(s: bytes, crlf: bool)
    requires Uniform(s, crlf)
    ensures Remainder(s, crlf)
  {
    hide WholeLine;
  }

  lemma {:induction false} RemainderDrop(text: bytes, rest: bytes, start: bool, crlf: bool)
    requires At(text + rest, start, crlf)
    ensures At(rest, Starts(text, start), crlf)
    decreases |text|
  {
    hide Uniform, Remainder, LineLen, LineLeft;
    var s := text + rest;
    if text == [] {
      assert s == rest;
    } else {
      AtRemainder(s, start, crlf);
      RemainderTail(s, crlf);
      assert s[1..] == text[1..] + rest;
      RemainderDrop(text[1..], rest, s[0] == LF, crlf);
    }
  }

  lemma AtRemainder(s: bytes, start: bool, crlf: bool)
    requires At(s, start, crlf)
    ensures Remainder(s, crlf)
  {
    if start { UniformLeft(s, crlf); }
  }

  lemma {:induction false} ReadLinePlain(s: bytes, max: nat, crlf: bool)
    requires Remainder(s, crlf)
    ensures var g := ReadLine(s, max);
            g.used == (if LineLen(s) <= max then LineLen(s) else max) && g.text == s[..g.used]
    decreases |s|
  {
    hide Remainder, ReadLine, LineLeft, Uniform;
    LineStep(s, max);
    if s != [] && max > 0 {
      RemainderTail(s, crlf);
      if s[0] != LF { ReadLinePlain(s[1..], max - 1, crlf); }
      assert LineLen(s) == if s[0] == LF then 1 else 1 + LineLen(s[1..]);
    }
  }

  lemma DotFirst(s: bytes, start: bool)
    requires s != []
    ensures var n := LineLen(s);
            DotEnd(s, start) == n + (if start && IsEOR(s[..n]) then 0 else DotEnd(s[n..], true))
  {
  }

  lemma {:induction false} LineInside(s: bytes, i: nat)
    requires i + 1 < LineLen(s)
    ensures s[i] != LF
  {
    if i > 0 { LineInside(s[1..], i - 1); }
  }

  lemma PieceStarts(s: bytes, k: nat, start: bool)
    requires 0 < k <= LineLen(s) && s[LineLen(s) - 1] == LF
    ensures Starts(s[..k], start) <==> k == LineLen(s)
  {
    if k < LineLen(s) { LineInside(s, k - 1); }
  }

  // Part of a line that is not the dot line, or all of it.
  lemma LinePassed(s: bytes, start: bool, k: nat)
    requires 0 < k <= LineLen(s) && !(start && IsEOR(s[..LineLen(s)])) && s[LineLen(s) - 1] == LF
    ensures Passed(s, start, s[..k], s[k..], k == LineLen(s))
  {
    hide DotEnd, IsEOR, LineLen, Starts;
    var n := LineLen(s);
    DotFirst(s, start);
    PieceStarts(s, k, start);
    assert s == s[..k] + s[k..];
    if k < n {
      LineLenDrop(s, k);
      DotFirst(s[k..], false);
      assert s[k..][n - k..] == s[n..];
    }
  }

  lemma PassedBoth(s: bytes, start: bool, a: bytes, r: bytes, at: bool, b: bytes, rest: bytes, at': bool)
    requires Passed(s, start, a, r, at) && Passed(r, at, b, rest, at')
    ensures Passed(s, start, a + b, rest, at')
  {
    hide DotEnd;
    Regroup(a, b, rest);
  }

  lemma PassedNone(s: bytes, start: bool)
    ensures Passed(s, start, [], s, start)
  {
    assert [] + s == s;
  }

  lemma {:induction false} LineLenDrop(s: bytes, k: nat)
    requires k < LineLen(s)
    ensures LineLen(s[k..]) == LineLen(s) - k
  {
    if k > 0 {
      LineLenDrop(s[1..], k - 1);
      assert s[1..][k - 1..] == s[k..];
    } else {
      assert s[0..] == s;
    }
  }

  // --- pieces of lines -----------------------------------------------------------------------

  /** Reading g, a line or a piece of one, leaves r: the end of the message is in g just when g
      is the dot line. */
  predicate Piece(s: bytes, start: bool, g: bytes, r: bytes, crlf: bool) {
    && DotEnd(s, start) == |g| + (if start && IsEOR(g) then 0 else DotEnd(r, Starts(g, start)))
    && g != [] && s == g + r && At(r, Starts(g, start), crlf)
    && (IsEOH(g) || IsEOR(g) ==> Starts(g, start))
    && (IsEOR(g) ==> FromEOL(g) == Eol(crlf))
  }

  // What is left of a line when it is short.
  lemma ShortLeft(l: bytes, crlf: bool)
    requires LineLeft(l, crlf)
    ensures IsEOH(l) ==> |l| <= 2
    ensures IsEOR(l) ==> |l| <= 3 && FromEOL(l) == Eol(crlf)
  {
    if WholeLine(l, crlf) && IsEOR(l) {
      assert l[|l| - |Eol(crlf)|..] == Eol(crlf);
      assert l[1..] == Eol(crlf);
    }
  }

  // A long piece looks like its line.
  lemma SameStart(l: bytes, k: nat)
    requires k == |l| || 2 <= k < |l|
    ensures IsEOH(l[..k]) == IsEOH(l) && IsEOR(l[..k]) == IsEOR(l)
  {
    assert l[..|l|] == l;
  }

  lemma LineDots(s: bytes, start: bool, crlf: bool)
    requires At(s, start, crlf) && s != []
    ensures var g, r := ReadLine(s, LINESIZE - 2).text, LineRest(s, LINESIZE - 2);
            && Piece(s, start, g, r, crlf) && |r| < |s| && |g| <= LINESIZE - 2
            && (|g| < LINESIZE - 2 ==> Starts(g, start))
            && (LineLen(s) <= LINESIZE - 2 ==> g == s[..LineLen(s)] && r == s[LineLen(s)..])
  {
    hide Uniform, Remainder, DotEnd, ReadLine, IsEOR, IsEOH, LineLeft, FromEOL;
    AtRemainder(s, start, crlf);
    ReadLinePlain(s, LINESIZE - 2, crlf);
    RemainderTail(s, crlf);
    var n := LineLen(s);
    var l, k := s[..n], if n <= LINESIZE - 2 then n else LINESIZE - 2;
    var g, r := s[..k], s[k..];
    assert s == g + r && l[..k] == g;
    SameStart(l, k);
    ShortLeft(l, crlf);
    RemainderDrop(g, r, start, crlf);
    DotFirst(s, start);
    if !(start && IsEOR(l)) { LinePassed(s, start, k); }
    PieceStarts(s, k, start);
  }

  // --- fields --------------------------------------------------------------------------------

  // The first continuation line, as far as the buffer has room.
  lemma MoreFirst(s: bytes, rem: nat, crlf: bool)
    requires Uniform(s, crlf) && rem > 80 && Continues(s)
    ensures var g, r := ReadLine(s[1..], rem - 3), LineRest(s[1..], rem - 3);
            && g.text != [] && |g.text| <= rem - 3
            && Passed(s, true, [s[0]] + g.text, r, Starts([s[0]] + g.text, true))
            && At(r, Starts([s[0]] + g.text, true), crlf)
            && (Starts([s[0]] + g.text, true) <==> |g.text| + 1 == LineLen(s))
            && r == s[|g.text| + 1..] && (LineLen(s) <= rem - 2 ==> |g.text| + 1 == LineLen(s))
            && (LineLen(s) > rem - 2 ==> |g.text| == rem - 3)
  {
    hide WholeLine, Remainder, ReadLine, Uniform;
    UniformLeft(s, crlf);
    RemainderTail(s, crlf);
    ReadLinePlain(s[1..], rem - 3, crlf);
    LineLenDrop(s, 1);
    var g := ReadLine(s[1..], rem - 3);
    var k := 1 + g.used;
    assert [s[0]] + s[1..][..g.used] == s[..k];
    assert s[1..][g.used..] == s[k..];
    LinePassed(s, true, k);
    assert s == s[..k] + s[k..];
    RemainderDrop(s[..k], s[k..], true, crlf);
  }

  lemma {:induction false} MoreDots(s: bytes, rem: nat, crlf: bool)
    requires Uniform(s, crlf)
    ensures var m := ReadMore(s, rem).text;
            Passed(s, true, m, MoreRest(s, rem), Starts(m, true))
    decreases |s|
  {
    hide Uniform, ReadLine, ReadMore, LineRest, MoreRest, Continues, Passed, Remainder;
    MoreStep(s, rem);
    if rem > 80 && Continues(s) {
      MoreFirst(s, rem, crlf);
      var g, r := ReadLine(s[1..], rem - 3), LineRest(s[1..], rem - 3);
      var a := [s[0]] + g.text;
      PassedShorter(s, true, a, r);
      if Starts(a, true) {
        MoreDots(r, rem - 1 - |g.text|, crlf);
      } else {
        MoreStep(r, 2);
        PassedNone(r, false);
      }
      var b := ReadMore(r, rem - 1 - |g.text|).text;
      PassedBoth(s, true, a, r, Starts(a, true), b, MoreRest(r, rem - 1 - |g.text|), Starts(b, Starts(a, true)));
      StartsBoth(a, b, true);
    } else {
      PassedNone(s, true);
    }
  }

  lemma PassedShorter(s: bytes, start: bool, a: bytes, r: bytes)
    requires Passed(s, start, a, r, Starts(a, start)) && a != []
    ensures |r| < |s|
  {
  }

  function FieldRest(s: bytes): bytes { s[ReadField(s).used..] }

  // A line with its continuation lines.
  lemma FoldDots(s: bytes, start: bool, crlf: bool)
    requires At(s, start, crlf) && s != []
    requires var l := ReadLine(s, LINESIZE - 2).text; !IsEOH(l) && !IsEOR(l)
    ensures var g, r := ReadField(s).text, FieldRest(s);
            Passed(s, start, g, r, Starts(g, start)) && g != [] && !IsEOH(g) && !IsEOR(g)
  {
    hide Uniform, DotEnd, ReadLine, ReadMore, LineRest, MoreRest, ReadField, Remainder, Passed, IsEOR, IsEOH, Piece;
    LineDots(s, start, crlf);
    FieldStep(s);
    var l, t := ReadLine(s, LINESIZE - 2).text, LineRest(s, LINESIZE - 2);
    PiecePassed(s, start, l, t, crlf);
    var rem := LINESIZE - |l|;
    var m, r := ReadMore(t, rem).text, MoreRest(t, rem);
    if rem > 80 {
      MoreDots(t, rem, crlf);
      SameDot(l, m);
    } else {
      MoreStep(t, rem);
      PassedNone(t, Starts(l, start));
      assert l + [] == l;
    }
    StartsBoth(l, m, start);
    PassedBoth(s, start, l, t, Starts(l, start), m, r, Starts(m, Starts(l, start)));
  }

  lemma PiecePassed(s: bytes, start: bool, g: bytes, r: bytes, crlf: bool)
    requires Piece(s, start, g, r, crlf)
    ensures s == g + r && g != [] && At(r, Starts(g, start), crlf)
    ensures !IsEOR(g) ==> Passed(s, start, g, r, Starts(g, start))
  {
    hide Uniform, DotEnd, Remainder;
  }

  lemma StartsBoth(a: bytes, b: bytes, start: bool)
    ensures Starts(a + b, start) == Starts(b, Starts(a, start))
  {
    if b == [] {
      assert a + b == a;
    } else {
      assert (a + b)[|a + b| - 1] == b[|b| - 1];
    }
  }

  /** A field that is read ends where the message has no end before, unless it is the dot line. */
  lemma FieldDots(s: bytes, start: bool, crlf: bool)
    requires At(s, start, crlf) && s != []
    ensures Piece(s, start, ReadField(s).text, FieldRest(s), crlf)
  {
    hide Uniform, DotEnd, ReadLine, ReadMore, LineRest, MoreRest, ReadField, Remainder, Passed, IsEOR, IsEOH, Piece;
    LineDots(s, start, crlf);
    FieldStep(s);
    SameRest(s);
    var l := ReadLine(s, LINESIZE - 2).text;
    PiecePassed(s, start, l, LineRest(s, LINESIZE - 2), crlf);
    if !IsEOH(l) && !IsEOR(l) {
      FoldDots(s, start, crlf);
      PassedPiece(s, start, ReadField(s).text, FieldRest(s), crlf);
    }
  }

  lemma PassedPiece(s: bytes, start: bool, g: bytes, r: bytes, crlf: bool)
    requires Passed(s, start, g, r, Starts(g, start)) && g != [] && !IsEOH(g) && !IsEOR(g) && At(s, start, crlf)
    ensures Piece(s, start, g, r, crlf)
  {
    hide Uniform, DotEnd, Remainder;
    RemainderDrop(g, r, start, crlf);
  }

  // Continuation lines do not change what the first line looks like.
  lemma SameDot(l: bytes, m: bytes)
    requires l != [] && !IsEOH(l) && (m == [] || l[|l| - 1] == LF)
    ensures IsEOH(l + m) == IsEOH(l) && IsEOR(l + m) == IsEOR(l)
  {
    assert m == [] ==> l + m == l;
  }

  // --- headers -------------------------------------------------------------------------------

  /** Is the header left at the start of a line? For a dot line: was it read as a line? */
  predicate HeadWhole(rules: Rules, s: bytes, rem: int, start: bool)
    decreases |s|
  {
    var g := ReadField(s);
    if rem <= LINESIZE || g.text == [] || IsEOR(g.text) then start
    else IsEOH(g.text) || HeadWhole(rules, s[g.used..], rem - |Canon(rules, g.text)|, Starts(g.text, start))
  }

  /** The dates of the header are in the canonical form already. */
  predicate DatesKept(rules: Rules, s: bytes, rem: int)
    decreases |s|
  {
    var g := ReadField(s);
    rem <= LINESIZE || g.text == [] || IsEOR(g.text) || IsEOH(g.text) ||
    (Canon(rules, g.text) == g.text && DatesKept(rules, s[g.used..], rem - |g.text|))
  }

  predicate HeaderOk(s: bytes, start: bool, h: Header, r: bytes, whole: bool, crlf: bool) {
    && s == h.text + r && At(r, h.eor || whole, crlf)
    && DotEnd(s, start) == |h.text| + (if !h.eor then DotEnd(r, whole) else if whole then 0 else DotEnd(r, true))
  }

  lemma HeaderOn(s: bytes, start: bool, g: bytes, t: bytes, next: Header, h: Header, r: bytes, whole: bool, crlf: bool)
    requires Piece(s, start, g, t, crlf) && !IsEOR(g) && HeaderOk(t, Starts(g, start), next, r, whole, crlf)
    requires h.text == g + next.text && h.eor == next.eor
    ensures HeaderOk(s, start, h, r, whole, crlf)
  {
    hide Uniform, Remainder, DotEnd;
    Regroup(g, next.text, r);
  }

  lemma {:induction false} HeaderDots(rules: Rules, s: bytes, rem: int, start: bool, crlf: bool)
    requires At(s, start, crlf) && DatesKept(rules, s, rem)
    ensures var h := ReadHeader(rules, s, rem);
            HeaderOk(s, start, h, s[h.used..], HeadWhole(rules, s, rem, start), crlf)
    decreases |s|
  {
    hide Uniform, Remainder, DotEnd, ReadField, ReadHeader, IsEOR, IsEOH, Canon, Piece, At, HeaderOk;
    HeaderCases(rules, s, rem);
    var h, g := ReadHeader(rules, s, rem), ReadField(s);
    if s == [] || rem <= LINESIZE {
      assert s == [] ==> s[h.used..] == [];
      HeaderNone(s, start, h, s[h.used..], crlf);
    } else {
      FieldDots(s, start, crlf);
      var t := FieldRest(s);
      PiecePassed(s, start, g.text, t, crlf);
      if IsEOR(g.text) || IsEOH(g.text) {
        HeaderEnd(s, start, g.text, t, h, HeadWhole(rules, s, rem, start), crlf);
      } else {
        HeaderDots(rules, t, rem - |g.text|, Starts(g.text, start), crlf);
        var next := ReadHeader(rules, t, rem - |g.text|);
        HeaderOn(s, start, g.text, t, next, h, t[next.used..], HeadWhole(rules, s, rem, start), crlf);
      }
    }
  }

  lemma HeaderNone(s: bytes, start: bool, h: Header, r: bytes, crlf: bool)
    requires At(s, start, crlf) && h.text == [] && !h.eor && r == s
    ensures HeaderOk(s, start, h, r, start, crlf)
  {
    hide Uniform, Remainder, DotEnd;
    assert [] + s == s;
  }

  lemma HeaderEnd(s: bytes, start: bool, g: bytes, t: bytes, h: Header, whole: bool, crlf: bool)
    requires Piece(s, start, g, t, crlf) && h.text == g && h.eor == IsEOR(g) && (IsEOR(g) || IsEOH(g))
    requires whole == if IsEOR(g) then start else true
    ensures HeaderOk(s, start, h, t, whole, crlf)
  {
    hide Uniform, Remainder, DotEnd, IsEOR;
  }

  // --- the text of a part --------------------------------------------------------------------

  // Text that ends at a line end has the line end of the message, unless it is the lone LF of one.
  lemma {:induction false} TextEnd(t: bytes, r: bytes, start: bool, crlf: bool)
    requires At(t + r, start, crlf) && t != [] && t[|t| - 1] == LF
    ensures EndsWith(t, Eol(crlf)) || (t == [LF] && crlf && !start)
    decreases |t|
  {
    hide Uniform, Remainder, LineLen, LineLeft, EndsWith;
    AtRemainder(t + r, start, crlf);
    if |t| == 1 {
      assert t == [LF];
      if start { StartLF(t + r, crlf); }
      EndsSame(t);
    } else {
      RemainderTail(t + r, crlf);
      assert (t + r)[1..] == t[1..] + r;
      TextEnd(t[1..], r, t[0] == LF, crlf);
      if t[1..] == [LF] && crlf && t[0] != LF {
        CrLf(t + r, crlf);
        assert t == [CR, LF];
        EndsSame(t);
      } else {
        EndsOn(t, Eol(crlf));
      }
    }
  }

  lemma EndsSame(t: bytes)
    ensures EndsWith(t, t)
  {
  }

  lemma EndsOn(t: bytes, e: bytes)
    requires t != [] && EndsWith(t[1..], e)
    ensures EndsWith(t, e)
  {
    assert t[|t| - |e|..] == t[1..][|t| - 1 - |e|..];
  }

  lemma StartLF(s: bytes, crlf: bool)
    requires Uniform(s, crlf) && s != [] && s[0] == LF
    ensures !crlf
  {
  }

  // In front of LF there is CR just in the style that says so, and CR is nowhere else.
  lemma CrLf(s: bytes, crlf: bool)
    requires Remainder(s, crlf) && |s| > 1 && s[0] != LF && (s[1] == LF || s[0] == CR)
    ensures (s[0] == CR) == crlf && s[1] == LF
  {
    hide Uniform;
    var l := s[..LineLen(s)];
    assert WholeLine(l, crlf) || l == [LF];
    assert |l| > 1 && l[|l| - |Eol(crlf)|..] == Eol(crlf);
  }

  // The first line end of a text is that of the message, unless the text begins with LF.
  lemma {:induction false} TextEol(t: bytes, r: bytes, start: bool, crlf: bool)
    requires At(t + r, start, crlf) && FromEOL(t) != []
    ensures FromEOL(t)[0] == Eol(crlf)[0] || t[0] == LF
    decreases |t|
  {
    hide Uniform, Remainder;
    var s := t + r;
    AtRemainder(s, start, crlf);
    RemainderTail(s, crlf);
    if t[0] != LF && t[0] != CR {
      assert s[1..] == t[1..] + r;
      TextEol(t[1..], r, false, crlf);
      if t[1] == LF { CrLf(s, crlf); }
    } else if t[0] == CR {
      assert |s| > 1;
      CrLf(s, crlf);
    }
  }

  /** What is read as a part, from the start of a line or from inside one: the message ends in
      it just when a dot line that begins at a line start ends it. */
  predicate PartOk(s: bytes, start: bool, p: Part, r: bytes, crlf: bool) {
    && s == p.text + p.stop + r && At(r, Starts(p.text + p.stop, start), crlf) && p.code != NONE
    && (p.code == MP_EOF ==> p.stop == [] && r == [])
    && (p.code == MP_EOR ==> p.stop != [] && p.stop[0] == DOT && FromEOL(p.stop) == Eol(crlf)
                             && Starts(p.text + p.stop, start))
    && DotEnd(s, start) == |p.text| + |p.stop|
         + (if p.code == MP_EOR && Starts(p.text, start) then 0 else DotEnd(r, Starts(p.text + p.stop, start)))
  }

  // One more piece in front of a part.
  lemma PartOn(s: bytes, start: bool, g: bytes, t: bytes, next: Part, p: Part, r: bytes, crlf: bool)
    requires Piece(s, start, g, t, crlf) && !IsEOR(g) && PartOk(t, Starts(g, start), next, r, crlf)
    requires p.text == g + next.text && p.stop == next.stop && p.code == next.code
    ensures PartOk(s, start, p, r, crlf)
  {
    hide Uniform, Remainder, DotEnd, FromEOL, Starts, IsEOR;
    StartsBoth(g, next.text, start);
    StartsBoth(g, next.text + next.stop, start);
    Regroup(g, next.text, next.stop);
    Regroup(g, next.text + next.stop, r);
  }

  // The piece that ends a part.
  lemma PartEnd(s: bytes, start: bool, g: bytes, t: bytes, p: Part, crlf: bool)
    requires Piece(s, start, g, t, crlf) && p.text == [] && p.stop == g && p.code != NONE && p.code != MP_EOF
    requires p.code == MP_EOR <==> IsEOR(g)
    ensures PartOk(s, start, p, t, crlf)
  {
    hide Uniform, Remainder, DotEnd, FromEOL;
    assert [] + g == g;
  }

  lemma PartNone(start: bool, p: Part, crlf: bool)
    requires p.text == [] && p.stop == [] && p.code == MP_EOF
    ensures PartOk([], start, p, [], crlf)
  {
  }

  /** A part of any message, read from anywhere. */
  lemma {:induction false} PartDots(s: bytes, start: bool, st: Stack, crlf: bool)
    requires At(s, start, crlf)
    ensures var p := ReadPart(s, st); PartOk(s, start, p, s[p.used..], crlf)
    decreases |s|
  {
    hide Uniform, Remainder, DotEnd, ReadLine, LineRest, ReadPart, IsEOR, Pop, PartOk, Piece, Starts;
    PartCases(s, st);
    var p, g, t := ReadPart(s, st), ReadLine(s, LINESIZE - 2).text, LineRest(s, LINESIZE - 2);
    if s == [] {
      assert s[p.used..] == [];
      PartNone(start, p, crlf);
    } else {
      LineDots(s, start, crlf);
      PiecePassed(s, start, g, t, crlf);
      PopDot(st, g, 0);
      if Pop(st, g, 0).code == NONE {
        PartDots(t, Starts(g, start), st, crlf);
        PartOn(s, start, g, t, ReadPart(t, st), p, s[p.used..], crlf);
      } else {
        PartEnd(s, start, g, t, p, crlf);
      }
    }
  }

  // --- what is put for a part ------------------------------------------------------------------

  function PartPut(kind: Kind, p: Part): bytes { if kind.Multipart? then p.text + p.stop else Body(p) }

  /** A line end is supplied to a single part: in front of a piece taken for the dot line, and in
      front of the dot line when only the LF of a CR LF is left of the part; behind a piece that
      delimits a boundary, when the part has a line end to go by. */
  predicate Supplies(kind: Kind, p: Part, start: bool) {
    kind.Single? && p.text != []
    && match p.code
       case MP_EOR => !Starts(p.text, start) || (p.text == [LF] && FromEOL(p.stop) != [LF])
       case MP_EOC => !Starts(p.text, start) && FromEOL(p.text) != []
       case MP_EOP => !Starts(p.text, start) && FromEOL(p.text) != []
       case _ => false
  }

  lemma EndsInLF(t: bytes)
    ensures EndsWith(t, [LF]) || EndsWith(t, [CR, LF]) ==> t != [] && t[|t| - 1] == LF
  {
    if EndsWith(t, [LF]) { assert t[|t| - 1..][0] == LF; }
    if EndsWith(t, [CR, LF]) { assert t[|t| - 2..][1] == LF; }
  }

  // How text ends, and its first line end.
  lemma TextIs(t: bytes, r: bytes, start: bool, crlf: bool)
    requires At(t + r, start, crlf) && t != []
    ensures Starts(t, start) ==> t == [LF] || EndsWith(t, Eol(crlf))
    ensures !Starts(t, start) ==> !EndsWith(t, [LF]) && !EndsWith(t, [CR, LF])
    ensures FromEOL(t) != [] ==> FromEOL(t)[0] == Eol(crlf)[0] || t[0] == LF
    ensures r == [] ==> Starts(t, start)
  {
    hide At, Uniform, Remainder, FromEOL, EndsWith;
    if Starts(t, start) { TextEnd(t, r, start, crlf); }
    if FromEOL(t) != [] { TextEol(t, r, start, crlf); }
    EndsInLF(t);
    if r == [] {
      assert t + [] == t;
      AtRemainder(t, start, crlf);
      RemainderEnd(t, crlf);
    }
  }

  lemma PartText(s: bytes, start: bool, p: Part, r: bytes, crlf: bool)
    requires At(s, start, crlf) && PartOk(s, start, p, r, crlf)
    ensures s == p.text + (p.stop + r) && p.code != NONE
    ensures p.code == MP_EOF ==> p.stop + r == []
    ensures p.code == MP_EOR ==> FromEOL(p.stop) == Eol(crlf)
  {
    hide At, Uniform, Remainder, DotEnd, FromEOL;
    Regroup(p.text, p.stop, r);
  }

  lemma {:induction false} RemainderEnd(s: bytes, crlf: bool)
    requires Remainder(s, crlf) && s != []
    ensures s[|s| - 1] == LF
    decreases |s|
  {
    hide Remainder, Uniform, LineLeft;
    RemainderTail(s, crlf);
    if |s| > 1 {
      RemainderEnd(s[1..], crlf);
      assert s[1..][|s| - 2] == s[|s| - 1];
    }
  }

  // The line end of a part.
  lemma EolIs(p: Part, crlf: bool)
    requires p.text != [] && (p.code == MP_EOR ==> FromEOL(p.stop) == Eol(crlf))
    requires FromEOL(p.text) != [] ==> FromEOL(p.text)[0] == Eol(crlf)[0] || p.text[0] == LF
    ensures p.code == MP_EOR ==> EolOf(p) == Eol(crlf)
    ensures p.code != MP_EOR ==> (EolOf(p) == [] <==> FromEOL(p.text) == [])
    ensures p.code != MP_EOR && p.text[0] == LF ==> EolOf(p) == [LF]
    ensures EolOf(p) == [] || EolOf(p) == [LF] || EolOf(p) == Eol(crlf)
  {
    hide FromEOL;
    if p.text[0] == LF { FromLF(p.text); }
  }

  lemma FromLF(x: bytes)
    requires x != [] && x[0] == LF
    ensures FromEOL(x) == x
  {
  }

  /** A line end is supplied just when Supplies says so. */
  lemma SuppliedIs(s: bytes, start: bool, kind: Kind, p: Part, r: bytes, crlf: bool)
    requires At(s, start, crlf) && PartOk(s, start, p, r, crlf) && kind.Single?
    ensures Supplied(p) == if Supplies(kind, p, start) then EolOf(p) else []
    ensures Supplies(kind, p, start) ==> EolOf(p) == [LF] || EolOf(p) == [CR, LF]
  {
    hide At, Uniform, Remainder, DotEnd, FromEOL, EolOf, PartOk, EndsWith, Starts;
    if p.text != [] {
      PartText(s, start, p, r, crlf);
      TextIs(p.text, p.stop + r, start, crlf);
      EolIs(p, crlf);
      EolsEnd(p.text, crlf);
    }
  }

  lemma EolsEnd(t: bytes, crlf: bool)
    requires t != []
    ensures EndsWith(t, []) && (EndsWith(t, Eol(crlf)) ==> EndsWith(t, [LF]))
    ensures !EndsWith([LF], [CR, LF]) && EndsWith([LF], [LF])
  {
    if EndsWith(t, Eol(crlf)) {
      assert t[|t| - 1] == t[|t| - |Eol(crlf)|..][|Eol(crlf)| - 1];
    }
  }

  lemma PutIs(s: bytes, start: bool, kind: Kind, p: Part, r: bytes, crlf: bool)
    requires At(s, start, crlf) && PartOk(s, start, p, r, crlf)
    ensures !Supplies(kind, p, start) ==> PartPut(kind, p) == p.text + p.stop
    ensures Supplies(kind, p, start) ==>
              && (EolOf(p) == [LF] || EolOf(p) == [CR, LF])
              && PartPut(kind, p) == if p.code == MP_EOR then p.text + EolOf(p) + p.stop else p.text + p.stop + EolOf(p)
  {
    hide Uniform, Remainder, DotEnd, FromEOL, EolOf, PartOk, Supplied, Starts;
    if kind.Single? {
      SuppliedIs(s, start, kind, p, r, crlf);
      assert p.text + [] == p.text && p.text + p.stop + [] == p.text + p.stop;
    }
  }

  // --- blank lines -----------------------------------------------------------------------------

  function Eols(eol: bytes, n: nat): bytes { if n == 0 then [] else eol + Eols(eol, n - 1) }

  // Every blank line that text begins with, out begins with.
  ghost predicate BlanksKept(text: bytes, out: bytes) {
    forall eol, n: nat | (eol == [LF] || eol == [CR, LF]) && Eols(eol, n) <= text :: Eols(eol, n) <= out
  }

  lemma {:induction false} EolsLen(eol: bytes, n: nat)
    requires eol != []
    ensures |Eols(eol, n)| >= n
  {
    if n > 0 { EolsLen(eol, n - 1); }
  }

  // Behind a line end too many, what keeps the blank lines is never the text.
  lemma {:induction false} AllBlank(eol: bytes, text: bytes, more: bytes, d: nat, n: nat)
    requires eol == [LF] || eol == [CR, LF]
    requires BlanksKept(text, more) && d <= |text| && eol + more == text[..d]
    ensures Eols(eol, n) <= text
  {
    if n > 0 {
      AllBlank(eol, text, more, d, n - 1);
      var e := Eols(eol, n - 1);
      assert e <= more;
      assert eol + more == eol + e + more[|e|..];
      assert text == eol + e + (more[|e|..] + text[d..]) by { assert text == text[..d] + text[d..]; }
    }
  }

  lemma OneTooMany(eol: bytes, text: bytes, more: bytes, d: nat)
    requires (eol == [LF] || eol == [CR, LF]) && BlanksKept(text, more) && d <= |text|
    ensures eol + more != text[..d]
  {
    if eol + more == text[..d] {
      AllBlank(eol, text, more, d, |text| + 1);
      EolsLen(eol, |text| + 1);
    }
  }

  // A blank line is read as it is, and ends no part.
  lemma BlankLine(eol: bytes, n: nat, s: bytes)
    requires (eol == [LF] || eol == [CR, LF]) && n > 0 && Eols(eol, n) <= s
    ensures s != [] && ReadLine(s, LINESIZE - 2).text == eol && Eols(eol, n - 1) <= LineRest(s, LINESIZE - 2)
    ensures IsEOH(eol) && !IsEOR(eol) && |LineRest(s, LINESIZE - 2)| < |s| && LineRest(s, LINESIZE - 2) == s[|eol|..]
  {
    hide ReadLine, LineRest;
    var e, t := Eols(eol, n - 1), s[|eol|..];
    assert eol <= s && s == eol + t && e <= t by {
      assert s == eol + e + s[|eol + e|..];
      assert t == e + s[|eol + e|..];
    }
    LineStep(s, LINESIZE - 2);
    if eol == [CR, LF] {
      assert s[1..][1..] == t;
      LineStep(s[1..], LINESIZE - 3);
      assert [CR] + [LF] == eol;
    }
  }

  lemma PopBlank(eol: bytes, st: Stack)
    requires eol == [LF] || eol == [CR, LF]
    ensures Pop(st, eol, 0).code == NONE
  {
  }

  lemma {:induction false} BlankPart(eol: bytes, n: nat, s: bytes, st: Stack)
    requires (eol == [LF] || eol == [CR, LF]) && Eols(eol, n) <= s
    ensures Eols(eol, n) <= ReadPart(s, st).text
  {
    hide ReadPart, ReadLine, LineRest, Pop;
    if n > 0 {
      BlankLine(eol, n, s);
      PopBlank(eol, st);
      PartCases(s, st);
      var t := LineRest(s, LINESIZE - 2);
      BlankPart(eol, n - 1, t, st);
      PrefixBehind(eol, Eols(eol, n - 1), ReadPart(t, st).text);
    }
  }

  lemma {:induction false} BlankEpilogue(eol: bytes, n: nat, s: bytes)
    requires (eol == [LF] || eol == [CR, LF]) && Eols(eol, n) <= s
    ensures Eols(eol, n) <= Epilogue(s)
  {
    hide Epilogue, ReadLine, LineRest, IsEOR;
    if n > 0 {
      BlankLine(eol, n, s);
      EpilogueStep(s);
      var t := LineRest(s, LINESIZE - 2);
      BlankEpilogue(eol, n - 1, t);
      PrefixBehind(eol, Eols(eol, n - 1), Epilogue(t));
    }
  }

  lemma PrefixBehind(a: bytes, x: bytes, r: bytes)
    requires x <= r
    ensures a + x <= a + r
  {
    assert a + r == a + x + r[|x|..];
  }

  lemma BlankHeader(rules: Rules, eol: bytes, n: nat, s: bytes)
    requires (eol == [LF] || eol == [CR, LF]) && n > 0 && Eols(eol, n) <= s
    ensures var h := ReadHeader(rules, s, HEADSIZE);
            h.text == eol && !h.eor && h.fields == [] && s[h.used..] == s[|eol|..] && Eols(eol, n - 1) <= s[h.used..]
  {
    hide ReadHeader, ReadLine, ReadMore, ReadField, IsEOR, IsEOH;
    BlankLine(eol, n, s);
    FieldStep(s);
    HeaderCases(rules, s, HEADSIZE);
  }

  lemma BlankOutput(rules: Rules, eol: bytes, n: nat, s: bytes, st: Stack)
    requires (eol == [LF] || eol == [CR, LF]) && Eols(eol, n) <= s
    ensures Eols(eol, n) <= Output(rules, s, st)
  {
    hide Output, ReadHeader, ReadPart, After, Pushed, Supplied;
    if n > 0 {
      BlankHeader(rules, eol, n, s);
      var h := ReadHeader(rules, s, HEADSIZE);
      var st1 := Pushed(st, rules.kind(h.fields));
      var p, e := ReadPart(s[h.used..], st1), Eols(eol, n - 1);
      BlankPart(eol, n - 1, s[h.used..], st1);
      OutputIs(rules, s, st, []);
      assert [] + Output(rules, s, st) == Output(rules, s, st) && [] + h.text == eol;
      var put := PartPut(rules.kind(h.fields), p);
      PutText(rules.kind(h.fields), p);
      PrefixBehind(eol, e, put);
    }
  }

  lemma PutText(kind: Kind, p: Part)
    ensures p.text <= PartPut(kind, p)
  {
    hide Supplied;
  }

  // --- whole messages ------------------------------------------------------------------------

  /** A place at which a header is read: the rest of the message, the boundaries then, and
      whether it is the start of a line. */
  datatype Place = Place(s: bytes, st: Stack, start: bool)

  // Behind a part: is it the start of a line?
  predicate Behind(p: Part, start: bool) { Starts(p.text + p.stop, start) }

  // The place of the header behind a part, if there is one.
  function Following(rules: Rules, x: Place): (next: seq<Place>)
    ensures |next| <= 1 && (next != [] ==> |next[0].s| < |x.s|)
  {
    var h := ReadHeader(rules, x.s, HEADSIZE);
    var p := ReadPart(x.s[h.used..], Pushed(x.st, rules.kind(h.fields)));
    if h.eor || p.code != MP_EOC then []
    else [Place(x.s[h.used..][p.used..], p.stack, Behind(p, HeadWhole(rules, x.s, HEADSIZE, x.start)))]
  }

  /** The places in the message at which headers are read. */
  function Headers(rules: Rules, s: bytes, st: Stack, start: bool): seq<Place>
    decreases |s|
  {
    var next := Following(rules, Place(s, st, start));
    [Place(s, st, start)] + (if next == [] then [] else Headers(rules, next[0].s, next[0].st, next[0].start))
  }

  // No header needs a date rewritten.
  predicate Dated(rules: Rules, s: bytes) { DatesKept(rules, s, HEADSIZE) }

  /** No line end is supplied to the part, and no piece that begins inside a line is taken for the
      dot line, with more of the message behind it. */
  predicate PartSound(kind: Kind, p: Part, next: bytes, start: bool) {
    !Supplies(kind, p, start) && (p.code == MP_EOR && !Starts(p.text, start) ==> next == [])
  }

  // The same of an epilogue.
  predicate EpilogueSound(s: bytes, start: bool)
    decreases |s|
  {
    var g, t := ReadLine(s, LINESIZE - 2).text, LineRest(s, LINESIZE - 2);
    g == [] || (if IsEOR(g) then start || t == [] else |t| < |s| && EpilogueSound(t, Starts(g, start)))
  }

  /** The same of the header that is read at a place, of its part, and of the epilogue that may
      follow it. */
  predicate Sound(rules: Rules, x: Place) {
    var h := ReadHeader(rules, x.s, HEADSIZE);
    var r, kind := x.s[h.used..], rules.kind(h.fields);
    var p := ReadPart(r, Pushed(x.st, kind));
    var whole := HeadWhole(rules, x.s, HEADSIZE, x.start);
    if h.eor then whole || r == []
    else PartSound(kind, p, r[p.used..], whole) && (p.code == MP_EOP ==> EpilogueSound(r[p.used..], Behind(p, whole)))
  }

  /** The output is all of the message up to its end exactly when `all` holds. */
  predicate Copied(s: bytes, start: bool, out: bytes, all: bool) { out == s[..DotEnd(s, start)] <==> all }

  // Behind what has been put, the copy is exact when the rest is.
  lemma CopiedBehind(s: bytes, start: bool, put: bytes, next: bytes, at: bool, more: bytes, all: bool)
    requires s == put + next && DotEnd(s, start) == |put| + DotEnd(next, at) && Copied(next, at, more, all)
    ensures Copied(s, start, put + more, all)
  {
    hide DotEnd;
    var n := DotEnd(next, at);
    assert s[..|put| + n] == put + next[..n];
    assert put + more == put + next[..n] ==> (put + more)[|put|..] == (put + next[..n])[|put|..];
  }

  // Another length, another output.
  lemma CopiedNot(s: bytes, start: bool, out: bytes)
    requires |out| != DotEnd(s, start)
    ensures Copied(s, start, out, false)
  {
    hide DotEnd;
  }

  lemma CopiedTo(s: bytes, start: bool, put: bytes, next: bytes)
    requires s == put + next && DotEnd(s, start) == |put|
    ensures Copied(s, start, put, true)
  {
    hide DotEnd;
  }

  // The end of the output, where the message ends or a piece of a line was taken for its end.
  lemma CopiedEnd(s: bytes, start: bool, put: bytes, next: bytes, at: bool, ends: bool)
    requires s == put + next && DotEnd(s, start) == |put| + (if ends then 0 else DotEnd(next, at))
    ensures Copied(s, start, put, ends || next == [])
  {
    hide DotEnd;
    DotSome(next, at);
    if ends || next == [] { CopiedTo(s, start, put, next); } else { CopiedNot(s, start, put); }
  }

  lemma DotSome(s: bytes, start: bool)
    ensures DotEnd(s, start) == 0 <==> s == []
  {
  }

  // A line end in front of the dot, or behind a boundary line, is in no copy.
  lemma CopiedWith(s: bytes, start: bool, text: bytes, eol: bytes, stop: bytes, r: bytes)
    requires s == text + (stop + r) && stop != [] && eol != [] && stop[0] != eol[0]
    requires DotEnd(s, start) >= |text| + |stop|
    ensures Copied(s, start, text + eol + stop, false)
  {
    hide DotEnd;
    var out := text + eol + stop;
    assert out[|text|] == eol[0] && s[..DotEnd(s, start)][|text|] == stop[0];
  }

  lemma CopiedMore(s: bytes, start: bool, put: bytes, eol: bytes, next: bytes, at: bool, more: bytes)
    requires s == put + next && DotEnd(s, start) == |put| + DotEnd(next, at)
    requires (eol == [LF] || eol == [CR, LF]) && BlanksKept(next, more)
    ensures Copied(s, start, put + eol + more, false)
  {
    hide DotEnd;
    OneTooMany(eol, next, more, DotEnd(next, at));
    assert Copied(next, at, eol + more, false);
    CopiedBehind(s, start, put, next, at, eol + more, false);
    Regroup(put, eol, more);
  }

  lemma CopiedHeader(s: bytes, start: bool, h: Header, r: bytes, whole: bool, crlf: bool)
    requires h.eor && HeaderOk(s, start, h, r, whole, crlf)
    ensures Copied(s, start, h.text, whole || r == [])
  {
    hide Uniform, Remainder, DotEnd, Copied;
    CopiedEnd(s, start, h.text, r, true, whole);
  }

  // What is known of what is put behind a part.
  ghost predicate MoreOk(p: Part, next: bytes, at: bool, more: bytes, all: bool) {
    if p.code == MP_EOC || p.code == MP_EOP then Copied(next, at, more, all) && BlanksKept(next, more)
    else more == [] && all
  }

  // The header in front of its part.
  lemma HeadAndPart(s: bytes, start: bool, h: Header, r: bytes, whole: bool, p: Part, next: bytes, crlf: bool)
    requires !h.eor && HeaderOk(s, start, h, r, whole, crlf) && PartOk(r, whole, p, next, crlf)
    ensures var put := h.text + (p.text + p.stop);
            s == put + next && s == (h.text + p.text) + (p.stop + next)
            && DotEnd(s, start) == |put|
                 + (if p.code == MP_EOR && Starts(p.text, whole) then 0 else DotEnd(next, Behind(p, whole)))
    ensures p.code == MP_EOF ==> next == []
    ensures p.code == MP_EOR ==> p.stop != [] && p.stop[0] == DOT
  {
    hide Uniform, Remainder, DotEnd, FromEOL, Starts;
    Regroup(h.text, p.text + p.stop, next);
    Regroup(p.text, p.stop, next);
    Regroup(h.text, p.text, p.stop + next);
  }

  // A part to which nothing is supplied.
  lemma CopiedPlain(s: bytes, start: bool, put: bytes, p: Part, whole: bool, next: bytes, more: bytes, all: bool)
    requires s == put + next && p.code != NONE && (p.code == MP_EOF ==> next == [])
    requires DotEnd(s, start) == |put|
               + (if p.code == MP_EOR && Starts(p.text, whole) then 0 else DotEnd(next, Behind(p, whole)))
    requires MoreOk(p, next, Behind(p, whole), more, all)
    ensures Copied(s, start, put + more, all && (p.code == MP_EOR && !Starts(p.text, whole) ==> next == []))
  {
    hide DotEnd, Copied, Starts, Behind, BlanksKept;
    if p.code == MP_EOC || p.code == MP_EOP {
      CopiedBehind(s, start, put, next, Behind(p, whole), more, all);
    } else {
      assert put + [] == put;
      CopiedEnd(s, start, put, next, Behind(p, whole), p.code == MP_EOR && Starts(p.text, whole));
    }
  }

  // A part to which a line end is supplied.
  lemma CopiedSupplied(s: bytes, start: bool, h: bytes, kind: Kind, p: Part, whole: bool, next: bytes,
                       more: bytes, all: bool)
    requires var put := h + (p.text + p.stop);
             s == put + next && s == (h + p.text) + (p.stop + next)
             && DotEnd(s, start) == |put|
                  + (if p.code == MP_EOR && Starts(p.text, whole) then 0 else DotEnd(next, Behind(p, whole)))
    requires p.code == MP_EOR ==> p.stop != [] && p.stop[0] == DOT
    requires MoreOk(p, next, Behind(p, whole), more, all) && Supplies(kind, p, whole)
    requires EolOf(p) == [LF] || EolOf(p) == [CR, LF]
    ensures var put := if p.code == MP_EOR then p.text + EolOf(p) + p.stop else p.text + p.stop + EolOf(p);
            Copied(s, start, h + put + more, false)
  {
    var eol := EolOf(p);
    var put := h + (p.text + p.stop);
    hide DotEnd, Copied, Starts, Behind, BlanksKept, EolOf, FromEOL;
    if p.code == MP_EOR {
      CopiedWith(s, start, h + p.text, eol, p.stop, next);
      var out := h + (p.text + eol + p.stop);
      assert out + [] == out == h + p.text + eol + p.stop;
    } else {
      CopiedMore(s, start, put, eol, next, Behind(p, whole), more);
      Regroup(h, p.text + p.stop, eol);
    }
  }

  lemma CopiedPart(s: bytes, start: bool, h: Header, r: bytes, whole: bool, kind: Kind, p: Part, next: bytes,
                   more: bytes, all: bool, crlf: bool)
    requires !h.eor && HeaderOk(s, start, h, r, whole, crlf) && PartOk(r, whole, p, next, crlf) && At(r, whole, crlf)
    requires MoreOk(p, next, Behind(p, whole), more, all)
    ensures Copied(s, start, h.text + PartPut(kind, p) + more, all && PartSound(kind, p, next, whole))
  {
    HeadAndPart(s, start, h, r, whole, p, next, crlf);
    PutIs(r, whole, kind, p, next, crlf);
    assert p.code != NONE;
    hide *;
    if Supplies(kind, p, whole) {
      assert !PartSound(kind, p, next, whole) by { NotSound(kind, p, next, whole); }
      CopiedSupplied(s, start, h.text, kind, p, whole, next, more, all);
    } else {
      CopiedPlain(s, start, h.text + (p.text + p.stop), p, whole, next, more, all);
      NotSound(kind, p, next, whole);
    }
  }

  lemma NotSound(kind: Kind, p: Part, next: bytes, start: bool)
    ensures PartSound(kind, p, next, start) <==>
              !Supplies(kind, p, start) && (p.code == MP_EOR && !Starts(p.text, start) ==> next == [])
  {
  }

  /** An epilogue is copied exactly unless a piece of one of its lines is taken for the dot line. */
  lemma {:induction false} EpilogueDots(s: bytes, start: bool, crlf: bool)
    requires At(s, start, crlf)
    ensures Copied(s, start, Epilogue(s), EpilogueSound(s, start))
    decreases |s|
  {
    hide Uniform, Remainder, DotEnd, ReadLine, LineRest, Epilogue, IsEOR, Piece, Copied, Starts;
    EpilogueStep(s);
    var g, t := ReadLine(s, LINESIZE - 2).text, LineRest(s, LINESIZE - 2);
    if s == [] {
      assert g == [];
      CopiedEnd(s, start, [], [], start, true);
    } else {
      LineDots(s, start, crlf);
      PiecePassed(s, start, g, t, crlf);
      PieceEnd(s, start, g, t, crlf);
      if IsEOR(g) {
        CopiedEnd(s, start, g, t, true, start);
      } else {
        EpilogueDots(t, Starts(g, start), crlf);
        CopiedBehind(s, start, g, t, Starts(g, start), Epilogue(t), EpilogueSound(t, Starts(g, start)));
      }
    }
  }

  lemma PieceEnd(s: bytes, start: bool, g: bytes, r: bytes, crlf: bool)
    requires Piece(s, start, g, r, crlf)
    ensures !IsEOR(g) ==> DotEnd(s, start) == |g| + DotEnd(r, Starts(g, start))
    ensures IsEOR(g) ==> DotEnd(s, start) == |g| + (if start then 0 else DotEnd(r, true))
  {
    hide Uniform, Remainder, DotEnd;
  }

  // At one place: what is put for it and, when it is, for what follows.
  lemma CopiedHere(rules: Rules, s: bytes, st: Stack, start: bool, more: bytes, all: bool, crlf: bool)
    requires At(s, start, crlf) && Dated(rules, s)
    ensures var h := ReadHeader(rules, s, HEADSIZE);
            var r, kind := s[h.used..], rules.kind(h.fields);
            var p := ReadPart(r, Pushed(st, kind));
            var next, whole := r[p.used..], HeadWhole(rules, s, HEADSIZE, start);
            && (h.eor ==> Copied(s, start, h.text, whole || r == []))
            && (!h.eor ==> At(next, Behind(p, whole), crlf) && p.code != NONE)
            && (!h.eor && MoreOk(p, next, Behind(p, whole), more, all) ==>
                  Copied(s, start, h.text + PartPut(kind, p) + more, all && PartSound(kind, p, next, whole)))
  {
    HeaderDots(rules, s, HEADSIZE, start, crlf);
    hide *;
    var h, whole := ReadHeader(rules, s, HEADSIZE), HeadWhole(rules, s, HEADSIZE, start);
    var r, kind := s[h.used..], rules.kind(h.fields);
    var p := ReadPart(r, Pushed(st, kind));
    var next := r[p.used..];
    HeaderRest(s, start, h, r, whole, crlf);
    if h.eor {
      CopiedHeader(s, start, h, r, whole, crlf);
    } else {
      PartDots(r, whole, Pushed(st, kind), crlf);
      PartRest(r, whole, p, next, crlf);
      if MoreOk(p, next, Behind(p, whole), more, all) {
        CopiedPart(s, start, h, r, whole, kind, p, next, more, all, crlf);
      }
    }
  }

  lemma HeaderRest(s: bytes, start: bool, h: Header, r: bytes, whole: bool, crlf: bool)
    requires HeaderOk(s, start, h, r, whole, crlf)
    ensures At(r, h.eor || whole, crlf)
  {
    hide Uniform, Remainder, DotEnd;
  }

  lemma PartRest(s: bytes, start: bool, p: Part, r: bytes, crlf: bool)
    requires PartOk(s, start, p, r, crlf)
    ensures At(r, Behind(p, start), crlf) && p.code != NONE
  {
    hide Uniform, Remainder, DotEnd;
  }

  predicate AllSound(rules: Rules, s: bytes, st: Stack, start: bool) {
    forall x | x in Headers(rules, s, st, start) :: Sound(rules, x)
  }

  predicate AllDated(rules: Rules, s: bytes, st: Stack, start: bool) {
    forall x | x in Headers(rules, s, st, start) :: Dated(rules, x.s)
  }

  // The first header and the ones that follow it.
  lemma AllIs(rules: Rules, x: Place)
    ensures var next := Following(rules, x);
            && (next == [] ==>
                  && (AllSound(rules, x.s, x.st, x.start) <==> Sound(rules, x))
                  && (AllDated(rules, x.s, x.st, x.start) <==> Dated(rules, x.s)))
            && (next != [] ==>
                  && (AllSound(rules, x.s, x.st, x.start) <==>
                        Sound(rules, x) && AllSound(rules, next[0].s, next[0].st, next[0].start))
                  && (AllDated(rules, x.s, x.st, x.start) <==>
                        Dated(rules, x.s) && AllDated(rules, next[0].s, next[0].st, next[0].start))
                  && |next[0].s| < |x.s|)
  {
    HeadersAre(rules, x);
    var next := Following(rules, x);
    hide *;
    AllMeans(rules, x.s, x.st, x.start);
    if next != [] { AllMeans(rules, next[0].s, next[0].st, next[0].start); }
  }

  lemma HeadersAre(rules: Rules, x: Place)
    ensures var next := Following(rules, x);
            Headers(rules, x.s, x.st, x.start) ==
            [x] + (if next == [] then [] else Headers(rules, next[0].s, next[0].st, next[0].start))
  {
    hide Following;
  }

  lemma FollowingIs(rules: Rules, x: Place)
    ensures var h := ReadHeader(rules, x.s, HEADSIZE);
            var p := ReadPart(x.s[h.used..], Pushed(x.st, rules.kind(h.fields)));
            Following(rules, x) ==
            if h.eor || p.code != MP_EOC then []
            else [Place(x.s[h.used..][p.used..], p.stack, Behind(p, HeadWhole(rules, x.s, HEADSIZE, x.start)))]
  {
    hide ReadHeader, ReadPart, Pushed, HeadWhole, Behind;
  }

  lemma AllMeans(rules: Rules, s: bytes, st: Stack, start: bool)
    ensures AllSound(rules, s, st, start) <==> forall x | x in Headers(rules, s, st, start) :: Sound(rules, x)
    ensures AllDated(rules, s, st, start) <==> forall x | x in Headers(rules, s, st, start) :: Dated(rules, x.s)
  {
  }

  lemma SoundIs(rules: Rules, x: Place)
    ensures var h := ReadHeader(rules, x.s, HEADSIZE);
            var r, kind := x.s[h.used..], rules.kind(h.fields);
            var p := ReadPart(r, Pushed(x.st, kind));
            var next, whole := r[p.used..], HeadWhole(rules, x.s, HEADSIZE, x.start);
            && (h.eor ==> (Sound(rules, x) <==> whole || r == []))
            && (!h.eor ==> (Sound(rules, x) <==>
                              PartSound(kind, p, next, whole)
                              && (p.code == MP_EOP ==> EpilogueSound(next, Behind(p, whole)))))
  {
    hide ReadHeader, ReadPart, Pushed, HeadWhole, PartSound, EpilogueSound, Behind;
  }

  lemma BlankMore(rules: Rules, code: Code, next: bytes, st: Stack)
    requires code == MP_EOC || code == MP_EOP
    ensures BlanksKept(next, After(rules, code, next, st))
  {
    hide Output, Epilogue, Eols;
    forall eol, n: nat | (eol == [LF] || eol == [CR, LF]) && Eols(eol, n) <= next
      ensures Eols(eol, n) <= After(rules, code, next, st)
    {
      if code == MP_EOC { BlankOutput(rules, eol, n, next, st); } else { BlankEpilogue(eol, n, next); }
    }
  }

  /** From any place in a message, with any boundaries. */
  lemma {:induction false} Relayed(rules: Rules, s: bytes, st: Stack, start: bool, crlf: bool)
    requires At(s, start, crlf) && AllDated(rules, s, st, start)
    ensures Copied(s, start, Output(rules, s, st), AllSound(rules, s, st, start))
    decreases |s|
  {
    AllIs(rules, Place(s, st, start));
    FollowingIs(rules, Place(s, st, start));
    OutputIs(rules, s, st, []);
    SoundIs(rules, Place(s, st, start));
    hide *;
    var h := ReadHeader(rules, s, HEADSIZE);
    var r, kind := s[h.used..], rules.kind(h.fields);
    var p := ReadPart(r, Pushed(st, kind));
    var next, at := r[p.used..], Behind(p, HeadWhole(rules, s, HEADSIZE, start));
    var more := After(rules, p.code, next, p.stack);
    var all := && (p.code == MP_EOC ==> AllSound(rules, next, p.stack, at))
               && (p.code == MP_EOP ==> EpilogueSound(next, at));
    CopiedHere(rules, s, st, start, more, all, crlf);
    if !h.eor {
      if p.code == MP_EOC { Relayed(rules, next, p.stack, at, crlf); }
      MoreHere(rules, p, next, at, crlf);
      PutSame(kind, p);
      assert [] + Output(rules, s, st) == Output(rules, s, st) && [] + h.text == h.text;
    }
  }

  // What is put behind a part.
  lemma MoreHere(rules: Rules, p: Part, next: bytes, at: bool, crlf: bool)
    requires At(next, at, crlf)
    requires p.code == MP_EOC ==> Copied(next, at, Output(rules, next, p.stack), AllSound(rules, next, p.stack, at))
    ensures MoreOk(p, next, at, After(rules, p.code, next, p.stack),
                   (p.code == MP_EOC ==> AllSound(rules, next, p.stack, at))
                   && (p.code == MP_EOP ==> EpilogueSound(next, at)))
  {
    AfterEnd(rules, p.code, next, p.stack);
    hide *;
    var more := After(rules, p.code, next, p.stack);
    var all := && (p.code == MP_EOC ==> AllSound(rules, next, p.stack, at))
               && (p.code == MP_EOP ==> EpilogueSound(next, at));
    if p.code == MP_EOC {
      AfterPart(rules, next, p.stack);
      BlankMore(rules, p.code, next, p.stack);
    } else if p.code == MP_EOP {
      EpilogueDots(next, at, crlf);
      BlankMore(rules, p.code, next, p.stack);
    }
    MoreIs(p, next, at, more, all);
  }

  lemma MoreIs(p: Part, next: bytes, at: bool, more: bytes, all: bool)
    ensures MoreOk(p, next, at, more, all) <==>
              if p.code == MP_EOC || p.code == MP_EOP then Copied(next, at, more, all) && BlanksKept(next, more)
              else more == [] && all
  {
  }

  lemma PutSame(kind: Kind, p: Part)
    ensures PartPut(kind, p) == if kind.Multipart? then p.text + p.stop else Body(p)
  {
  }

  /** A message of complete lines of one style, of any length, whose dates are canonical, is copied
      exactly, up to and including its dot line, whatever its parts are - just when in no header,
      part or epilogue a piece of a line is taken for the dot line, and no line end is supplied. */
  lemma Thru(rules: Rules, s: bytes, crlf: bool)
    requires Uniform(s, crlf) && forall x | x in Headers(rules, s, [], true) :: Dated(rules, x.s)
    ensures Output(rules, s, []) == s[..DotEnd(s, true)] <==>
            forall x | x in Headers(rules, s, [], true) :: Sound(rules, x)
  {
    hide Uniform, DotEnd, Output, Headers, Dated, Sound, AllSound, AllDated;
    AllMeans(rules, s, [], true);
    Relayed(rules, s, [], true, crlf);
  }

  // --- when fields are not cut -----------------------------------------------------------------

  // The length of the continuation lines at the front of s.
  function Folded(s: bytes): (n: nat)
    ensures n <= |s|
    decreases |s|
  {
    if Continues(s) then LineLen(s) + Folded(s[LineLen(s)..]) else 0
  }

  /** Every line fits the line buffer together with the continuation lines behind it. */
  predicate ShortFolds(s: bytes)
    decreases |s|
  {
    s == [] ||
    (LineLen(s) + Folded(s[LineLen(s)..]) <= LINESIZE - 2 && ShortFolds(s[LineLen(s)..]))
  }

  lemma FoldedStep(s: bytes)
    ensures Continues(s) ==> Folded(s) == LineLen(s) + Folded(s[LineLen(s)..])
    ensures ShortFolds(s) && s != [] ==> ShortFolds(s[LineLen(s)..])
  {
  }

  // A continuation line that fits.
  lemma MoreShort(s: bytes, rem: nat, crlf: bool)
    requires Uniform(s, crlf) && rem > 80 && Continues(s) && LineLen(s) <= rem - 2
    ensures var n := LineLen(s);
            var r := s[n..];
            && Starts(s[..n], true) && Uniform(r, crlf) && |r| < |s|
            && ReadMore(s, rem).text == s[..n] + ReadMore(r, rem - n).text
            && MoreRest(s, rem) == MoreRest(r, rem - n)
  {
    hide Uniform, ReadLine, ReadMore, LineRest, MoreRest, LineLen, Starts, Remainder, DotEnd;
    MoreStep(s, rem);
    MoreFirst(s, rem, crlf);
    var n := LineLen(s);
    var a := [s[0]] + ReadLine(s[1..], rem - 3).text;
    assert s == a + s[n..];
    assert s[..n] == a;
  }

  lemma MoreCases(s: bytes, rem: nat, crlf: bool)
    requires Uniform(s, crlf) && ShortFolds(s) && Folded(s) + 2 <= rem
    ensures var n := LineLen(s);
            var r := s[n..];
            if rem > 80 && Continues(s) then
              && |r| < |s| && n <= rem && Starts(s[..n], true)
              && Uniform(r, crlf) && ShortFolds(r) && Folded(r) + 2 <= rem - n
              && ReadMore(s, rem).text == s[..n] + ReadMore(r, rem - n).text && MoreRest(s, rem) == MoreRest(r, rem - n)
            else ReadMore(s, rem).text == [] && MoreRest(s, rem) == s
  {
    hide Uniform, ReadLine, ReadMore, LineRest, MoreRest, LineLen, Starts, Folded, ShortFolds;
    FoldedStep(s);
    if rem > 80 && Continues(s) { MoreShort(s, rem, crlf); } else { MoreStep(s, rem); }
  }

  lemma {:induction false} MoreWhole(s: bytes, rem: nat, crlf: bool)
    requires Uniform(s, crlf) && ShortFolds(s) && Folded(s) + 2 <= rem
    ensures Starts(ReadMore(s, rem).text, true) && ShortFolds(MoreRest(s, rem))
    decreases |s|
  {
    hide *;
    MoreCases(s, rem, crlf);
    var n := LineLen(s);
    if rem > 80 && Continues(s) {
      MoreWhole(s[n..], rem - n, crlf);
      StartsBoth(s[..n], ReadMore(s[n..], rem - n).text, true);
    } else {
      StartsNone();
    }
  }

  lemma StartsNone()
    ensures Starts([], true)
  {
  }

  lemma FieldWhole(s: bytes, crlf: bool)
    requires Uniform(s, crlf) && ShortFolds(s) && s != []
    ensures Starts(ReadField(s).text, true) && ShortFolds(FieldRest(s))
  {
    hide Uniform, ReadLine, ReadMore, LineRest, MoreRest, Piece, IsEOH, IsEOR, Folded, Starts, ShortFolds;
    ShortLine(s, crlf);
    FieldStep(s);
    SameRest(s);
    var l, t := ReadLine(s, LINESIZE - 2).text, LineRest(s, LINESIZE - 2);
    if !IsEOH(l) && !IsEOR(l) {
      MoreWhole(t, LINESIZE - |l|, crlf);
      StartsBoth(l, ReadMore(t, LINESIZE - |l|).text, true);
    }
  }

  // The first line is read whole.
  lemma ShortLine(s: bytes, crlf: bool)
    requires Uniform(s, crlf) && ShortFolds(s) && s != []
    ensures var g, t := ReadLine(s, LINESIZE - 2).text, LineRest(s, LINESIZE - 2);
            && g != [] && s == g + t && |t| < |s| && Starts(g, true) && |g| + Folded(t) <= LINESIZE - 2
            && Uniform(t, crlf) && ShortFolds(t)
  {
    hide Uniform, ReadLine, LineRest, Piece, Folded, ShortFolds, DotEnd, Starts;
    ShortFirst(s);
    LineDots(s, true, crlf);
    PiecePassed(s, true, ReadLine(s, LINESIZE - 2).text, LineRest(s, LINESIZE - 2), crlf);
    RemainderAt(s, crlf);
    PieceStarts(s, LineLen(s), true);
  }

  lemma RemainderAt(s: bytes, crlf: bool)
    requires Uniform(s, crlf) && s != []
    ensures s[LineLen(s) - 1] == LF
  {
    UniformLeft(s, crlf);
    RemainderTail(s, crlf);
  }

  lemma ShortFirst(s: bytes)
    requires ShortFolds(s) && s != []
    ensures LineLen(s) + Folded(s[LineLen(s)..]) <= LINESIZE - 2 && ShortFolds(s[LineLen(s)..])
  {
  }

  lemma WholeCases(rules: Rules, s: bytes, rem: int, start: bool)
    ensures var g := ReadField(s).text;
            HeadWhole(rules, s, rem, start) ==
            if rem <= LINESIZE || g == [] || IsEOR(g) then start
            else IsEOH(g) || HeadWhole(rules, FieldRest(s), rem - |Canon(rules, g)|, Starts(g, start))
  {
    hide ReadField, IsEOR, IsEOH, Canon, Starts;
  }

  lemma {:induction false} HeaderWhole(rules: Rules, s: bytes, rem: int, crlf: bool)
    requires Uniform(s, crlf) && ShortFolds(s)
    ensures HeadWhole(rules, s, rem, true)
    ensures var r := s[ReadHeader(rules, s, rem).used..]; Uniform(r, crlf) && ShortFolds(r)
    decreases |s|
  {
    HeaderCases(rules, s, rem);
    WholeCases(rules, s, rem, true);
    FieldRestIs(s);
    hide *;
    var h, g := ReadHeader(rules, s, rem), ReadField(s).text;
    if s == [] || rem <= LINESIZE {
      assert s == [] ==> s[h.used..] == [] && g == [];
    } else {
      AtStart(s, crlf);
      FieldDots(s, true, crlf);
      FieldWhole(s, crlf);
      PiecePassed(s, true, g, FieldRest(s), crlf);
      AtStart(FieldRest(s), crlf);
      if !IsEOR(g) && !IsEOH(g) {
        HeaderWhole(rules, FieldRest(s), rem - |Canon(rules, g)|, crlf);
      }
    }
  }

  lemma FieldRestIs(s: bytes)
    ensures FieldRest(s) == s[ReadField(s).used..]
  {
  }

  // No part begins or ends inside a line.
  lemma {:induction false} PartShort(s: bytes, st: Stack, crlf: bool)
    requires Uniform(s, crlf) && ShortFolds(s)
    ensures var p := ReadPart(s, st);
            var r := s[p.used..];
            Starts(p.text, true) && Behind(p, true) && Uniform(r, crlf) && ShortFolds(r)
    decreases |s|
  {
    hide Uniform, ReadPart, ReadLine, LineRest, ShortFolds, Pop, Starts;
    PartCases(s, st);
    StartsNone();
    var p, g, t := ReadPart(s, st), ReadLine(s, LINESIZE - 2).text, LineRest(s, LINESIZE - 2);
    assert [] + g == g;
    if s == [] {
      assert s[p.used..] == [];
    } else {
      ShortLine(s, crlf);
      if Pop(st, g, 0).code == NONE {
        PartShort(t, st, crlf);
        var next := ReadPart(t, st);
        StartsBoth(g, next.text, true);
        StartsBoth(g, next.text + next.stop, true);
        Regroup(g, next.text, next.stop);
      }
    }
  }

  lemma {:induction false} EpilogueShort(s: bytes, crlf: bool)
    requires Uniform(s, crlf) && ShortFolds(s)
    ensures EpilogueSound(s, true)
    decreases |s|
  {
    hide Uniform, ReadLine, LineRest, ShortFolds, Starts, IsEOR;
    if s == [] {
      assert ReadLine(s, LINESIZE - 2).text == [];
    } else {
      ShortLine(s, crlf);
      EpilogueShort(LineRest(s, LINESIZE - 2), crlf);
    }
  }

  // To a part of whole lines nothing is supplied.
  lemma ShortPart(s: bytes, kind: Kind, p: Part, r: bytes, crlf: bool)
    requires Uniform(s, crlf) && PartOk(s, true, p, r, crlf) && Starts(p.text, true)
    ensures PartSound(kind, p, r, true)
  {
    hide Uniform, Remainder, DotEnd, FromEOL, Starts;
    if p.text == [LF] { StartLF(s, crlf); }
  }

  lemma {:induction false} ShortSound(rules: Rules, s: bytes, st: Stack, crlf: bool)
    requires Uniform(s, crlf) && ShortFolds(s)
    ensures AllSound(rules, s, st, true)
    decreases |s|
  {
    AllIs(rules, Place(s, st, true));
    FollowingIs(rules, Place(s, st, true));
    SoundIs(rules, Place(s, st, true));
    hide *;
    HeaderWhole(rules, s, HEADSIZE, crlf);
    var h := ReadHeader(rules, s, HEADSIZE);
    var r, kind := s[h.used..], rules.kind(h.fields);
    var st1 := Pushed(st, kind);
    var p := ReadPart(r, st1);
    PartShort(r, st1, crlf);
    AtStart(r, crlf);
    PartDots(r, true, st1, crlf);
    ShortPart(r, kind, p, r[p.used..], crlf);
    if !h.eor && p.code == MP_EOC {
      ShortSound(rules, r[p.used..], p.stack, crlf);
    } else if p.code == MP_EOP {
      EpilogueShort(r[p.used..], crlf);
    }
  }

  lemma AtStart(s: bytes, crlf: bool)
    ensures At(s, true, crlf) <==> Uniform(s, crlf)
  {
  }

  /** When every line fits the buffer with its continuation lines, the copy is exact. */
  lemma ThruShort(rules: Rules, s: bytes, crlf: bool)
    requires Uniform(s, crlf) && ShortFolds(s)
    requires forall x | x in Headers(rules, s, [], true) :: Dated(rules, x.s)
    ensures Output(rules, s, []) == s[..DotEnd(s, true)]
  {
    hide Uniform, DotEnd, Output, Headers, Dated, ShortFolds, Sound, AllSound, AllDated;
    ShortSound(rules, s, [], crlf);
    AllMeans(rules, s, [], true);
    Thru(rules, s, crlf);
  }
}
