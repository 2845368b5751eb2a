/** The header encoder of delegate/mimekit/mimehead.cpp on headers of plain 7-bit text:
    `EN_FGETC`, `EN_FPUTC`, `noencode_word`, `MIME_headerEncode0X`, `MIME_headerEncodeX`.
    On such a header no word is encoded, so the folding that follows encoded words is off. */
module HeaderEncoder {
  import opened Bytes
  import opened HeaderText
  import opened PushBack
  import opened Sequences

  const MAXCOL: nat := 72
  const MAX_LNSIZE: nat := 1024

  // --- what the encoder is asked to encode ----------------------------------------------

  predicate PlainChar(ch: Ch) { 0 < ch < 128 && ch != ESC as int }

  predicate PlainAfter(ch: Ch, t: bytes, crlf: bool)
    decreases |t|, 1
  {
    if BlankLine(ch, t) then InStyle(t, crlf) else PlainHeader(t, crlf)
  }

  /** The header of s is plain: 7-bit bytes other than NUL and ESC, with line ends of one
      style, up to and including the blank line or the end of the stream. */
  predicate PlainHeader(s: bytes, crlf: bool)
    decreases |s|, 0
  {
    s == [] ||
    (InStyle(s, crlf) && PlainChar(ReadCh(s).ch) && PlainAfter(ReadCh(s).ch, s[ReadCh(s).used..], crlf))
  }

  // What follows the blank line.
  function BodyAfter(ch: Ch, t: bytes): (b: bytes)
    ensures |b| <= |t|
    decreases |t|, 1
  {
    if BlankLine(ch, t) then t[ReadCh(t).used..] else Body(t)
  }

  function Body(s: bytes): (b: bytes)
    ensures |b| <= |s|
    decreases |s|, 0
  {
    if s == [] then [] else BodyAfter(ReadCh(s).ch, s[ReadCh(s).used..])
  }

  // --- copying the body -----------------------------------------------------------------

  // What `fgets` puts in a line buffer, and what `fputs` puts of it: text up to a NUL.
  function FgetsLen(s: bytes, max: nat): (n: nat)
    ensures n <= |s| && n <= max && (s != [] && max > 0 ==> n > 0)
  {
    if s == [] || max == 0 then 0
    else if s[0] == LF then 1
    else 1 + FgetsLen(s[1..], max - 1)
  }

  function UpToNul(s: bytes): (t: bytes)
    ensures |t| <= |s|
  {
    if s == [] || s[0] == NUL then [] else [s[0]] + UpToNul(s[1..])
  }

  function BodyCopy(s: bytes): (t: bytes)
    ensures |t| <= |s|
    decreases |s|
  {
    if s == [] then []
    else
      var n := FgetsLen(s, MAX_LNSIZE - 1);
      UpToNul(s[..n]) + BodyCopy(s[n..])
  }

  lemma {:induction false} UpToNulAll(s: bytes)
    ensures |UpToNul(s)| == |s| <==> NUL !in s
    ensures NUL !in s ==> UpToNul(s) == s
  {
    if s != [] {
      UpToNulAll(s[1..]);
    }
  }

  /** The body is copied exactly when it has no NUL byte. */
  lemma {:induction false} BodyCopied(s: bytes)
    ensures BodyCopy(s) == s <==> NUL !in s
    ensures |BodyCopy(s)| == |s| <==> NUL !in s
    decreases |s|
  {
    if s != [] {
      var n := FgetsLen(s, MAX_LNSIZE - 1);
      assert s == s[..n] + s[n..];
      UpToNulAll(s[..n]);
      BodyCopied(s[n..]);
    }
  }

  // Without a line feed all of the text is taken, as far as it fits; with one, up to it.
  lemma {:induction false} FgetsIs(a: bytes, rest: bytes, max: nat)
    requires LF !in a && |a| <= max && (|a| < max ==> rest != [] && rest[0] == LF)
    ensures FgetsLen(a + rest, max) == if |a| == max then max else |a| + 1
    decreases |a|
  {
    if a == [] {
      assert a + rest == rest;
    } else {
      assert (a + rest)[1..] == a[1..] + rest;
      FgetsIs(a[1..], rest, max - 1);
    }
  }

  lemma {:induction false} UpToNulIs(a: bytes, b: bytes)
    requires NUL !in a
    ensures UpToNul(a + [NUL] + b) == a
  {
    if a == [] {
      assert a + [NUL] + b == [NUL] + b;
    } else {
      assert (a + [NUL] + b)[1..] == a[1..] + [NUL] + b;
      UpToNulIs(a[1..], b);
    }
  }

  /** What a NUL byte costs: all from it to the end of its line, or of the piece of 1023 bytes of
      the line that it stands in. */
  lemma NulCosts(a: bytes, b: bytes, rest: bytes)
    requires NUL !in a && LF !in a && LF !in b && |a| + |b| + 1 <= 1023
    ensures |a| + |b| + 1 < 1023 ==> BodyCopy(a + [NUL] + b + [LF] + rest) == a + BodyCopy(rest)
    ensures |a| + |b| + 1 == 1023 ==> BodyCopy(a + [NUL] + b + rest) == a + BodyCopy(rest)
  {
    hide FgetsLen, UpToNul;
    var l := a + [NUL] + b;
    assert LF !in l;
    if |l| < 1023 {
      FgetsIs(l, [LF] + rest, 1023);
      UpToNulIs(a, b + [LF]);
      var s := l + ([LF] + rest);
      assert s == a + [NUL] + b + [LF] + rest;
      assert s[..|l| + 1] == a + [NUL] + (b + [LF]) && s[|l| + 1..] == rest;
    } else {
      FgetsIs(l, rest, 1023);
      UpToNulIs(a, b);
      assert (l + rest)[..|l|] == l && (l + rest)[|l|..] == rest;
    }
  }

  /** What the encoder makes of a stream with a plain header. */
  function Encoded(s: bytes): bytes {
    s[..|s| - |Body(s)|] + BodyCopy(Body(s))
  }

  lemma {:induction false} BodySuffix(s: bytes)
    ensures s[|s| - |Body(s)|..] == Body(s)
    decreases |s|, 0
  {
    if s != [] {
      var t := s[ReadCh(s).used..];
      BodyAfterSuffix(ReadCh(s).ch, t);
      assert s[|s| - |Body(s)|..] == t[|t| - |Body(s)|..];
    }
  }

  lemma {:induction false} BodyAfterSuffix(ch: Ch, t: bytes)
    ensures t[|t| - |BodyAfter(ch, t)|..] == BodyAfter(ch, t)
    decreases |t|, 1
  {
    if !BlankLine(ch, t) { BodySuffix(t); }
  }

  /** The encoder changes nothing in a message with a plain header, whatever the words, runs of
      blanks and blanks at line ends are - unless there is a NUL byte in the body. */
  lemma EncodedIsIdentity(s: bytes)
    ensures Encoded(s) == s <==> NUL !in Body(s)
  {
    var b := Body(s);
    BodySuffix(s);
    BodyCopied(b);
    assert s == s[..|s| - |b|] + b;
  }

  /** A message "A", a blank line and a body with NUL in front loses its body. */
  lemma NulLosesLine()
    ensures Encoded([65, LF, LF, NUL, 66, LF]) == [65, LF, LF]
  {
    var s, t, u, b := [65, LF, LF, NUL, 66, LF], [LF, LF, NUL, 66, LF], [LF, NUL, 66, LF], [NUL, 66, LF];
    assert s[1..] == t && t[1..] == u && u[1..] == b;
    assert Body(s) == BodyAfter(65, t) == Body(t) == BodyAfter(NL, u) == b;
    assert b[1..] == [66, LF] && b[1..][1..] == [LF];
    assert FgetsLen(b, MAX_LNSIZE - 1) == 3 && b[3..] == [];
    assert s[..3] == [65, LF, LF];
  }

  // --- the program ------------------------------------------------------------------------

  function Held(pending: Ch): bytes {
    if pending == 0 then [] else Raw(pending, false)
  }

  class Encoder {
    const input: Stream
    const pushed: RRBuff<CharX>
    var output: bytes
    var pending: Ch            // white space held back (PENDING_LWSP), or 0

    constructor (s: bytes, endCRLF: bool)
      ensures Valid() && fresh(input) && fresh(pushed) && fresh(pushed.buff)
      ensures input.rest == s && output == [] && pending == 0 && pushed.Contents() == []
    {
      input := new Stream(s, endCRLF);
      pushed := new RRBuff<CharX>(CharX(0, M_US_ASCII));
      output, pending := [], 0;
    }

    ghost predicate Valid()
      reads this, pushed, pushed.buff
    {
      Shallow() && (pending == 0 || IsLWSP(pending))
    }

    // At most one character is pushed back.
    ghost predicate Shallow()
      reads pushed, pushed.buff
    {
      pushed.Valid() && |pushed.Contents()| <= 1
    }

    // The bytes still to be read, with the character pushed back.
    ghost function Ahead(crlf: bool): bytes
      reads input, pushed, pushed.buff
      requires Shallow()
    {
      (if pushed.Contents() == [] then [] else Raw(pushed.Contents()[0].ch, crlf)) + input.rest
    }

    // A plain header lies ahead.
    ghost predicate PlainAhead(crlf: bool)
      reads input, pushed, pushed.buff
      requires Shallow()
    {
      if pushed.Contents() == [] then PlainHeader(input.rest, crlf)
      else
        var c := pushed.Contents()[0].ch;
        if c == EOF then input.rest == []
        else PlainChar(c) && PlainAfter(c, input.rest, crlf) && (c == NL ==> input.endCRLF == crlf)
    }

    // The next character is plain, whatever comes after it.
    ghost predicate NextPlain(crlf: bool)
      reads input, pushed, pushed.buff
      requires Shallow()
    {
      if pushed.Contents() == [] then
        input.rest == [] || (InStyle(input.rest, crlf) && PlainChar(ReadCh(input.rest).ch))
      else PlainAhead(crlf)
    }

    lemma PlainNext(crlf: bool)
      requires Shallow() && PlainAhead(crlf)
      ensures NextPlain(crlf)
    {
    }

    ghost function BodyAhead(): bytes
      reads input, pushed, pushed.buff
      requires Shallow()
    {
      if pushed.Contents() == [] then Body(input.rest)
      else if pushed.Contents()[0].ch == EOF then []
      else BodyAfter(pushed.Contents()[0].ch, input.rest)
    }

    /** `EN_FGETC`: the character pushed back, or the next one of the stream. */
    method Fgetc(ghost crlf: bool) returns (c: CharX)
      requires Valid() && NextPlain(crlf)
      modifies input, pushed
      ensures Valid() && pushed.Contents() == []
      ensures Raw(c.ch, crlf) + input.rest == old(Ahead(crlf))
      ensures c.ch == EOF ==>
                && input.rest == [] && old(Ahead(crlf)) == [] == Ahead(crlf)
                && PlainAhead(crlf) && BodyAhead() == [] == old(BodyAhead())
      ensures c.ch != EOF ==>
                && PlainChar(c.ch)
                && (old(PlainAhead(crlf)) ==> PlainAfter(c.ch, input.rest, crlf))
                && BodyAfter(c.ch, input.rest) == old(BodyAhead())
      ensures c.ch == NL ==> input.endCRLF == crlf
      ensures old(pushed.Contents()) == [] && old(input.rest) != [] ==>
                c.ch == ReadCh(old(input.rest)).ch && input.rest == old(input.rest)[ReadCh(old(input.rest)).used..]
      ensures c.ch != NL ==> input.endCRLF == old(input.endCRLF)
    {
      var got;
      got, c := pushed.Get(CharX(0, M_US_ASCII));
      if got { return; }
      ghost var s := input.rest;
      if s != [] { RawRead(s, crlf); }
      var ch := input.NLfgetc();
      c := CharX(ch, M_US_ASCII);
    }

    /** `EN_UNGETC`. */
    method Ungetc(c: CharX)
      requires Valid() && pushed.Contents() == []
      modifies pushed, pushed.buff
      ensures Valid() && pushed.Contents() == [c]
    {
      pushed.Unget(c);
    }

    /** `EN_FPUTC` in plain text: white space is held back until the next character. */
    method Fputc(ch: Ch, ghost crlf: bool)
      requires Valid() && (PlainChar(ch) || ch == EOF) && (ch == NL ==> input.endCRLF == crlf)
      modifies this
      ensures Valid() && output + Held(pending) == old(output + Held(pending)) + Raw(ch, crlf)
      ensures ch == NL || ch == EOF ==> pending == 0
    {
      if pending != 0 {
        output := output + input.Put(pending);
        pending := 0;
      }
      if IsLWSP(ch) {
        pending := ch;
      } else if ch != EOF {
        output := output + input.Put(ch);
      }
    }

    /** `noencode_word`: a word of at most 73 characters, a run of one blank, or a line end,
        with the look-ahead that recognises the blank line. */
    method NoencodeWord(ghost crlf: bool) returns (ch: Ch)
      requires Valid() && PlainAhead(crlf)
      modifies this, input, pushed, pushed.buff
      ensures Valid()
      ensures ch != NLNL ==>
                && PlainAhead(crlf) && BodyAhead() == old(BodyAhead())
                && output + Held(pending) + Ahead(crlf) == old(output + Held(pending) + Ahead(crlf))
                && (ch != EOF ==> |Ahead(crlf)| < old(|Ahead(crlf)|))
                && (ch == EOF ==> Ahead(crlf) == [])
      ensures ch == NLNL ==>
                && input.rest == old(BodyAhead()) && input.endCRLF == crlf && pending == 0
                && output + Raw(NL, crlf) + input.rest == old(output + Held(pending) + Ahead(crlf))
    {
      hide PlainHeader, PlainAfter, Body, BodyAfter, ReadCh, InStyle, Raws, Raw;
      ghost var held, ahead := output + Held(pending), Ahead(crlf);
      var line;
      line, ch := ReadWord(crlf);
      ghost var rest := if ch == NLNL then Raw(NL, crlf) + input.rest else Ahead(crlf);
      RawsNotEmpty(line, crlf);
      PutLine(line, crlf);
      WordSum(held, Raws(line, crlf), rest, ahead, output + Held(pending));
      if ch == NLNL {
        assert output + Held(pending) == output;
        Regroup(output, Raw(NL, crlf), input.rest);
      }
    }

    // The characters of the word, read into the line buffer.
    method ReadWord(ghost crlf: bool) returns (line: seq<Ch>, ch: Ch)
      requires Valid() && PlainAhead(crlf)
      modifies input, pushed, pushed.buff
      ensures Valid() && forall c | c in line :: PlainChar(c) && (c == NL ==> input.endCRLF == crlf)
      ensures ch != NLNL ==>
                && PlainAhead(crlf) && BodyAhead() == old(BodyAhead())
                && Raws(line, crlf) + Ahead(crlf) == old(Ahead(crlf))
                && (if ch == EOF then Ahead(crlf) == [] else line != [])
      ensures ch == NLNL ==>
                && input.rest == old(BodyAhead()) && pushed.Contents() == []
                && line != [] && line[|line| - 1] == NL && input.endCRLF == crlf
                && Raws(line, crlf) + (Raw(NL, crlf) + input.rest) == old(Ahead(crlf))
    {
      hide PlainHeader, PlainAfter, Body, BodyAfter, ReadCh, InStyle, Raw;
      line, ch := [], 0;
      ghost var ahead, body := Ahead(crlf), BodyAhead();
      assert Raws(line, crlf) + Ahead(crlf) == ahead;
      while |line| <= MAXCOL
        invariant Valid() && PlainAhead(crlf) && BodyAhead() == body
        invariant Raws(line, crlf) + Ahead(crlf) == ahead
        invariant forall c | c in line :: PlainChar(c) && c != NL
        invariant ch != EOF && ch != NLNL
        decreases MAXCOL + 1 - |line|
      {
        PlainNext(crlf);
        var c := Fgetc(crlf);
        ch := c.ch;
        if ch == EOF { return; }
        RawsAdd(line, ch, crlf, input.rest, ahead);
        line := line + [ch];
        if ch == NL {
          ch := Peek(crlf);
          return;
        }
        NotBlank(ch, input.rest, crlf);
        if IsLWSP(ch) { return; }
      }
    }

    method PutLine(line: seq<Ch>, ghost crlf: bool)
      requires Valid() && forall c | c in line :: PlainChar(c) && (c == NL ==> input.endCRLF == crlf)
      modifies this
      ensures Valid() && output + Held(pending) == old(output + Held(pending)) + Raws(line, crlf)
      ensures line != [] && line[|line| - 1] == NL ==> pending == 0
    {
      hide Raw, Raws, PlainChar, Held;
      ghost var done := output + Held(pending);
      RawsNone(crlf);
      assert line[..0] == [] && done + [] == done;
      for ci := 0 to |line|
        invariant Valid() && output + Held(pending) == done + Raws(line[..ci], crlf)
        invariant ci > 0 && line[ci - 1] == NL ==> pending == 0
      {
        assert line[ci] in line;
        Fputc(line[ci], crlf);
        RawsAppend(line[..ci], line[ci], crlf);
        Regroup(done, Raws(line[..ci], crlf), Raw(line[ci], crlf));
        assert line[..ci] + [line[ci]] == line[..ci + 1];
      }
      assert line[..|line|] == line;
    }

    /** `MIME_headerEncode0X`: words until the blank line or the end of the stream. */
    method EncodeHeader(ghost crlf: bool) returns (ch: Ch)
      requires Valid() && pushed.Contents() == [] && pending == 0 && output == []
      requires PlainHeader(input.rest, crlf)
      modifies this, input, pushed, pushed.buff
      ensures Valid() && (ch == EOF || ch == NLNL)
      ensures ch == EOF ==> output == old(input.rest) && Body(old(input.rest)) == []
      ensures ch == NLNL ==>
                && input.rest == Body(old(input.rest)) && input.endCRLF == crlf
                && output + Raw(NL, crlf) + input.rest == old(input.rest)
    {
      ghost var s := input.rest;
      ch := 0;
      while true
        invariant Valid() && PlainAhead(crlf) && BodyAhead() == Body(s)
        invariant output + Held(pending) + Ahead(crlf) == s
        decreases |Ahead(crlf)|
      {
        hide PlainHeader, PlainAfter, Body, BodyAfter, InStyle;
        PlainNext(crlf);
        ghost var before := Ahead(crlf);
        var c := Fgetc(crlf);
        Ungetc(c);
        assert Ahead(crlf) == before;
        ch := NoencodeWord(crlf);
        if ch == EOF || ch == NLNL { break; }
      }
      if ch == EOF {
        Fputc(EOF, crlf);
      }
    }

    /** `MIME_headerEncodeX`: the header, and then the body line by line. */
    method Encode(ghost crlf: bool)
      requires Valid() && pushed.Contents() == [] && pending == 0 && output == []
      requires PlainHeader(input.rest, crlf)
      modifies this, input, pushed, pushed.buff
      ensures output == Encoded(old(input.rest))
    {
      ghost var s := input.rest;
      var ch := EncodeHeader(crlf);
      if ch == EOF {
        assert s[..|s|] == s;
        return;
      }
      ghost var head := output + Raw(NL, crlf);
      output := output + input.Put(NL);
      ghost var body := input.rest;
      assert head == s[..|s| - |body|];
      while input.rest != []
        invariant output + BodyCopy(input.rest) == head + BodyCopy(body)
        decreases |input.rest|
      {
        ghost var r, done := input.rest, output;
        var n := FgetsLen(input.rest, MAX_LNSIZE - 1);
        output := output + UpToNul(input.rest[..n]);
        input.rest := input.rest[n..];
        Regroup(done, UpToNul(r[..n]), BodyCopy(r[n..]));
      }
    }

    // Behind a line end: reads the blank line, or pushes back what follows.
    method Peek(ghost crlf: bool) returns (ch: Ch)
      requires Valid() && pushed.Contents() == [] && input.endCRLF == crlf
      requires PlainAfter(NL, input.rest, crlf)
      modifies input, pushed, pushed.buff
      ensures Valid() && input.endCRLF == crlf && (ch == NL || ch == NLNL)
      ensures ch == NL ==> PlainAhead(crlf) && BodyAhead() == BodyAfter(NL, old(input.rest))
                           && Ahead(crlf) == old(input.rest)
      ensures ch == NLNL ==> pushed.Contents() == [] && input.rest == BodyAfter(NL, old(input.rest))
                             && Raw(NL, crlf) + input.rest == old(input.rest)
    {
      ch := NL;
      ghost var s := input.rest;
      var next := Fgetc(crlf);
      if next.ch == NL {
        ch := NLNL;
      } else if next.ch != EOF {
        Ungetc(next);
      }
    }
  }

  lemma RawsNone(crlf: bool)
    ensures Raws([], crlf) == []
  {
  }

  lemma WordSum(held: bytes, word: bytes, rest: bytes, ahead: bytes, held': bytes)
    requires word + rest == ahead && held' == held + word
    ensures held' + rest == held + ahead && |rest| == |ahead| - |word|
  {
  }

  lemma NotBlank(ch: Ch, t: bytes, crlf: bool)
    requires ch != NL
    ensures PlainAfter(ch, t, crlf) == PlainHeader(t, crlf) && BodyAfter(ch, t) == Body(t)
  {
  }

  lemma RawsNotEmpty(line: seq<Ch>, crlf: bool)
    requires forall c | c in line :: PlainChar(c)
    ensures line != [] ==> Raws(line, crlf) != []
  {
    if line != [] { assert line[0] in line; }
  }

  lemma RawsAdd(line: seq<Ch>, ch: Ch, crlf: bool, rest: bytes, ahead: bytes)
    requires Raws(line, crlf) + (Raw(ch, crlf) + rest) == ahead
    ensures Raws(line + [ch], crlf) + rest == ahead
  {
    RawsAppend(line, ch, crlf);
  }
}