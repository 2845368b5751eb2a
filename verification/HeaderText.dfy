/** Message headers as the encoder and the decoder of delegate/mimekit/mimehead.cpp read
    them: byte streams whose line ends are read as one character. */
module HeaderText {
  import opened Bytes

  // A character read: a byte, NL for a line end, or a mark.
  type Ch = int

  const EOF: Ch := -1
  const NL: Ch := 10
  const NLNL: Ch := -0x7FFF_FFFF

  predicate IsLWSP(ch: Ch) { ch == 9 || ch == 32 }

  // What one `NLfgetc` reads from a stream that is not at its end.
  datatype Read = Read(ch: Ch, used: nat)

  function ReadCh(s: bytes): (r: Read)
    requires s != []
    ensures 1 <= r.used <= |s| && 0 <= r.ch < 256
    ensures r.ch == NL <==> r.used == 2 || s[0] == LF
  {
    if s[0] == CR && |s| > 1 && s[1] == LF then Read(NL, 2) else Read(s[0], 1)
  }

  // The bytes that stand for a character: the line end is the style's.
  function Raw(ch: Ch, crlf: bool): bytes {
    if ch == NL then (if crlf then [CR, LF] else [LF])
    else if 0 <= ch < 256 then [ch]
    else []
  }

  // The bytes of a text.
  function Raws(cs: seq<Ch>, crlf: bool): bytes {
    if cs == [] then [] else Raw(cs[0], crlf) + Raws(cs[1..], crlf)
  }

  lemma {:induction false} RawsConcat(a: seq<Ch>, b: seq<Ch>, crlf: bool)
    ensures Raws(a + b, crlf) == Raws(a, crlf) + Raws(b, crlf)
  {
    if a == [] {
      assert a + b == b;
    } else {
      assert (a + b)[1..] == a[1..] + b;
      RawsConcat(a[1..], b, crlf);
    }
  }

  lemma RawsAppend(cs: seq<Ch>, ch: Ch, crlf: bool)
    ensures Raws(cs + [ch], crlf) == Raws(cs, crlf) + Raw(ch, crlf)
  {
    RawsConcat(cs, [ch], crlf);
    assert [ch][1..] == [];
  }

  /** A line end of the style, or any other character. */
  predicate InStyle(s: bytes, crlf: bool)
    requires s != []
  {
    ReadCh(s).ch == NL ==> (ReadCh(s).used == 2) == crlf
  }

  lemma RawRead(s: bytes, crlf: bool)
    requires s != [] && InStyle(s, crlf)
    ensures Raw(ReadCh(s).ch, crlf) == s[..ReadCh(s).used]
    ensures s == Raw(ReadCh(s).ch, crlf) + s[ReadCh(s).used..]
  {
    if s[0] == CR && |s| > 1 && s[1] == LF {
      assert s[..2] == [CR, LF];
    }
  }

  // Behind a character that has been read: is this the blank line?
  predicate BlankLine(ch: Ch, t: bytes) {
    ch == NL && t != [] && ReadCh(t).ch == NL
  }

  /** A byte stream read character by character, as through `fgetc`. */
  class Stream {
    var rest: bytes
    var endCRLF: bool      // the style of the line end read last

    constructor (s: bytes, endCRLF: bool)
      ensures rest == s && this.endCRLF == endCRLF
    {
      rest := s;
      this.endCRLF := endCRLF;
    }

    /** `NLfgetc`. */
    method NLfgetc() returns (ch: Ch)
      modifies this
      ensures old(rest) == [] ==> ch == EOF && rest == [] && endCRLF == old(endCRLF)
      ensures old(rest) != [] ==>
                && ch == ReadCh(old(rest)).ch && rest == old(rest)[ReadCh(old(rest)).used..]
                && endCRLF == (if ch == NL then ReadCh(old(rest)).used == 2 else old(endCRLF))
    {
      if rest == [] { return EOF; }
      ch := rest[0];
      rest := rest[1..];
      if ch == CR as int {
        if rest != [] && rest[0] == LF {
          rest := rest[1..];
          endCRLF := true;
          ch := NL;
        }
      } else if ch == LF as int {
        endCRLF := false;
        ch := NL;
      }
    }

    /** `ungetc`: the character is read next, as one byte. */
    method Ungetc(ch: byte)
      modifies this
      ensures rest == [ch] + old(rest) && endCRLF == old(endCRLF)
    {
      rest := [ch] + rest;
    }

    /** `NLfputc`: the bytes put for a character. */
    function Put(ch: Ch): bytes
      reads this
    {
      Raw(ch, endCRLF)
    }
  }
}
