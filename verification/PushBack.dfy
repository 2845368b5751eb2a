/** The round-robin push-back buffer of delegate/mimekit/mimehead.cpp (`RRBUFF`,
    `GET_RRBUFF`, `EN_UNGETC`): eight slots used as a stack without any overflow check. */
module PushBack {
  import opened HeaderText

  const RRBUFF_SIZE: nat := 8

  // The index after i, round the buffer.
  function Succ(i: nat): (j: nat)
    requires i < RRBUFF_SIZE
    ensures j < RRBUFF_SIZE
  {
    if i + 1 == RRBUFF_SIZE then 0 else i + 1
  }

  // How many characters stand from getx up to putx, and which, next one first.
  function Depth(getx: nat, putx: nat): (n: nat)
    requires getx < RRBUFF_SIZE && putx < RRBUFF_SIZE
    ensures n < RRBUFF_SIZE
  {
    if getx <= putx then putx - getx else putx + RRBUFF_SIZE - getx
  }

  function Stack<T>(slots: seq<T>, getx: nat, putx: nat): (s: seq<T>)
    requires |slots| == RRBUFF_SIZE && getx < RRBUFF_SIZE && putx < RRBUFF_SIZE
    ensures |s| == Depth(getx, putx)
    decreases Depth(getx, putx)
  {
    if getx == putx then [] else [slots[Succ(getx)]] + Stack(slots, Succ(getx), putx)
  }

  // Writing a slot outside the stack leaves the stack.
  lemma {:induction false} StackKept<T>(slots: seq<T>, getx: nat, putx: nat, i: nat, c: T)
    requires |slots| == RRBUFF_SIZE && getx < RRBUFF_SIZE && putx < RRBUFF_SIZE && i < RRBUFF_SIZE
    requires Depth(getx, i) == 0 || Depth(getx, i) > Depth(getx, putx)
    ensures Stack(slots[i := c], getx, putx) == Stack(slots, getx, putx)
    decreases Depth(getx, putx)
  {
    if getx != putx {
      StackKept(slots, Succ(getx), putx, i, c);
    }
  }

  /** Any character type: the program pushes characters with their charset state. */
  class RRBuff<T> {
    const buff: array<T>
    var putx: nat
    var getx: nat

    ghost predicate Valid()
      reads this
    {
      buff.Length == RRBUFF_SIZE && putx < RRBUFF_SIZE && getx < RRBUFF_SIZE
    }

    /** The characters pushed back, the one to be read next first. */
    ghost function Contents(): (s: seq<T>)
      reads this, buff
      requires Valid()
      ensures |s| < RRBUFF_SIZE
    {
      Stack(buff[..], getx, putx)
    }

    constructor (c: T)
      ensures Valid() && fresh(buff) && Contents() == []
    {
      buff := new T[RRBUFF_SIZE](_ => c);
      putx, getx := 0, 0;
    }

    /** `GET_RRBUFF`: takes the next character, with its state, if there is one. */
    method Get(c0: T) returns (got: bool, c: T)
      requires Valid()
      modifies this
      ensures Valid() && putx == old(putx)
      ensures got <==> old(Contents()) != []
      ensures got ==> [c] + Contents() == old(Contents())
      ensures !got ==> c == c0 && Contents() == []
    {
      if putx == getx {
        return false, c0;
      }
      getx := if RRBUFF_SIZE <= getx + 1 then 0 else getx + 1;
      got, c := true, buff[getx];
    }

    /** `EN_UNGETC`: a stack of up to seven characters; the eighth empties the buffer. */
    method Unget(c: T)
      requires Valid()
      modifies this, buff
      ensures Valid() && putx == old(putx)
      ensures Contents() == if |old(Contents())| < 7 then [c] + old(Contents()) else []
    {
      ghost var old0, g0 := buff[..], getx;
      StackKept(old0, getx, putx, getx, c);
      var x := getx - 1;
      if x < 0 { x := RRBUFF_SIZE - 1; }
      var slot := x + 1;
      if RRBUFF_SIZE <= slot { slot := 0; }
      getx := x;
      buff[slot] := c;
      assert buff[..] == old0[g0 := c];
    }
  }

  // --- how deep the encoder pushes back --------------------------------------------------

  // A character with the charset it was read in; 0 is US-ASCII.
  datatype CharX = CharX(ch: Ch, mcharset: nat)

  const M_US_ASCII: nat := 0

  /** The reading of the encoder, for any characters, charsets and line lengths: what comes from
      the file is a sequence, and what hangs on columns and encoded lengths is decided by a
      function of the time. At most two characters are pushed back at any moment, so that the
      buffer of eight, which is not checked, never loses one. */
  class Reading {
    const pushed: RRBuff<CharX>
    var file: seq<CharX>           // what the file still holds
    var charset: nat               // in_mcharset
    const decide: nat -> bool
    const bytesOf: nat -> nat      // the length of a multi-byte character
    var time: nat

    constructor (file: seq<CharX>, decide: nat -> bool, bytesOf: nat -> nat)
      ensures Valid(0) && fresh(pushed) && fresh(pushed.buff)
      ensures this.file == file && Ahead() == file
    {
      pushed := new RRBuff<CharX>(CharX(0, M_US_ASCII));
      this.file, this.decide, this.bytesOf := file, decide, bytesOf;
      charset, time := M_US_ASCII, 0;
    }

    // No more than so many characters are pushed back.
    ghost predicate Valid(depth: nat)
      reads this, pushed, pushed.buff
    {
      pushed.Valid() && |pushed.Contents()| <= depth <= 2
    }

    // All that is still to be read.
    ghost function Ahead(): seq<CharX>
      reads this, pushed, pushed.buff
      requires pushed.Valid()
    {
      pushed.Contents() + file
    }

    /** `EN_FGETC`: the next of what is ahead, with its charset. */
    method Fgetc(ghost depth: nat) returns (c: CharX)
      requires Valid(depth)
      modifies this`file, this`charset, pushed
      ensures Valid(if depth == 0 then 0 else depth - 1) && charset == c.mcharset
      ensures if old(Ahead()) == [] then c.ch == EOF && Ahead() == [] else [c] + Ahead() == old(Ahead())
    {
      var got;
      ghost var ahead, stack := Ahead(), pushed.Contents();
      got, c := pushed.Get(CharX(EOF, M_US_ASCII));
      if !got && file != [] {
        c, file := file[0], file[1..];
      }
      assert got ==> stack == [c] + pushed.Contents();
      charset := c.mcharset;
    }

    /** `EN_UNGETC`: nothing is lost. */
    method Ungetc(c: CharX, ghost depth: nat)
      requires Valid(depth) && depth < 2
      modifies pushed, pushed.buff
      ensures Valid(depth + 1) && Ahead() == [c] + old(Ahead())
    {
      pushed.Unget(c);
    }

    method Decide() returns (b: bool)
      modifies this`time
    {
      time := time + 1;
      b := decide(time);
    }

    /** `noencode_word`: at most one character of those read is pushed back. */
    method NoencodeWord()
      requires Valid(2)
      modifies this, pushed, pushed.buff
      ensures Valid(2)
    {
      for inx := 0 to 73
        invariant Valid(2)
      {
        var c := Fgetc(2);
        if charset != M_US_ASCII {
          if c.ch != EOF { Ungetc(c, 1); }
          break;
        }
        if c.ch == EOF { break; }
        if c.ch == NL {
          var next := Fgetc(1);
          if next.ch != NL && next.ch != EOF { Ungetc(next, 0); }
          break;
        }
        if IsLWSP(c.ch) { break; }
      }
    }

    /** `encode_word`, for any number of characters: after one, two or three have been read, no
        more than as many, and no more than two, are pushed back. */
    method EncodeWord(n: nat)
      requires Valid(2)
      modifies this, pushed, pushed.buff
      ensures Valid(2)
    {
      var mcharset := charset;
      for nchar := 0 to n
        invariant Valid(2)
      {
        var c := Fgetc(2);
        if c.ch == EOF || c.ch == NL || c.mcharset != mcharset {
          if nchar == 0 && c.mcharset != mcharset && c.mcharset != M_US_ASCII { break; }
          if IsLWSP(c.ch) {
            var goOn := BlanksBetween(c, mcharset);
            if !goOn { break; }
            continue;
          }
          if c.ch != EOF { Ungetc(c, 1); }
          break;
        }
        var full := Decide();
        if full {
          Ungetc(c, 1);
          break;
        }
        if c.mcharset != M_US_ASCII { MultiByte(); }
      }
    }

    // White space between words that are to be encoded; true when the word goes on behind it.
    method BlanksBetween(c: CharX, mcharset: nat) returns (goOn: bool)
      requires Valid(1)
      modifies this, pushed, pushed.buff
      ensures Valid(2)
    {
      var next := Fgetc(1);
      var lwspx := 1;
      var keep := Decide();
      while IsLWSP(next.ch) && lwspx < 4
        invariant Valid(0)
        decreases |Ahead()| + (if IsLWSP(next.ch) then 1 else 0), 4 - lwspx
      {
        if keep { lwspx := lwspx + 1; }
        if lwspx < 4 {
          next := Fgetc(0);
        }
      }
      if next.mcharset == mcharset {
        Ungetc(next, 0);
        goOn := Decide();
      } else {
        Ungetc(next, 0);
        Ungetc(c, 1);
        goOn := false;
      }
    }

    // The second and third byte of a character.
    method MultiByte()
      requires Valid(1)
      modifies this, pushed, pushed.buff
      ensures Valid(2)
    {
      var c2 := Fgetc(1);
      var c3 := Fgetc(0);
      time := time + 1;
      var len := bytesOf(time);
      if 1 < len {
        if len <= 2 { Ungetc(c3, 0); }
      } else {
        Ungetc(c3, 0);
        Ungetc(c2, 1);
      }
    }

    /** `MIME_headerEncode0X`, for any number of rounds and of words in each; words that follow
        one another are read on without looking ahead. */
    method EncodeHeader(rounds: nat, words: nat, n: nat)
      requires Valid(2)
      modifies this, pushed, pushed.buff
      ensures Valid(2)
    {
      for i := 0 to rounds
        invariant Valid(2)
      {
        var c := Fgetc(2);
        ghost var left := Ahead();
        Ungetc(c, 1);
        assert Ahead() == [c] + left;
        if c.mcharset == M_US_ASCII {
          NoencodeWord();
        } else {
          for j := 0 to words
            invariant Valid(2)
          {
            EncodeWord(n);
            if charset == M_US_ASCII { break; }
            var atEnd := Decide();
            if atEnd { break; }
          }
        }
      }
    }
  }
}
