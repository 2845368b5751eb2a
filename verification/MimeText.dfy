/** How delegate/mimekit/mime.cpp reads a message: lines and unfolded header fields cut to a
    line buffer, boundary lines, and the ends of headers and of messages. */
module MimeText {
  import opened Bytes
  import opened Sequences

  const LINESIZE: nat := 1024
  const HEADSIZE: nat := 0x10000
  const HASH: byte := 35
  const DASH: byte := 45

  // Text that was read and the number of bytes it was read from.
  datatype Got = Got(text: bytes, used: nat)

  /** What `fgetsZ` reads into a buffer for max bytes and two more: NUL bytes are left out. */
  function ReadLine(s: bytes, max: nat): (g: Got)
    ensures g.used <= |s| && |g.text| <= g.used && |g.text| <= max
    ensures max > 0 ==> (g.text == [] ==> g.used == |s|) && (s != [] ==> g.used > 0)
  {
    if s == [] || max == 0 then Got([], 0)
    else if s[0] == LF then Got([LF], 1)
    else if s[0] == NUL then var g := ReadLine(s[1..], max); Got(g.text, g.used + 1)
    else var g := ReadLine(s[1..], max - 1); Got([s[0]] + g.text, g.used + 1)
  }

  predicate IsEOH(t: bytes) { t != [] && (t[0] == CR || t[0] == LF) }

  predicate IsEOR(t: bytes) { |t| > 1 && t[0] == DOT && (t[1] == CR || t[1] == LF) }

  predicate Continues(s: bytes) { s != [] && (s[0] == SPACE || s[0] == TAB || s[0] == HASH) }

  /** The continuation lines of a field, while more than 80 bytes remain in the buffer. */
  function ReadMore(s: bytes, rem: nat): (g: Got)
    ensures g.used <= |s| && |g.text| <= g.used
    decreases |s|
  {
    if rem <= 80 || !Continues(s) then Got([], 0)
    else
      var g := ReadLine(s[1..], rem - 3);
      if g.text == [] then Got([s[0]], 1 + g.used)
      else
        var m := ReadMore(s[1 + g.used..], rem - 1 - |g.text|);
        Got([s[0]] + g.text + m.text, 1 + g.used + m.used)
  }

  /** What `RFC822_fgetsHeaderField` reads: a line with its continuation lines. */
  function ReadField(s: bytes): (g: Got)
    ensures g.used <= |s| && |g.text| <= g.used && (g.text == [] ==> g.used == |s|)
  {
    var g := ReadLine(s, LINESIZE - 2);
    if g.text == [] || IsEOH(g.text) || IsEOR(g.text) then g
    else
      var m := ReadMore(s[g.used..], LINESIZE - |g.text|);
      Got(g.text + m.text, g.used + m.used)
  }

  /** The lines that end a header, and a message, by their first bytes. */
  lemma LineEnds(t: bytes)
    ensures IsEOH(t) <==> [13] <= t || [10] <= t
    ensures IsEOR(t) <==> [46, 13] <= t || [46, 10] <= t
  {
    if [46, 13] <= t { assert t[0] == [46, 13][0] && t[1] == [46, 13][1]; }
    if [46, 10] <= t { assert t[0] == [46, 10][0] && t[1] == [46, 10][1]; }
    if IsEOR(t) { assert t[..2] == [46, t[1]]; }
  }

  // A line that fits the buffer.
  lemma {:induction false} FittingLine(a: bytes, rest: bytes, max: nat)
    requires LF !in a && NUL !in a && |a| < max
    ensures ReadLine(a + [LF] + rest, max) == Got(a + [LF], |a| + 1)
    decreases |a|
  {
    var s := a + [LF] + rest;
    if a == [] {
      assert s == [LF] + rest && a + [LF] == [LF];
    } else {
      assert s[1..] == a[1..] + [LF] + rest && a + [LF] == [a[0]] + (a[1..] + [LF]);
      FittingLine(a[1..], rest, max - 1);
    }
  }

  // What is left behind a line, and behind continuation lines.
  function LineRest(s: bytes, max: nat): (t: bytes)
    ensures |t| <= |s|
  {
    s[ReadLine(s, max).used..]
  }

  function MoreRest(s: bytes, rem: nat): bytes { s[ReadMore(s, rem).used..] }

  lemma LineStep(s: bytes, max: nat)
    ensures s == [] || max == 0 ==> ReadLine(s, max).text == [] && LineRest(s, max) == s
    ensures s != [] && max > 0 ==>
              var more := if s[0] == LF || s[0] == NUL then max else max - 1;
              && (s[0] == LF ==> ReadLine(s, max).text == [LF] && LineRest(s, max) == s[1..])
              && (s[0] != LF ==> LineRest(s, max) == LineRest(s[1..], more))
              && (s[0] == NUL ==> ReadLine(s, max).text == ReadLine(s[1..], more).text)
              && (s[0] != LF && s[0] != NUL ==> ReadLine(s, max).text == [s[0]] + ReadLine(s[1..], more).text)
  {
  }

  lemma MoreStep(s: bytes, rem: nat)
    ensures rem <= 80 || !Continues(s) ==> ReadMore(s, rem).text == [] && MoreRest(s, rem) == s
    ensures rem > 80 && Continues(s) ==>
              var g := ReadLine(s[1..], rem - 3);
              var t := LineRest(s[1..], rem - 3);
              && |g.text| <= rem - 3
              && (g.text == [] ==> ReadMore(s, rem).text == [s[0]] && MoreRest(s, rem) == t)
              && (g.text != [] ==>
                    && ReadMore(s, rem).text == [s[0]] + g.text + ReadMore(t, rem - 1 - |g.text|).text
                    && MoreRest(s, rem) == MoreRest(t, rem - 1 - |g.text|))
  {
    if rem > 80 && Continues(s) {
      var g := ReadLine(s[1..], rem - 3);
      assert s[1..][g.used..] == s[1 + g.used..];
    }
  }

  lemma FieldStep(s: bytes)
    ensures var g := ReadLine(s, LINESIZE - 2);
            var t := LineRest(s, LINESIZE - 2);
            && |g.text| <= LINESIZE - 2
            && (g.text == [] || IsEOH(g.text) || IsEOR(g.text) ==> ReadField(s) == g)
            && (g.text != [] && !IsEOH(g.text) && !IsEOR(g.text) ==>
                  && ReadField(s).text == g.text + ReadMore(t, LINESIZE - |g.text|).text
                  && s[ReadField(s).used..] == MoreRest(t, LINESIZE - |g.text|))
  {
  }

  /** A field goes on in the next line just when that begins with a blank, a tab or "#", and more
      than 80 bytes of 1024 are left. */
  lemma Continuation(a: bytes, c: byte, b: bytes, rest: bytes)
    requires LF !in a && NUL !in a && LF !in b && NUL !in b && |a| + |b| < 1000 && c != LF && c != NUL
    requires a != [] && a != [46] && !(a[0] == 46 && |a| > 1 && a[1] == 13) && a[0] != 13
    requires rest == [] || !(rest[0] in {32, 9, 35})
    ensures ReadField(a + [LF] + ([c] + b + [LF] + rest)).text ==
            if (c == 32 || c == 9 || c == 35) && 80 < 1024 - (|a| + 1) then a + [LF] + ([c] + b + [LF]) else a + [LF]
  {
    hide ReadField, ReadLine, ReadMore, LineRest, MoreRest, IsEOH, IsEOR, Continues;
    var l, next, rem := a + [LF], [c] + b + [LF] + rest, 1024 - (|a| + 1);
    FittingLine(a, next, 1022);
    OrdinaryLine(a);
    FieldStep(l + next);
    LineLeaves(l, next, 1022);
    NextLine(c, b, rest, rem);
    assert l + [] == l;
  }

  // A line that ends neither the header nor the message.
  lemma OrdinaryLine(a: bytes)
    requires LF !in a && a != [] && a != [46] && !(a[0] == 46 && |a| > 1 && a[1] == 13) && a[0] != 13
    ensures !IsEOH(a + [LF]) && !IsEOR(a + [LF])
  {
  }

  lemma LineLeaves(l: bytes, next: bytes, max: nat)
    requires ReadLine(l + next, max) == Got(l, |l|)
    ensures LineRest(l + next, max) == next
  {
    hide ReadLine;
  }

  // The next line continues the field, or not, and the line behind it does not.
  lemma NextLine(c: byte, b: bytes, rest: bytes, rem: nat)
    requires LF !in b && NUL !in b && |b| + 10 < rem && (rest == [] || !(rest[0] in {32, 9, 35}))
    ensures ReadMore([c] + b + [LF] + rest, rem).text ==
            if (c == 32 || c == 9 || c == 35) && 80 < rem then [c] + b + [LF] else []
  {
    ContinuesIs([c] + b + [LF] + rest);
    ContinuesIs(rest);
    hide ReadLine, ReadMore, LineRest, MoreRest, Continues;
    var next, l := [c] + b + [LF] + rest, b + [LF];
    MoreStep(next, rem);
    if (c == 32 || c == 9 || c == 35) && 80 < rem {
      assert next[1..] == l + rest;
      FittingLine(b, rest, rem - 3);
      LineLeaves(l, rest, rem - 3);
      MoreStep(rest, rem - 1 - |l|);
      assert [c] + l + [] == [c] + b + [LF];
    }
  }

  lemma ContinuesIs(s: bytes)
    ensures Continues(s) <==> s != [] && (s[0] == 32 || s[0] == 9 || s[0] == 35)
  {
  }

  /** A byte stream read with `getc`; `feof` is set when a read has met the end. */
  class Input {
    var rest: bytes
    var feof: bool

    ghost predicate Valid() reads this { feof ==> rest == [] }

    constructor (s: bytes)
      ensures Valid() && rest == s && !feof
    {
      rest, feof := s, false;
    }

    // `getc`
    method Getc() returns (eof: bool, ch: byte)
      requires Valid()
      modifies this
      ensures Valid() && eof == (old(rest) == [])
      ensures eof ==> rest == [] && feof
      ensures !eof ==> old(rest) == [ch] + rest && rest == old(rest)[1..] && ch == old(rest)[0]
    {
      if rest == [] {
        feof := true;
        return true, 0;
      }
      eof, ch := false, rest[0];
      rest := rest[1..];
    }

    method Ungetc(ch: byte)
      modifies this
      ensures Valid() && rest == [ch] + old(rest)
    {
      rest, feof := [ch] + rest, false;
    }

    /** `fgetsZ`; the text is empty for NULL, at the end of the stream. */
    method Fgets(size: nat) returns (str: bytes)
      requires Valid() && size > 2
      modifies this
      ensures Valid()
      ensures str == ReadLine(old(rest), size - 2).text && rest == LineRest(old(rest), size - 2)
      ensures str == [] ==> feof
    {
      hide ReadLine, LineRest;
      ghost var s := rest;
      str := [];
      while |str| < size - 2
        invariant Valid() && |str| <= size - 2
        invariant ReadLine(s, size - 2).text == str + ReadLine(rest, size - 2 - |str|).text
        invariant LineRest(s, size - 2) == LineRest(rest, size - 2 - |str|)
        decreases |rest|
      {
        LineStep(rest, size - 2 - |str|);
        ghost var more := ReadLine(rest, size - 2 - |str|).text;
        var eof, ch := Getc();
        if eof { return; }
        if ch != NUL {
          Regroup(str, [ch], ReadLine(rest, size - 2 - |str| - 1).text);
          str := str + [ch];
          if ch == LF { return; }
        }
      }
      LineStep(rest, 0);
    }

    /** `RFC822_fgetsHeaderField`. */
    method FgetsHeaderField() returns (line: bytes)
      requires Valid()
      modifies this
      ensures Valid()
      ensures line == ReadField(old(rest)).text && rest == old(rest)[ReadField(old(rest)).used..]
      ensures line == [] ==> feof
    {
      hide ReadLine, LineRest, ReadMore, MoreRest, ReadField;
      ghost var s := rest;
      FieldStep(s);
      line := Fgets(LINESIZE);
      if line == [] || IsEOH(line) || IsEOR(line) {
        SameRest(s);
        return;
      }
      var rem := LINESIZE - |line|;
      while 80 < rem
        invariant Valid() && rem >= 0 && line != []
        invariant ReadField(s).text == line + ReadMore(rest, rem).text
        invariant s[ReadField(s).used..] == MoreRest(rest, rem)
        decreases |rest|
      {
        MoreStep(rest, rem);
        ghost var r := rest;
        var eof, ch := Getc();
        if eof { return; }
        if ch != SPACE && ch != TAB && ch != HASH {
          Ungetc(ch);
          return;
        }
        ghost var sofar := line;
        line, rem := line + [ch], rem - 1;
        var more := Fgets(rem);
        line := line + more;
        rem := rem - |more|;
        if more == [] { return; }
        RegroupField(sofar, [ch], more, ReadMore(rest, rem).text);
      }
      MoreStep(rest, rem);
    }
  }

  lemma SameRest(s: bytes)
    ensures LineRest(s, LINESIZE - 2) == s[ReadLine(s, LINESIZE - 2).used..]
  {
  }

  lemma RegroupField(a: bytes, b: bytes, c: bytes, d: bytes)
    ensures a + (b + c + d) == a + b + c + d
  {
  }
}
