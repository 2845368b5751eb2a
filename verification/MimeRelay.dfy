/** The multipart relay of delegate/mimekit/mime.cpp with conversion off: `fgetsTee`,
    `readHeader`, `readPart`, `decodeBODYpart`, `scan_multipart`, `decodeMIMEpart`.
    What the mutually recursive program puts out is stated as one loop over the message. */
module MimeRelay {
  import opened Bytes
  import opened MimeBoundaries
  import opened MimeText
  import opened Sequences

  // What a header says of its part; only a multipart has a boundary.
  datatype Kind = Single | Multipart(boundary: bytes)

  /** The scanners of header fields, whatever they find: the kind of part that the fields
      announce, and the canonical form of a date. */
  datatype Rules = Rules(kind: seq<bytes> -> Kind, canonDate: bytes -> bytes)

  // --- headers ----------------------------------------------------------------------------

  predicate IsDate(t: bytes) {
    |t| >= 5 && t[0] in {68, 100} && t[1] in {65, 97} && t[2] in {84, 116} && t[3] in {69, 101} && t[4] == 58
  }

  function Canon(rules: Rules, t: bytes): bytes {
    if IsDate(t) then t[..5] + rules.canonDate(t[5..]) else t
  }

  /** The field "Date:", in any case of its letters, has its value rewritten; no other has. */
  lemma DateIs(rules: Rules, t: bytes)
    ensures Canon(rules, t) ==
            if |t| >= 5 && t[4] == ':' as int
               && forall i | 0 <= i < 4 :: t[i] == "DATE"[i] as int || t[i] == "date"[i] as int
            then t[..5] + rules.canonDate(t[5..]) else t
  {
    if |t| >= 5 {
      var d, e := "DATE", "date";
      assert IsDate(t) ==> forall i | 0 <= i < 4 :: t[i] == d[i] as int || t[i] == e[i] as int;
      assert t[0] in {68, 100} <==> t[0] == d[0] as int || t[0] == e[0] as int;
      assert t[1] in {65, 97} <==> t[1] == d[1] as int || t[1] == e[1] as int;
      assert t[2] in {84, 116} <==> t[2] == d[2] as int || t[2] == e[2] as int;
      assert t[3] in {69, 101} <==> t[3] == d[3] as int || t[3] == e[3] as int;
    }
  }

  datatype Header = Header(text: bytes, used: nat, fields: seq<bytes>, eor: bool)

  /** What `readHeader` reads while more than a line's room remains in its buffer. */
  function ReadHeader(rules: Rules, s: bytes, rem: int): (h: Header)
    ensures h.used <= |s| && (h.eor ==> h.used > 0)
    decreases |s|
  {
    var g := ReadField(s);
    if rem <= LINESIZE then Header([], 0, [], false)
    else if g.text == [] then Header([], g.used, [], false)
    else if IsEOR(g.text) || IsEOH(g.text) then Header(g.text, g.used, [], IsEOR(g.text))
    else
      var t := Canon(rules, g.text);
      var h := ReadHeader(rules, s[g.used..], rem - |t|);
      Header(t + h.text, g.used + h.used, [g.text] + h.fields, h.eor)
  }

  function Pushed(st: Stack, kind: Kind): Stack {
    if kind.Multipart? && kind.boundary != [] then Push(st, kind.boundary) else st
  }

  // --- the text of a part -----------------------------------------------------------------

  // Lines of a part, the line that ended it, and why.
  datatype Part = Part(text: bytes, used: nat, stop: bytes, code: Code, stack: Stack)

  function ReadPart(s: bytes, st: Stack): (p: Part)
    ensures p.used <= |s| && p.code != NONE && (p.code != MP_EOF ==> p.used > 0)
    ensures p.code == MP_EOC ==> p.stack == st
    decreases |s|
  {
    var g := ReadLine(s, LINESIZE - 2);
    if g.text == [] then Part([], g.used, [], MP_EOF, st)
    else
      var d := Pop(st, g.text, 0);
      if d.code != NONE then Part([], g.used, g.text, d.code, d.stack)
      else
        var p := ReadPart(s[g.used..], st);
        Part(g.text + p.text, g.used + p.used, p.stop, p.code, p.stack)
  }

  // The text from the first CR or LF, as `strpbrk` finds it.
  function FromEOL(t: bytes): bytes {
    if t == [] || IsEOH(t) then t else FromEOL(t[1..])
  }

  // The line end of a part: that of the dot line, or of its own first line.
  function EolOf(p: Part): bytes {
    if p.code == MP_EOR then FromEOL(p.stop)
    else if FromEOL(p.text) == [] then []
    else if FromEOL(p.text)[0] == CR then [CR, LF]
    else [LF]
  }

  predicate EndsWith(t: bytes, e: bytes) { |e| <= |t| && t[|t| - |e|..] == e }

  // The line end that `decodeBODYpart` supplies to a text that lacks it.
  function Supplied(p: Part): bytes {
    if p.text == [] || EndsWith(p.text, EolOf(p)) then [] else EolOf(p)
  }

  lemma {:induction false} FromFirst(a: bytes, t: bytes)
    requires CR !in a && LF !in a && (t == [] || t[0] == CR || t[0] == LF)
    ensures FromEOL(a + t) == t
    decreases |a|
  {
    if a == [] {
      assert a + t == t;
    } else {
      assert (a + t)[1..] == a[1..] + t && a[0] in a;
      FromFirst(a[1..], t);
    }
  }

  /** The line end that is supplied: that of the dot line; or CR LF or LF as the first line end of
      the text begins with CR or LF; none when the text has none, is empty, or ends in it. */
  lemma SuppliedText(p: Part, a: bytes, t: bytes)
    requires CR !in a && LF !in a && (t == [] || t[0] == 13 || t[0] == 10)
    ensures p.code == MP_EOR && p.stop == [46, 13, 10] ==>
              Supplied(p) == if p.text == [] || EndsWith(p.text, [13, 10]) then [] else [13, 10]
    ensures p.code == MP_EOR && p.stop == [46, 10] ==>
              Supplied(p) == if p.text == [] || EndsWith(p.text, [10]) then [] else [10]
    ensures p.code != MP_EOR && p.text == a + t ==>
              Supplied(p) == if t == [] then []
                             else if t[0] == 13 then (if EndsWith(p.text, [13, 10]) then [] else [13, 10])
                             else (if EndsWith(p.text, [10]) then [] else [10])
  {
    FromFirst(a, t);
    FromFirst([46], [13, 10]);
    FromFirst([46], [10]);
    assert [46] + [13, 10] == [46, 13, 10] && [46] + [10] == [46, 10];
  }

  /** A boundary is pushed unless it is empty, or 31 are there. */
  lemma PushedIs(st: Stack, b: bytes)
    ensures Pushed(st, Single) == Pushed(st, Multipart([])) == st
    ensures b != [] ==> Pushed(st, Multipart(b)) == if |st| < 31 then st + [b] else st
  {
  }

  /** A single part as it is put: the missing line end comes after a boundary line, but before
      the dot line. */
  function Body(p: Part): bytes {
    if p.code == MP_EOR then p.text + Supplied(p) + p.stop else p.text + p.stop + Supplied(p)
  }

  // The epilogue, up to the dot line or the end of the stream.
  function Epilogue(s: bytes): bytes
    decreases |s|
  {
    var g := ReadLine(s, LINESIZE - 2);
    if g.text == [] || IsEOR(g.text) then g.text else g.text + Epilogue(s[g.used..])
  }

  // --- the whole message, without recursion into parts --------------------------------------

  // What is put behind a part that is not followed by another.
  function Ending(code: Code, s: bytes): bytes {
    if code == MP_EOP then Epilogue(s) else []
  }

  /** What is put for the message or part s, and for all that follows it. */
  function Output(rules: Rules, s: bytes, st: Stack): bytes
    decreases |s|
  {
    var h := ReadHeader(rules, s, HEADSIZE);
    if h.eor then h.text
    else
      var kind := rules.kind(h.fields);
      var p := ReadPart(s[h.used..], Pushed(st, kind));
      var next := s[h.used..][p.used..];
      h.text + (if kind.Multipart? then p.text + p.stop else Body(p))
      + (if p.code == MP_EOC then Output(rules, next, p.stack) else Ending(p.code, next))
  }

  // What is put behind a part that ended so.
  function After(rules: Rules, code: Code, s: bytes, st: Stack): bytes {
    if code == MP_EOC then Output(rules, s, st) else Ending(code, s)
  }

  lemma NothingLeft(rules: Rules, st: Stack, code: Code)
    ensures After(rules, code, [], st) == []
  {
    assert ReadHeader(rules, [], HEADSIZE) == Header([], 0, [], false);
    var kind := rules.kind([]);
    assert ReadPart([], Pushed(st, kind)) == Part([], 0, [], MP_EOF, Pushed(st, kind));
    assert Output(rules, [], st) == [];
  }

  // --- the program ------------------------------------------------------------------------

  class Relay {
    const rules: Rules
    const src: Input
    const boundaries: Boundaries
    var dst: bytes

    constructor (rules: Rules, s: bytes)
      ensures Valid() && fresh(src) && fresh(boundaries) && fresh(boundaries.boundaries)
      ensures this.rules == rules && src.rest == s && dst == [] && boundaries.Contents() == []
    {
      this.rules := rules;
      src := new Input(s);
      boundaries := new Boundaries();
      dst := [];
    }

    ghost predicate Valid()
      reads this, src, boundaries, boundaries.boundaries
    {
      src.Valid() && boundaries.Valid()
    }

    // The stack of boundaries.
    ghost function St(): Stack
      reads boundaries, boundaries.boundaries
    {
      boundaries.Contents()
    }

    /** `fgetsTee`: reads a line, and puts it unless it is the dot line. */
    method FgetsTee(tee: bool) returns (line: bytes)
      requires Valid()
      modifies this`dst, src
      ensures Valid() && St() == old(St()) && (line == [] ==> src.feof)
      ensures line == ReadLine(old(src.rest), LINESIZE - 2).text
      ensures src.rest == LineRest(old(src.rest), LINESIZE - 2)
      ensures dst == old(dst) + (if tee && !IsEOR(line) then line else [])
    {
      line := src.Fgets(LINESIZE);
      if line != [] && !IsEOR(line) && tee {
        dst := dst + line;
      }
    }

    /** `readHeader`: the header is gathered in a buffer, and the boundary it announces pushed. */
    method ReadHead() returns (head: bytes, kind: Kind, eor: bool)
      requires Valid()
      modifies src, boundaries.boundaries
      ensures Valid()
      ensures var h := ReadHeader(rules, old(src.rest), HEADSIZE);
              && head == h.text && kind == rules.kind(h.fields) && eor == h.eor
              && src.rest == old(src.rest)[h.used..] && St() == Pushed(old(St()), kind)
    {
      hide ReadField, IsEOH, IsEOR, Canon, ReadHeader;
      ghost var s, st := src.rest, St();
      var fields: seq<bytes> := [];
      var rem: int := HEADSIZE;
      head, eor := [], false;
      SameHeader(rules, s);
      while LINESIZE < rem
        invariant Valid() && St() == st && !eor
        invariant HeaderLeft(rules, s, HEADSIZE, head, fields, src.rest, rem)
        decreases |src.rest|
      {
        HeaderStep(rules, s, head, fields, src.rest, rem);
        var line := src.FgetsHeaderField();
        if line == [] { break; }
        eor := IsEOR(line);
        if eor || IsEOH(line) {
          head := head + line;
          break;
        }
        fields := fields + [line];
        var hp := Canon(rules, line);
        head := head + hp;
        rem := rem - |hp|;
      }
      if rem <= LINESIZE { HeaderStep(rules, s, head, fields, src.rest, rem); }
      kind := rules.kind(fields);
      if kind.Multipart? && kind.boundary != [] {
        boundaries.PushBoundary(kind.boundary);
      }
    }

    /** `readPart`: the lines up to a boundary line or the dot line, put as they are read. */
    method ReadPartThru() returns (tmpa: bytes, line: bytes, rcode: Code)
      requires Valid()
      modifies this`dst, src, boundaries.boundaries
      ensures Valid()
      ensures var p := ReadPart(old(src.rest), old(St()));
              && tmpa == p.text && line == p.stop && rcode == p.code
              && src.rest == old(src.rest)[p.used..] && St() == p.stack
              && dst == old(dst) + p.text + (if rcode == MP_EOR then [] else p.stop)
    {
      hide ReadPart, ReadLine, Pop, LineRest, IsEOR, PartLeft;
      ghost var s, st, d := src.rest, St(), dst;
      tmpa, rcode := [], NONE;
      SamePart(s, st);
      while true
        invariant Valid() && St() == st && dst == d + tmpa
        invariant PartLeft(s, st, tmpa, src.rest)
        decreases |src.rest|
      {
        PartStep(s, st, tmpa, src.rest);
        line := FgetsTee(true);
        assert d + tmpa + [] == d + tmpa;
        if line == [] {
          rcode := MP_EOF;
          return;
        }
        Regroup(d, tmpa, line);
        rcode := boundaries.PopBoundary(line);
        if rcode != NONE { return; }
        tmpa := tmpa + line;
      }
    }

    /** `decodeBODYpart`: a part without parts; the dot line that ended it is returned. */
    method DecodeBODYpart() returns (rcode: Code, endline: bytes)
      requires Valid()
      modifies this`dst, src, boundaries.boundaries
      ensures Valid()
      ensures var p := ReadPart(old(src.rest), old(St()));
              && rcode == p.code && src.rest == old(src.rest)[p.used..] && St() == p.stack
              && dst + endline == old(dst) + Body(p)
    {
      hide ReadPart;
      ghost var d, p := dst, ReadPart(src.rest, St());
      var tmpa;
      tmpa, endline, rcode := ReadPartThru();
      PartStop(old(src.rest), old(St()));
      var eol := FromEOL(tmpa);
      if eol != [] {
        eol := if eol[0] == CR then [CR, LF] else [LF];
      }
      if rcode != MP_EOR { endline := []; }
      if endline != [] { eol := FromEOL(endline); }
      BodyIs(d, p);
      if eol != [] && tmpa != [] && !EndsWith(tmpa, eol) {
        dst := dst + eol;
      }
    }

    /** `scan_multipart`: preamble, parts, epilogue. */
    method ScanMultipart() returns (rcode: Code, endline: bytes)
      requires Valid()
      modifies this`dst, src, boundaries.boundaries
      ensures Valid() && (rcode == MP_EOF || rcode == MP_EOR) && |src.rest| <= |old(src.rest)|
      ensures var p := ReadPart(old(src.rest), old(St()));
              dst + endline == old(dst) + (p.text + p.stop) + After(rules, p.code, old(src.rest)[p.used..], p.stack)
      decreases |src.rest|, 0
    {
      hide ReadPart, After, Output;
      ghost var n := |src.rest|;
      rcode := Preamble();
      AfterEnd(rules, NONE, src.rest, St());
      AfterEnd(rules, MP_EOF, src.rest, St());
      ghost var all := dst + After(rules, rcode, src.rest, St());
      var top := boundaries.TopBoundary();
      while true
        invariant Valid() && dst + After(rules, rcode, src.rest, St()) == all
        invariant rcode == NONE ==> src.feof
        invariant |src.rest| <= n && (rcode == MP_EOC ==> |src.rest| < n && top == |St()|)
        decreases |src.rest|, if rcode == MP_EOC then 1 else 0
      {
        if src.feof {
          NothingLeft(rules, St(), rcode);
          NothingLeft(rules, St(), MP_EOF);
          rcode := MP_EOF;
        }
        if rcode == MP_EOF || rcode == MP_EOR || rcode == MP_EOP { break; }
        var bi := boundaries.TopBoundary();
        if top != bi { break; }
        AfterPart(rules, src.rest, St());
        rcode := DecodeMIMEpart();
      }
      endline := [];
      AfterEnd(rules, rcode, src.rest, St());
      assert dst + [] == dst;
      if rcode == MP_EOP {
        rcode, endline := PutEpilogue();
      }
    }

    // The lines in front of the first part.
    method Preamble() returns (rcode: Code)
      requires Valid()
      modifies this`dst, src, boundaries.boundaries
      ensures Valid()
      ensures var p := ReadPart(old(src.rest), old(St()));
              && rcode == (if p.code == MP_EOF then NONE else p.code)
              && src.rest == old(src.rest)[p.used..] && St() == p.stack
              && dst == old(dst) + (p.text + p.stop)
      ensures rcode == NONE ==> src.feof
      ensures rcode == MP_EOC ==> |src.rest| < |old(src.rest)|
    {
      hide ReadPart, ReadLine, Pop, LineRest, IsEOR, PartLeft;
      ghost var s, st, d, text := src.rest, St(), dst, [];
      rcode := NONE;
      SamePart(s, st);
      while true
        invariant Valid() && St() == st && dst == d + text && rcode == NONE
        invariant PartLeft(s, st, text, src.rest)
        decreases |src.rest|
      {
        PartStep(s, st, text, src.rest);
        var line := FgetsTee(false);
        if line == [] {
          assert text + [] == text;
          break;
        }
        Regroup(d, text, line);
        dst := dst + line;
        rcode := boundaries.PopBoundary(line);
        if rcode != NONE { break; }
        text := text + line;
      }
    }

    // The lines behind the close of a multipart.
    method PutEpilogue() returns (rcode: Code, endline: bytes)
      requires Valid()
      modifies this`dst, src
      ensures Valid() && (rcode == MP_EOF || rcode == MP_EOR)
      ensures dst + endline == old(dst) + Epilogue(old(src.rest)) && |src.rest| <= |old(src.rest)|
    {
      hide ReadLine, Epilogue;
      ghost var all, n := dst + Epilogue(src.rest), |src.rest|;
      while true
        invariant Valid() && |src.rest| <= n && dst + Epilogue(src.rest) == all
        decreases |src.rest|
      {
        EpilogueStep(src.rest);
        endline := FgetsTee(false);
        if endline == [] { return MP_EOF, endline; }
        if IsEOR(endline) { return MP_EOR, endline; }
        Regroup(dst, endline, Epilogue(src.rest));
        dst := dst + endline;
      }
    }

    /** `decodeMIMEpart`: a header and what belongs to it. All that is put, and all that will be
        put for what remains, is what the loop over the message puts. */
    method DecodeMIMEpart() returns (rcode: Code)
      requires Valid()
      modifies this`dst, src, boundaries.boundaries
      ensures Valid() && rcode != NONE
      ensures dst + After(rules, rcode, src.rest, St()) == old(dst) + Output(rules, old(src.rest), old(St()))
      ensures |src.rest| <= |old(src.rest)|
      ensures rcode == MP_EOC ==> |src.rest| < |old(src.rest)| && St() == old(St())
      ensures old(St()) == [] ==> rcode == MP_EOF || rcode == MP_EOR
      decreases |src.rest|, 1
    {
      hide ReadHeader, ReadPart, Output, After, Body, Pushed;
      ghost var s, st, d := src.rest, St(), dst;
      OutputIs(rules, s, st, d);
      var head, kind, eor := ReadHead();
      dst := dst + head;
      AfterEnd(rules, MP_EOR, src.rest, St());
      assert dst + [] == dst;
      if eor { return MP_EOR; }
      ghost var r, st1 := src.rest, St();
      var endline;
      if kind.Multipart? {
        rcode, endline := ScanMultipart();
        AfterEnd(rules, rcode, src.rest, St());
        assert dst + endline + [] == dst + endline;
      } else {
        rcode, endline := DecodeBODYpart();
        PartOutermost(r);
        SingleStack(st, kind);
      }
      dst := dst + endline;
    }

    /** `decodeMIME`: the whole message. */
    method DecodeMIME()
      requires Valid() && St() == []
      modifies this`dst, src, boundaries.boundaries
      ensures Valid() && dst == old(dst) + Output(rules, old(src.rest), [])
    {
      hide Output, After;
      var rcode := DecodeMIMEpart();
      AfterEnd(rules, rcode, src.rest, St());
      assert dst + [] == dst;
    }
  }

  lemma OutputIs(rules: Rules, s: bytes, st: Stack, d: bytes)
    ensures var h := ReadHeader(rules, s, HEADSIZE);
            var r, kind := s[h.used..], rules.kind(h.fields);
            var st1 := Pushed(st, kind);
            var p := ReadPart(r, st1);
            var next := r[p.used..];
            var put := if kind.Multipart? then p.text + p.stop else Body(p);
            && (h.eor ==> Output(rules, s, st) == h.text)
            && (!h.eor ==> d + Output(rules, s, st) == (d + h.text) + put + After(rules, p.code, next, p.stack))
  {
    hide ReadHeader, ReadPart, Body, Ending, Pushed;
    var h := ReadHeader(rules, s, HEADSIZE);
    if !h.eor {
      var r, kind := s[h.used..], rules.kind(h.fields);
      var st1 := Pushed(st, kind);
      var p := ReadPart(r, st1);
      var next := r[p.used..];
      var put := if kind.Multipart? then p.text + p.stop else Body(p);
      var more := After(rules, p.code, next, p.stack);
      assert Output(rules, s, st) == h.text + put + more;
      assert d + (h.text + put + more) == (d + h.text) + put + more;
    }
  }


  // What is left to read of a header: behind the text and fields read so far.
  ghost predicate HeaderLeft(rules: Rules, s: bytes, size: int, text: bytes, fields: seq<bytes>, r: bytes, rem: int) {
    var all, h := ReadHeader(rules, s, size), ReadHeader(rules, r, rem);
    && all.text == text + h.text && all.fields == fields + h.fields && all.eor == h.eor
    && s[all.used..] == r[h.used..]
  }

  lemma SameHeader(rules: Rules, s: bytes)
    ensures HeaderLeft(rules, s, HEADSIZE, [], [], s, HEADSIZE)
  {
    var h := ReadHeader(rules, s, HEADSIZE);
    assert h.text == [] + h.text && h.fields == [] + h.fields;
  }

  // The header that begins at r, by what is read first.
  lemma HeaderCases(rules: Rules, r: bytes, rem: int)
    ensures var h, g := ReadHeader(rules, r, rem), ReadField(r);
            var t, hp := r[g.used..], Canon(rules, g.text);
            if rem <= LINESIZE then h == Header([], 0, [], false)
            else if g.text == [] then h == Header([], g.used, [], false)
            else if IsEOR(g.text) || IsEOH(g.text) then h == Header(g.text, g.used, [], IsEOR(g.text))
            else
              var next := ReadHeader(rules, t, rem - |hp|);
              && h == Header(hp + next.text, h.used, [g.text] + next.fields, next.eor)
              && r[h.used..] == t[next.used..]
  {
    hide ReadField, IsEOR, IsEOH, Canon;
  }

  lemma HeaderStep(rules: Rules, s: bytes, text: bytes, fields: seq<bytes>, r: bytes, rem: int)
    requires HeaderLeft(rules, s, HEADSIZE, text, fields, r, rem)
    ensures var all, g := ReadHeader(rules, s, HEADSIZE), ReadField(r);
            var t, hp := r[g.used..], Canon(rules, g.text);
            if rem <= LINESIZE then
              all == Header(text, all.used, fields, false) && s[all.used..] == r
            else if g.text == [] then
              all == Header(text, all.used, fields, false) && s[all.used..] == t
            else if IsEOR(g.text) || IsEOH(g.text) then
              all == Header(text + g.text, all.used, fields, IsEOR(g.text)) && s[all.used..] == t
            else HeaderLeft(rules, s, HEADSIZE, text + hp, fields + [g.text], t, rem - |hp|)
  {
    hide ReadField, IsEOR, IsEOH, Canon, ReadHeader;
    HeaderCases(rules, r, rem);
    var g := ReadField(r);
    var t, hp := r[g.used..], Canon(rules, g.text);
    if rem > LINESIZE && g.text != [] && !IsEOR(g.text) && !IsEOH(g.text) {
      var h := ReadHeader(rules, t, rem - |hp|);
      Regroup(text, hp, h.text);
      assert fields + ([g.text] + h.fields) == fields + [g.text] + h.fields;
    } else {
      assert text + [] == text && fields + [] == fields;
      assert r[0..] == r;
    }
  }

  // What is left to read of a part.
  ghost predicate PartLeft(s: bytes, st: Stack, text: bytes, r: bytes) {
    var all, p := ReadPart(s, st), ReadPart(r, st);
    && all.text == text + p.text && all.stop == p.stop && all.code == p.code && all.stack == p.stack
    && s[all.used..] == r[p.used..] && |r| <= |s|
  }

  lemma SamePart(s: bytes, st: Stack)
    ensures PartLeft(s, st, [], s)
  {
    assert ReadPart(s, st).text == [] + ReadPart(s, st).text;
  }

  // The part that begins at r, by its first line.
  lemma PartCases(r: bytes, st: Stack)
    ensures var p, g, t := ReadPart(r, st), ReadLine(r, LINESIZE - 2), LineRest(r, LINESIZE - 2);
            && |g.text| <= LINESIZE - 2 && (g.text != [] ==> |t| < |r|)
            && (g.text == [] ==> p == Part([], p.used, [], MP_EOF, st) && r[p.used..] == t)
            && (g.text != [] ==>
                  var d := Pop(st, g.text, 0);
                  && (d.code != NONE ==> p == Part([], p.used, g.text, d.code, d.stack) && r[p.used..] == t)
                  && (d.code == NONE ==>
                        var next := ReadPart(t, st);
                        && p == Part(g.text + next.text, p.used, next.stop, next.code, next.stack)
                        && r[p.used..] == t[next.used..] && d.stack == st))
  {
    hide ReadLine, Pop;
  }

  lemma PartStep(s: bytes, st: Stack, text: bytes, r: bytes)
    requires PartLeft(s, st, text, r)
    ensures var all, g, t := ReadPart(s, st), ReadLine(r, LINESIZE - 2), LineRest(r, LINESIZE - 2);
            && (g.text != [] ==> |t| < |r| <= |s|)
            && (g.text == [] ==> all == Part(text, all.used, [], MP_EOF, st) && s[all.used..] == t)
            && (g.text != [] ==>
                  var d := Pop(st, g.text, 0);
                  && (d.code != NONE ==> all == Part(text, all.used, g.text, d.code, d.stack) && s[all.used..] == t)
                  && (d.code == NONE ==> PartLeft(s, st, text + g.text, t) && d.stack == st)
                  && (d.code == MP_EOR <==> IsEOR(g.text)))
  {
    hide ReadLine, ReadPart, Pop, LineRest;
    PartCases(r, st);
    var g := ReadLine(r, LINESIZE - 2);
    if g.text != [] { PopDot(st, g.text, 0); }
    if g.text != [] && Pop(st, g.text, 0).code == NONE {
      Regroup(text, g.text, ReadPart(LineRest(r, LINESIZE - 2), st).text);
    } else {
      assert text + [] == text;
    }
  }

  lemma {:induction false} PopDot(st: Stack, line: bytes, bi: nat)
    requires bi <= |st|
    ensures Pop(st, line, bi).code == MP_EOR <==> IsEOR(line)
    decreases |st| - bi
  {
    if |line| > 1 && line[0] == DASH && line[1] == DASH && bi < |st| {
      PopDot(st, line, bi + 1);
    }
  }

  // A dot line ends the part just when its code says so.
  lemma {:induction false} PartStop(s: bytes, st: Stack)
    ensures var p := ReadPart(s, st);
            && (p.code == MP_EOR ==> IsEOR(p.stop))
            && (p.code == MP_EOF ==> p.stop == [])
    decreases |s|
  {
    hide ReadPart, ReadLine, Pop, LineRest;
    PartCases(s, st);
    var g := ReadLine(s, LINESIZE - 2);
    if g.text != [] {
      PopDot(st, g.text, 0);
      if Pop(st, g.text, 0).code == NONE { PartStop(LineRest(s, LINESIZE - 2), st); }
    }
  }

  lemma BodyIs(d: bytes, p: Part)
    ensures p.code == MP_EOR ==> (d + p.text + []) + Supplied(p) + p.stop == d + Body(p)
    ensures p.code != MP_EOR ==> (d + p.text + p.stop) + Supplied(p) + [] == d + Body(p)
  {
    hide Supplied;
  }

  lemma AfterPart(rules: Rules, r: bytes, st: Stack)
    ensures After(rules, MP_EOC, r, st) == Output(rules, r, st)
  {
    hide Output;
  }

  lemma AfterEnd(rules: Rules, code: Code, r: bytes, st: Stack)
    ensures code == MP_EOP ==> After(rules, code, r, st) == Epilogue(r)
    ensures code != MP_EOP && code != MP_EOC ==> After(rules, code, r, st) == []
  {
    hide Output, Epilogue;
  }

  lemma EpilogueStep(r: bytes)
    ensures var g, t := ReadLine(r, LINESIZE - 2), LineRest(r, LINESIZE - 2);
            if g.text == [] || IsEOR(g.text) then Epilogue(r) == g.text
            else |t| < |r| && Epilogue(r) == g.text + Epilogue(t)
  {
    hide ReadLine;
  }

  // Outside any multipart nothing but the end of the message ends a part.
  lemma {:induction false} PartOutermost(s: bytes)
    ensures ReadPart(s, []).code == MP_EOF || ReadPart(s, []).code == MP_EOR
    decreases |s|
  {
    if ReadLine(s, LINESIZE - 2).text != [] { PartOutermost(LineRest(s, LINESIZE - 2)); }
  }

  lemma SingleStack(st: Stack, kind: Kind)
    ensures kind.Single? ==> Pushed(st, kind) == st
  {
  }
}
