/** Which white space of a header the decoder of delegate/mimekit/mimehead.cpp puts, run by run:
    of a run of blanks its first and its last, in front of a line end the first, and behind it
    the last. */
module HeaderSpaces {
  import opened HeaderText
  import opened Sequences

  const FORMFEED: Ch := 12
  const EQUAL: Ch := 61

  // --- runs of white space ----------------------------------------------------------------------

  predicate IsWhite(ch: Ch) { IsLWSP(ch) || ch == NL }

  /** The text ends in white space; the line end behind a form feed goes with the form feed. */
  predicate EndsWhite(cs: seq<Ch>) {
    cs != [] && IsWhite(cs[|cs| - 1]) && !(cs[|cs| - 1] == NL && |cs| > 1 && cs[|cs| - 2] == FORMFEED)
  }

  // The white space that the text ends in.
  function Tail(cs: seq<Ch>): (w: seq<Ch>)
    ensures |w| <= |cs| && w == cs[|cs| - |w|..]
  {
    if EndsWhite(cs) then Tail(cs[..|cs| - 1]) + [cs[|cs| - 1]] else []
  }

  // What is in front of it.
  function Front(cs: seq<Ch>): (f: seq<Ch>)
    ensures cs == f + Tail(cs) && |f| + |Tail(cs)| == |cs|
  {
    cs[..|cs| - |Tail(cs)|]
  }

  // How many blanks a text begins with.
  function Blanks(w: seq<Ch>): (n: nat)
    ensures n <= |w| && (forall i | 0 <= i < n :: IsLWSP(w[i])) && (n < |w| ==> !IsLWSP(w[n]))
  {
    if w == [] || !IsLWSP(w[0]) then 0 else 1 + Blanks(w[1..])
  }

  // The last blank of a text, if it has one.
  function LastBlank(v: seq<Ch>): (b: seq<Ch>)
    ensures |b| <= 1
  {
    if v == [] then []
    else if IsLWSP(v[|v| - 1]) then [v[|v| - 1]]
    else LastBlank(v[..|v| - 1])
  }

  /** What is put of a run of white space. Blanks: the first and the last. Lines: the first of the
      blanks in front of the first line end, that line end, and the last blank behind it - none
      if the run ends in a line end and a field begins behind it. */
  function Run(w: seq<Ch>, field: bool): seq<Ch> {
    var k := Blanks(w);
    if k == |w| then (if |w| <= 2 then w else [w[0], w[|w| - 1]])
    else
      (if k == 0 then [] else [w[0]]) + [NL]
      + (if field && w[|w| - 1] == NL then [] else LastBlank(w[k + 1..]))
  }

  // How much of the text is no white space at its end: a character, or a form feed with its
  // line end.
  function EndLen(cs: seq<Ch>): (e: nat)
    ensures e <= |cs|
  {
    if cs == [] || EndsWhite(cs) then 0 else if cs[|cs| - 1] == NL && |cs| > 1 then 2 else 1
  }

  /** The header as it is put: every other character, and of each run what Run says; at the end
      of the header and in front of "=" no field begins. */
  function Squeezed(cs: seq<Ch>): seq<Ch>
    decreases |cs|
  {
    if cs == [] then []
    else
      var g, end := cs[..|cs| - EndLen(cs)], cs[|cs| - EndLen(cs)..];
      TailWhite(cs);
      Squeezed(Front(g)) + Run(Tail(g), end != [] && end != [EQUAL]) + end
  }

  lemma TailWhite(cs: seq<Ch>)
    ensures EndsWhite(cs) ==> Tail(cs) != []
  {
  }

  // --- adding a character -------------------------------------------------------------------------

  lemma {:induction false} FrontEnds(cs: seq<Ch>)
    ensures !EndsWhite(Front(cs))
  {
    if EndsWhite(cs) {
      var g := cs[..|cs| - 1];
      FrontEnds(g);
      assert Front(cs) == Front(g);
    } else {
      assert Front(cs) == cs;
    }
  }

  lemma WhiteEnds(cs: seq<Ch>, ch: Ch)
    requires IsWhite(ch)
    ensures EndsWhite(cs + [ch]) <==> !(ch == NL && cs != [] && cs[|cs| - 1] == FORMFEED)
  {
  }

  // White space grows the run.
  lemma AddWhite(cs: seq<Ch>, ch: Ch)
    requires IsWhite(ch) && (ch == NL && cs != [] ==> cs[|cs| - 1] != FORMFEED)
    ensures Tail(cs + [ch]) == Tail(cs) + [ch] && Front(cs + [ch]) == Front(cs) && EndsWhite(cs + [ch])
  {
    WhiteEnds(cs, ch);
    TailStep(cs + [ch]);
    assert (cs + [ch])[..|cs + [ch]| - 1] == cs;
    hide *;
    SameFront(cs, ch);
  }

  lemma SameFront(cs: seq<Ch>, ch: Ch)
    requires Tail(cs + [ch]) == Tail(cs) + [ch]
    ensures Front(cs + [ch]) == Front(cs)
  {
    hide Tail;
    var n := |Tail(cs)|;
    assert |Tail(cs + [ch])| == n + 1;
    TakeFront(cs, ch, |cs| - n);
  }

  lemma TakeFront(cs: seq<Ch>, ch: Ch, n: nat)
    requires n <= |cs|
    ensures (cs + [ch])[..n] == cs[..n]
  {
  }

  lemma TailStep(cs: seq<Ch>)
    ensures Tail(cs) == if EndsWhite(cs) then Tail(cs[..|cs| - 1]) + [cs[|cs| - 1]] else []
  {
    hide EndsWhite;
  }

  // Another character ends it.
  lemma AddChar(cs: seq<Ch>, ch: Ch)
    requires !IsWhite(ch)
    ensures Tail(cs + [ch]) == [] && Front(cs + [ch]) == cs + [ch]
    ensures Squeezed(cs + [ch]) == Squeezed(Front(cs)) + Run(Tail(cs), ch != EQUAL) + [ch]
  {
    var x := cs + [ch];
    assert EndLen(x) == 1 && x[..|x| - 1] == cs && x[|x| - 1..] == [ch];
  }

  lemma AddFormFeed(cs: seq<Ch>)
    ensures var x := cs + [FORMFEED, NL];
            && Tail(x) == [] && Front(x) == x
            && Squeezed(x) == Squeezed(Front(cs)) + Run(Tail(cs), true) + [FORMFEED, NL]
  {
    var x := cs + [FORMFEED, NL];
    assert EndLen(x) == 2 && x[..|x| - 2] == cs && x[|x| - 2..] == [FORMFEED, NL];
  }

  // At the end of the header.
  lemma AtEnd(cs: seq<Ch>)
    ensures Squeezed(cs) == Squeezed(Front(cs)) + Run(Tail(cs), false)
  {
    hide Tail, Run, EndsWhite, Squeezed;
    TailStep(cs);
    RunNone();
    if EndsWhite(cs) {
      SqueezedStep(cs);
      assert cs[..|cs|] == cs && cs[|cs|..] == [];
      var x := Squeezed(Front(cs)) + Run(Tail(cs), false);
      assert x + [] == x;
    } else {
      assert Front(cs) == cs;
      assert Squeezed(cs) + [] == Squeezed(cs);
    }
  }

  lemma RunNone()
    ensures Run([], false) == [] && Run([], true) == []
  {
  }

  lemma SqueezedStep(cs: seq<Ch>)
    requires cs != []
    ensures var g, end := cs[..|cs| - EndLen(cs)], cs[|cs| - EndLen(cs)..];
            Squeezed(cs) == Squeezed(Front(g)) + Run(Tail(g), end != [] && end != [EQUAL]) + end
  {
    hide Run, Tail, Front;
  }

  // --- a run that is held back ----------------------------------------------------------------------

  // What of a run is put before its end has been seen, and what is put then.
  function Early(w: seq<Ch>): seq<Ch> { if Blanks(w) == |w| || Blanks(w) == 0 then [] else [w[0]] }

  function Late(w: seq<Ch>): seq<Ch> {
    var k := Blanks(w);
    if k == |w| then (if |w| <= 2 then w else [w[0], w[|w| - 1]]) else [NL] + LastBlank(w[k + 1..])
  }

  lemma RunIs(w: seq<Ch>)
    ensures Run(w, false) == Early(w) + Late(w)
    ensures w == [] || w[|w| - 1] != NL ==> Run(w, true) == Early(w) + Late(w)
    ensures w != [] && w[|w| - 1] == NL ==> Run(w, true) == Early(w) + [NL] && Late(w) != [] && Late(w)[0] == NL
  {
    var k := Blanks(w);
    if k < |w| {
      var e := if k == 0 then [] else [w[0]];
      Regroup(e, [NL], LastBlank(w[k + 1..]));
      assert e + [NL] + [] == e + [NL];
    } else {
      assert [] + Late(w) == Late(w);
    }
  }

  lemma {:induction false} BlanksAdd(w: seq<Ch>, ch: Ch)
    ensures Blanks(w + [ch]) == if Blanks(w) < |w| then Blanks(w) else if IsLWSP(ch) then |w| + 1 else |w|
  {
    if w == [] {
      assert w + [ch] == [ch] && [ch][1..] == [];
    } else {
      assert (w + [ch])[1..] == w[1..] + [ch];
      BlanksAdd(w[1..], ch);
    }
  }

  // One more blank: it is the last one.
  lemma BlankAdded(w: seq<Ch>, ch: Ch)
    requires IsLWSP(ch)
    ensures Early(w + [ch]) == Early(w)
    ensures Late(w + [ch]) == if w == [] then [ch] else [Late(w)[0], ch]
    ensures w != [] ==> Late(w) != []
  {
    BlanksAdd(w, ch);
    var k := Blanks(w);
    if k < |w| {
      assert (w + [ch])[k + 1..] == w[k + 1..] + [ch];
      assert (w[k + 1..] + [ch])[|w| - k - 1] == ch;
    }
  }

  // A line end behind blanks, and behind another line end.
  lemma LineAdded(w: seq<Ch>)
    ensures w == [] ==> Early([NL]) == [] && Late([NL]) == [NL]
    ensures w != [] && Blanks(w) == |w| ==> Early(w + [NL]) == [w[0]] && Late(w + [NL]) == [NL]
    ensures Blanks(w) < |w| ==> Early(w + [NL]) == Early(w) && Late(w + [NL]) == Late(w)
  {
    hide Early, Late, Blanks;
    if Blanks(w) == |w| {
      LineBehindBlanks(w);
      assert [] + [NL] == [NL];
    } else {
      LineBehindLine(w);
    }
  }

  lemma LineBehindBlanks(w: seq<Ch>)
    requires Blanks(w) == |w|
    ensures Early(w + [NL]) == (if w == [] then [] else [w[0]]) && Late(w + [NL]) == [NL]
  {
    hide Blanks;
    BlanksAdd(w, NL);
    assert (w + [NL])[|w| + 1..] == [];
    assert [NL] + [] == [NL];
  }

  lemma LineBehindLine(w: seq<Ch>)
    requires Blanks(w) < |w|
    ensures Early(w + [NL]) == Early(w) && Late(w + [NL]) == Late(w)
  {
    hide Blanks, LastBlank, Late;
    BlanksAdd(w, NL);
    assert (w + [NL])[0] == w[0];
    LateBehindLine(w);
  }

  lemma LateBehindLine(w: seq<Ch>)
    requires Blanks(w) < |w| && Blanks(w + [NL]) == Blanks(w)
    ensures Late(w + [NL]) == Late(w)
  {
    hide Blanks, LastBlank, Late;
    var k := Blanks(w);
    LateLine(w);
    LateLine(w + [NL]);
    DropAdded(w, k + 1);
    LastBehind(w[k + 1..]);
  }

  lemma LateLine(w: seq<Ch>)
    requires Blanks(w) < |w|
    ensures Late(w) == [NL] + LastBlank(w[Blanks(w) + 1..])
  {
  }

  lemma DropAdded(w: seq<Ch>, n: nat)
    requires n <= |w|
    ensures (w + [NL])[n..] == w[n..] + [NL]
  {
  }

  lemma LastBehind(v: seq<Ch>)
    ensures LastBlank(v + [NL]) == LastBlank(v) && LastBlank([]) == []
  {
    assert (v + [NL])[..|v|] == v;
  }

  // --- which headers come out whole ------------------------------------------------------------------

  // Character i is a line end of its own.
  predicate LineAt(cs: seq<Ch>, i: nat)
    requires i < |cs|
  {
    cs[i] == NL && (i == 0 || cs[i - 1] != FORMFEED)
  }

  predicate BlankAt(cs: seq<Ch>, i: nat)
    requires i < |cs|
  {
    cs[i] == 9 || cs[i] == 32
  }

  // Three characters of which one is lost: two blanks in a row beside another or beside a line
  // end, or a line of one blank.
  predicate TripleLost(cs: seq<Ch>, i: nat)
    requires i + 2 < |cs|
  {
    BlankAt(cs, i + 1) && (BlankAt(cs, i) || LineAt(cs, i)) && (BlankAt(cs, i + 2) || LineAt(cs, i + 2))
  }

  predicate EmptyLine(cs: seq<Ch>, i: nat)
    requires i + 1 < |cs|
  {
    LineAt(cs, i) && LineAt(cs, i + 1)
  }

  /** No three blanks in a row, no two in front of or behind a line end, no line of a blank only
      and no empty line. */
  predicate Tidy(cs: seq<Ch>) {
    && (forall i: nat | i + 2 < |cs| :: !TripleLost(cs, i))
    && (forall i: nat | i + 1 < |cs| :: !EmptyLine(cs, i))
  }

  predicate AllWhite(w: seq<Ch>) { forall i | 0 <= i < |w| :: IsWhite(w[i]) }

  // A run is put whole just when it is tidy.
  lemma RunWhole(w: seq<Ch>, field: bool)
    requires AllWhite(w)
    ensures |Run(w, field)| <= |w|
    ensures Run(w, field) == w <==> Tidy(w)
    ensures |Run(w, field)| == |w| <==> Tidy(w)
  {
    var k := Blanks(w);
    if k == |w| {
      if |w| > 2 { assert TripleLost(w, 0); }
    } else if k >= 2 {
      assert TripleLost(w, k - 2);
    } else if k + 1 < |w| && w[k + 1] == NL {
      assert EmptyLine(w, k);
      TwoLines(w, k);
    } else if k + 2 < |w| {
      assert TripleLost(w, k);
    } else if k + 1 < |w| {
      assert w[k + 1..] == [w[k + 1]];
    }
  }

  lemma TwoLines(w: seq<Ch>, k: nat)
    requires k + 1 < |w| && w[k + 1] == NL
    ensures LastBlank(w[k + 1..]) == [] || |w| > k + 2
  {
    if |w| == k + 2 { assert w[k + 1..] == [NL] && [NL][..0] == []; }
  }

  // A run stands behind something else than white space, and not behind a form feed.
  predicate RunBehind(f: seq<Ch>, w: seq<Ch>) {
    !EndsWhite(f) && AllWhite(w) && (w != [] && w[0] == NL && f != [] ==> f[|f| - 1] != FORMFEED)
  }

  lemma {:induction false} TailBehind(cs: seq<Ch>)
    ensures RunBehind(Front(cs), Tail(cs))
  {
    FrontEnds(cs);
    if EndsWhite(cs) {
      var g, ch := cs[..|cs| - 1], cs[|cs| - 1];
      TailBehind(g);
      assert cs == g + [ch];
      WhiteEnds(g, ch);
      AddWhite(g, ch);
      if Tail(g) == [] { assert Front(g) == g; }
    }
  }

  // What ends a text that does not end in white space.
  predicate IsEnd(end: seq<Ch>) { end == [] || end == [FORMFEED, NL] || (|end| == 1 && !IsWhite(end[0])) }

  lemma EndIs(cs: seq<Ch>)
    ensures IsEnd(cs[|cs| - EndLen(cs)..])
  {
    if cs != [] && !EndsWhite(cs) && cs[|cs| - 1] == NL {
      assert cs[|cs| - 2..] == [FORMFEED, NL];
    }
  }

  // A character white is white in its run.
  predicate WhiteAt(cs: seq<Ch>, i: nat)
    requires i < |cs|
  {
    BlankAt(cs, i) || LineAt(cs, i)
  }

  lemma PlaceIs(f: seq<Ch>, w: seq<Ch>, end: seq<Ch>, i: nat)
    requires RunBehind(f, w) && IsEnd(end) && i < |f + w + end|
    ensures var cs, n := f + w + end, |f|;
            && (i < n ==> BlankAt(cs, i) == BlankAt(f, i) && LineAt(cs, i) == LineAt(f, i))
            && (i + 1 == n ==> !WhiteAt(cs, i))
            && (n <= i < n + |w| ==> BlankAt(cs, i) == BlankAt(w, i - n) && LineAt(cs, i) == LineAt(w, i - n))
            && (i >= n + |w| ==> !WhiteAt(cs, i))
  {
    var cs := f + w + end;
    if i < |f| {
      assert cs[i] == f[i] && (i > 0 ==> cs[i - 1] == f[i - 1]);
    } else if i < |f| + |w| {
      assert cs[i] == w[i - |f|];
      if i > |f| { assert cs[i - 1] == w[i - |f| - 1] && IsWhite(w[i - |f| - 1]); }
      else if i > 0 { assert cs[i - 1] == f[|f| - 1]; }
    } else {
      assert cs[i] == end[i - |f| - |w|];
      if end == [FORMFEED, NL] && i == |f| + |w| + 1 { assert cs[i - 1] == FORMFEED; }
    }
  }

  lemma TidySplit(f: seq<Ch>, w: seq<Ch>, end: seq<Ch>)
    requires RunBehind(f, w) && IsEnd(end)
    ensures Tidy(f + w + end) <==> Tidy(f) && Tidy(w)
  {
    hide EndsWhite, AllWhite, IsEnd, BlankAt, LineAt;
    var cs, n := f + w + end, |f|;
    forall i: nat | i < |cs|
      ensures i < n ==> BlankAt(cs, i) == BlankAt(f, i) && LineAt(cs, i) == LineAt(f, i)
      ensures i + 1 == n ==> !WhiteAt(cs, i)
      ensures n <= i < n + |w| ==> BlankAt(cs, i) == BlankAt(w, i - n) && LineAt(cs, i) == LineAt(w, i - n)
      ensures i >= n + |w| ==> !WhiteAt(cs, i)
    {
      PlaceIs(f, w, end, i);
    }
    if Tidy(cs) {
      forall i: nat | i + 2 < |f| ensures !TripleLost(f, i) { assert !TripleLost(cs, i); }
      forall i: nat | i + 1 < |f| ensures !EmptyLine(f, i) { assert !EmptyLine(cs, i); }
      forall i: nat | i + 2 < |w| ensures !TripleLost(w, i) { assert !TripleLost(cs, n + i); }
      forall i: nat | i + 1 < |w| ensures !EmptyLine(w, i) { assert !EmptyLine(cs, n + i); }
    }
    if Tidy(f) && Tidy(w) {
      forall i: nat | i + 2 < |cs|
        ensures !TripleLost(cs, i)
      {
        if i + 2 < n { assert !TripleLost(f, i); }
        else if n <= i && i + 2 < n + |w| { assert !TripleLost(w, i - n); }
      }
      forall i: nat | i + 1 < |cs|
        ensures !EmptyLine(cs, i)
      {
        if i + 1 < n { assert !EmptyLine(f, i); }
        else if n <= i && i + 1 < n + |w| { assert !EmptyLine(w, i - n); }
      }
    }
  }

  /** A header comes out whole exactly when it is tidy. */
  lemma {:induction false} Whole(cs: seq<Ch>)
    ensures Squeezed(cs) == cs <==> Tidy(cs)
    ensures |Squeezed(cs)| <= |cs| && (|Squeezed(cs)| == |cs| <==> Tidy(cs))
    decreases |cs|
  {
    hide *;
    WholeNone();
    if cs != [] {
      var e := EndLen(cs);
      var g, end := cs[..|cs| - e], cs[|cs| - e..];
      var f, w := Front(g), Tail(g);
      Smaller(cs);
      SqueezedStep(cs);
      Whole(f);
      TailBehind(g);
      EndIs(cs);
      TidySplit(f, w, end);
      RunWhole(w, end != [] && end != [EQUAL]);
      assert cs == f + w + end;
      Parts(Squeezed(f), Run(w, end != [] && end != [EQUAL]), f, w, end);
    }
  }

  lemma WholeNone()
    ensures Squeezed([]) == [] && Tidy([])
  {
  }

  lemma Smaller(cs: seq<Ch>)
    requires cs != []
    ensures |Front(cs[..|cs| - EndLen(cs)])| < |cs|
  {
    TailWhite(cs);
  }

  lemma Parts(a: seq<Ch>, b: seq<Ch>, f: seq<Ch>, w: seq<Ch>, end: seq<Ch>)
    requires |a| <= |f| && |b| <= |w|
    ensures |a + b + end| <= |f + w + end| && (|a + b + end| == |f + w + end| <==> |a| == |f| && |b| == |w|)
    ensures a == f && b == w ==> a + b + end == f + w + end
  {
  }

  // --- what exactly is lost ---------------------------------------------------------------------------

  lemma {:induction false} TailIn(x: seq<Ch>, b: seq<Ch>)
    requires b != [] && !IsWhite(b[0])
    ensures EndsWhite(x + b) == EndsWhite(b) && Tail(x + b) == Tail(b)
    ensures |Tail(b)| < |b|
    decreases |b|
  {
    LastTwo(x, b);
    TailStep(b);
    TailStep(x + b);
    if EndsWhite(b) {
      assert (x + b)[..|x + b| - 1] == x + b[..|b| - 1];
      TailIn(x, b[..|b| - 1]);
    }
  }

  lemma LastTwo(x: seq<Ch>, b: seq<Ch>)
    requires b != [] && !IsWhite(b[0])
    ensures EndsWhite(x + b) == EndsWhite(b) && EndLen(x + b) == EndLen(b) && (EndsWhite(b) ==> |b| > 1)
  {
    assert (x + b)[|x + b| - 1] == b[|b| - 1];
    if |b| > 1 { assert (x + b)[|x + b| - 2] == b[|b| - 2]; }
  }

  lemma FrontIn(x: seq<Ch>, b: seq<Ch>)
    requires b != [] && !IsWhite(b[0])
    ensures Front(x + b) == x + Front(b) && Front(b) != [] && Front(b)[0] == b[0]
  {
    hide Tail;
    TailIn(x, b);
  }

  // A text that is one character, or a form feed with its line end.
  lemma SingleEnd(x: seq<Ch>, b: seq<Ch>)
    requires b != [] && !IsWhite(b[0]) && EndLen(b) == |b|
    ensures Squeezed(x + b) == Squeezed(Front(x)) + Run(Tail(x), b[0] != EQUAL) + b
    ensures Squeezed(b) == b
  {
    SingleIs(b);
    SingleNone();
    hide *;
    assert [] + b == b && [] + [] + b == b;
    if |b| == 1 {
      assert b == [b[0]];
      AddChar(x, b[0]);
      AddChar([], b[0]);
    } else {
      AddFormFeed(x);
      AddFormFeed([]);
    }
  }

  lemma SingleIs(b: seq<Ch>)
    requires b != [] && EndLen(b) == |b|
    ensures |b| == 1 || b == [FORMFEED, NL]
  {
    hide Tail;
  }

  lemma SingleNone()
    ensures Squeezed([]) == [] && Front([]) == [] && Tail([]) == [] && Run([], true) == Run([], false) == []
  {
  }

  /** In front of a character that is not white the header falls in two: what is put of both does
      not depend on the other, but for the run between them. */
  lemma {:induction false} Behind(x: seq<Ch>, b: seq<Ch>)
    requires b != [] && !IsWhite(b[0])
    ensures Squeezed(x + b) == Squeezed(Front(x)) + Run(Tail(x), b[0] != EQUAL) + Squeezed(b)
    decreases |b|
  {
    hide *;
    if EndLen(b) == |b| {
      SingleEnd(x, b);
    } else {
      var e := EndLen(b);
      var g, end := b[..|b| - e], b[|b| - e..];
      BehindStep(x, b, g, end);
      Behind(x, Front(g));
      var r := Run(Tail(g), end != [] && end != [EQUAL]);
      var h := Squeezed(Front(x)) + Run(Tail(x), b[0] != EQUAL);
      assert (h + Squeezed(Front(g))) + r + end == h + (Squeezed(Front(g)) + r + end);
    }
  }

  // The end of b is that of x and b.
  lemma BehindStep(x: seq<Ch>, b: seq<Ch>, g: seq<Ch>, end: seq<Ch>)
    requires b != [] && !IsWhite(b[0]) && EndLen(b) < |b| && g == b[..|b| - EndLen(b)] && end == b[|b| - EndLen(b)..]
    ensures Front(g) != [] && Front(g)[0] == b[0] && |Front(g)| < |b|
    ensures Squeezed(b) == Squeezed(Front(g)) + Run(Tail(g), end != [] && end != [EQUAL]) + end
    ensures Squeezed(x + b) == Squeezed(x + Front(g)) + Run(Tail(g), end != [] && end != [EQUAL]) + end
  {
    LastTwo(x, b);
    hide *;
    assert b == g + end && g[0] == b[0];
    SqueezedIs(b, g, end);
    FrontIn(x, g);
    TailIn(x, g);
    Regroup(x, g, end);
    SqueezedIs(x + b, x + g, end);
  }

  lemma SqueezedIs(cs: seq<Ch>, g: seq<Ch>, end: seq<Ch>)
    requires cs != [] && cs == g + end && |end| == EndLen(cs)
    ensures Squeezed(cs) == Squeezed(Front(g)) + Run(Tail(g), end != [] && end != [EQUAL]) + end
    ensures |Front(g)| < |cs|
  {
    hide Run, Tail, Front, EndLen;
    assert cs[..|cs| - |end|] == g && cs[|cs| - |end|..] == end;
    Smaller(cs);
  }

  // A run behind a text that can be told from it.
  lemma {:induction false} TailOf(a: seq<Ch>, w: seq<Ch>)
    requires RunBehind(a, w)
    ensures Tail(a + w) == w && Front(a + w) == a
    decreases |w|
  {
    if w == [] {
      assert a + w == a;
      TailStep(a);
    } else {
      var v, ch := w[..|w| - 1], w[|w| - 1];
      assert a + w == (a + v) + [ch] && w == v + [ch];
      TailOf(a, v);
      NotFormFeed(a, v, ch);
      AddWhite(a + v, ch);
    }
  }

  lemma NotFormFeed(a: seq<Ch>, v: seq<Ch>, ch: Ch)
    requires RunBehind(a, v + [ch])
    ensures RunBehind(a, v) && IsWhite(ch)
    ensures ch == NL && a + v != [] ==> (a + v)[|a + v| - 1] != FORMFEED
  {
    assert forall i | 0 <= i < |v| :: v[i] == (v + [ch])[i];
    assert (v + [ch])[|v|] == ch;
    if v != [] { assert (a + v)[|a + v| - 1] == v[|v| - 1]; } else { assert a + v == a; }
  }

  // What a run becomes between two texts, or at the end of the header.
  lemma Between(a: seq<Ch>, w: seq<Ch>, b: seq<Ch>)
    requires RunBehind(a, w) && (b != [] ==> !IsWhite(b[0]))
    ensures Squeezed(a + w + b) == Squeezed(a) + Run(w, b != [] && b[0] != EQUAL) + Squeezed(b)
  {
    TailOf(a, w);
    SingleNone();
    hide *;
    if b == [] {
      AtEnd(a + w);
      assert a + w + b == a + w;
      assert Squeezed(a) + Run(w, false) + [] == Squeezed(a) + Run(w, false);
    } else {
      Behind(a + w, b);
    }
  }

  predicate AllBlank(u: seq<Ch>) { forall i | 0 <= i < |u| :: IsLWSP(u[i]) }

  lemma {:induction false} BlanksOf(u: seq<Ch>, v: seq<Ch>)
    requires AllBlank(u) && (v != [] ==> !IsLWSP(v[0]))
    ensures Blanks(u + v) == |u|
  {
    if u == [] {
      assert u + v == v;
    } else {
      assert (u + v)[1..] == u[1..] + v;
      BlanksOf(u[1..], v);
    }
  }

  lemma RunOfBlanks(u: seq<Ch>, field: bool)
    requires AllBlank(u)
    ensures Run(u, field) == if |u| <= 2 then u else [u[0], u[|u| - 1]]
  {
    BlanksOf(u, []);
    assert u + [] == u;
  }

  lemma RunOfLine(u: seq<Ch>, m: seq<Ch>, field: bool)
    requires AllBlank(u)
    ensures Run(u + [NL] + m, field) ==
            (if u == [] then [] else [u[0]]) + [NL]
            + (if field && (m == [] || m[|m| - 1] == NL) then [] else LastBlank(m))
  {
    hide Blanks, LastBlank;
    var w := u + [NL] + m;
    Regroup(u, [NL], m);
    BlanksOf(u, [NL] + m);
    LineIn(w, u, m);
  }

  lemma LineIn(w: seq<Ch>, u: seq<Ch>, m: seq<Ch>)
    requires w == u + [NL] + m
    ensures w[|u| + 1..] == m && (u != [] ==> w[0] == u[0])
    ensures w[|w| - 1] == NL <==> m == [] || m[|m| - 1] == NL
  {
    if m != [] { assert w[|w| - 1] == m[|m| - 1]; }
  }

  /** The exact loss, between a text a that ends in another character than white space or a form
      feed and a text b that begins with such a character, or the end of the header. Of blanks
      only the first and the last are put. Of blanks u in front of a line end, the first; and of
      what is white behind it the last blank, but none when a field begins directly behind a line
      end. */
  lemma Loss(a: seq<Ch>, u: seq<Ch>, m: seq<Ch>, b: seq<Ch>)
    requires a == [] || (!IsWhite(a[|a| - 1]) && a[|a| - 1] != FORMFEED)
    requires AllBlank(u) && AllWhite(m) && (b != [] ==> !IsWhite(b[0]))
    ensures Squeezed(a + u + b) == Squeezed(a) + (if |u| <= 2 then u else [u[0], u[|u| - 1]]) + Squeezed(b)
    ensures var field := b != [] && b[0] != EQUAL;
            Squeezed(a + (u + [NL] + m) + b) ==
            Squeezed(a)
            + ((if u == [] then [] else [u[0]]) + [NL]
               + (if field && (m == [] || m[|m| - 1] == NL) then [] else LastBlank(m)))
            + Squeezed(b)
  {
    var w := u + [NL] + m;
    assert AllWhite(w);
    assert !EndsWhite(a);
    assert RunBehind(a, u) && RunBehind(a, w);
    hide *;
    Between(a, u, b);
    Between(a, w, b);
    RunOfBlanks(u, b != [] && b[0] != EQUAL);
    RunOfLine(u, m, b != [] && b[0] != EQUAL);
  }

  /** A folded line: of the blanks u in front of the line end the first is put, of the blanks v
      behind it the last. */
  lemma FoldLoss(a: seq<Ch>, u: seq<Ch>, v: seq<Ch>, b: seq<Ch>)
    requires a == [] || (!IsWhite(a[|a| - 1]) && a[|a| - 1] != FORMFEED)
    requires AllBlank(u) && AllBlank(v) && v != [] && (b != [] ==> !IsWhite(b[0]))
    ensures Squeezed(a + (u + [NL] + v) + b) ==
            Squeezed(a) + ((if u == [] then [] else [u[0]]) + [NL] + [v[|v| - 1]]) + Squeezed(b)
  {
    assert AllWhite(v) && LastBlank(v) == [v[|v| - 1]] && v[|v| - 1] != NL;
    hide *;
    Loss(a, u, v, b);
  }
}
