/** What `SLLparse` puts (delegate/rary/SLL.cpp), as text: lines of a name, "=" and a value. */
module SllLines {
  import opened SllGrammar
  import opened SllParser
  import opened Sequences

  /** A line that entry e puts on a source s: its name and its gate - of a set of characters the
      first - if it has PUTGATE, or its name and a part of the source if it has PUTVAL. */
  ghost predicate LineOf(e: Entry, s: string, line: string) {
    || (e.putgate && line == e.name + "=" + (if e.charset then e.gate[..if e.gate == "" then 0 else 1]
                                             else if e.otherwise then "" else e.gate) + "\n")
    || (e.putval && e.dest.Recurse?
        && exists a: nat, b: nat | a <= b <= |s| :: line == e.name + "=" + s[a..b] + "\n")
  }

  // Some entry of the table puts the line.
  ghost predicate Line(g: Grammar, s: string, line: string) {
    exists i, k | 0 <= i < |g| && 0 <= k < |g[i].entries| :: LineOf(g[i].entries[k], s, line)
  }

  function Joined(lines: seq<string>): string {
    if lines == [] then "" else lines[0] + Joined(lines[1..])
  }

  /** The text is lines that entries of the table put, one behind the other. */
  ghost predicate Lines(g: Grammar, s: string, out: string) {
    exists lines: seq<string> :: out == Joined(lines) && forall l | l in lines :: Line(g, s, l)
  }

  lemma {:induction false} JoinedConcat(a: seq<string>, b: seq<string>)
    ensures Joined(a + b) == Joined(a) + Joined(b)
  {
    if a == [] {
      assert a + b == b;
    } else {
      JoinedConcat(a[1..], b);
      assert (a + b)[1..] == a[1..] + b;
    }
  }

  lemma NoLines(g: Grammar, s: string)
    ensures Lines(g, s, "")
  {
    assert "" == Joined([]);
  }

  lemma LinesConcat(g: Grammar, s: string, a: string, b: string)
    requires Lines(g, s, a) && Lines(g, s, b)
    ensures Lines(g, s, a + b)
  {
    hide Line;
    var as', bs :| a == Joined(as') && b == Joined(bs)
                   && (forall l | l in as' :: Line(g, s, l)) && (forall l | l in bs :: Line(g, s, l));
    JoinedConcat(as', bs);
    assert a + b == Joined(as' + bs);
  }

  lemma OneLine(g: Grammar, s: string, i: nat, k: nat, line: string)
    requires i < |g| && k < |g[i].entries| && LineOf(g[i].entries[k], s, line)
    ensures Lines(g, s, line)
  {
    hide LineOf;
    assert Line(g, s, line);
    assert Joined([line]) == line by { assert [line][1..] == []; }
  }

  // --- the source that is left ------------------------------------------------------------------

  predicate EndOf(a: string, s: string) { |a| <= |s| && s[|s| - |a|..] == a }

  lemma EndOn(a: string, b: string, s: string)
    requires EndOf(a, b) && EndOf(b, s)
    ensures EndOf(a, s)
  {
    assert s[|s| - |a|..] == s[|s| - |b|..][|b| - |a|..];
  }

  lemma EndBehind(src: string, s: string, n: nat)
    requires EndOf(src, s) && n <= |src|
    ensures EndOf(src[n..], s) && EndOf(src[n..], src)
  {
  }

  // What a call has read is a part of the source.
  lemma PartOf(src: string, rest: string, s: string)
    requires EndOf(src, s) && EndOf(rest, src)
    ensures exists a: nat, b: nat | a <= b <= |s| :: src[..|src| - |rest|] == s[a..b]
  {
    var a: nat, b: nat := |s| - |src|, |s| - |rest|;
    assert src[..|src| - |rest|] == s[a..b];
  }

  // --- what rows put -----------------------------------------------------------------------------

  lemma GateLine(g: Grammar, i: nat, k: nat, src: string, s: string, put: bool)
    requires i < |g| && k < |g[i].entries| && GateMatches(g[i].entries[k], src)
    ensures Lines(g, s, GateText(g[i].entries[k], put)) && (!put ==> GateText(g[i].entries[k], put) == "")
  {
    var e := g[i].entries[k];
    if put && e.putgate {
      assert e.gate[..|e.gate|] == e.gate && e.gate[..0] == "";
      assert LineOf(e, s, GateText(e, put));
      hide LineOf, GateText;
      OneLine(g, s, i, k, GateText(e, put));
    } else {
      NoLines(g, s);
    }
  }

  lemma ValueLine(g: Grammar, i: nat, k: nat, src: string, rest: string, s: string)
    requires i < |g| && k < |g[i].entries| && g[i].entries[k].putval && g[i].entries[k].dest.Recurse?
    requires EndOf(src, s) && EndOf(rest, src)
    ensures Lines(g, s, PutVal(g[i].entries[k].name, src[..|src| - |rest|]))
  {
    PartOf(src, rest, s);
    var e := g[i].entries[k];
    var line := PutVal(e.name, src[..|src| - |rest|]);
    var a: nat, b: nat :| a <= b <= |s| && src[..|src| - |rest|] == s[a..b];
    assert line == e.name + "=" + s[a..b] + "\n";
    assert LineOf(e, s, line);
    OneLine(g, s, i, k, line);
  }

  // A result whose output is lines, and that leaves an end of the source.
  ghost predicate Fine(g: Grammar, s: string, src: string, put: bool, r: Result) {
    r.Ok? ==> EndOf(r.rest, src) && Lines(g, s, r.out) && (!put ==> r.out == "")
  }

  lemma FineAfter(g: Grammar, s: string, src: string, src': string, put: bool, t: string, r: Result)
    requires Fine(g, s, src', put, r) && EndOf(src', src) && Lines(g, s, t) && (!put ==> t == "")
    ensures Fine(g, s, src, put, After(t, r))
  {
    hide Lines;
    if r.Ok? {
      EndOn(r.rest, src', src);
      LinesConcat(g, s, t, r.out);
    }
  }

  lemma {:induction false} PutsLines(g: Grammar, rank: Order, i: nat, src: string, room: int, put: bool, leak: bool,
                                     s: string)
    requires Ranked(g, rank) && i < |g| && EndOf(src, s)
    ensures Fine(g, s, src, put, Parse(g, rank, i, src, room, put, leak))
    decreases |src|, rank.of[i], |g[i].entries| + 1
  {
    FromPuts(g, rank, i, 0, false, src, src, room, put, leak, s);
  }

  lemma {:induction false} FromPuts(g: Grammar, rank: Order, i: nat, k: nat, matched: bool, src0: string, src: string,
                                    room: int, put: bool, leak: bool, s: string)
    requires Ranked(g, rank) && At(g, rank, i, k, src0, src) && EndOf(src, s)
    ensures Fine(g, s, src, put, From(g, rank, i, k, matched, src0, src, room, put, leak))
    decreases |src0|, rank.of[i], |g[i].entries| - k
  {
    hide Lines, GateText, EndOf;
    NoLines(g, s);
    SameEnd(src);
    if k < |g[i].entries| {
      var e := g[i].entries[k];
      var n, t := GateLen(e), GateText(e, put);
      if !Matches(g[i].kind, e, matched, src) {
        if g[i].kind.Alt? || e.optional {
          FromPuts(g, rank, i, k + 1, matched, src0, src, room, put, leak, s);
        }
      } else {
        GateLine(g, i, k, src, s, put);
        EndBehind(src, s, n);
        match e.dest
        case Success =>
        case Failure =>
        case Next =>
          FromPuts(g, rank, i, k + 1, matched || n > 0, src0, src[n..], room - |t|, put, leak, s);
          FineAfter(g, s, src, src[n..], put, t,
                    From(g, rank, i, k + 1, matched || n > 0, src0, src[n..], room - |t|, put, leak));
        case Recurse(j) =>
          RecursedPuts(g, rank, i, k, matched, src0, src, room, put, leak, s);
      }
    }
  }

  lemma SameEnd(src: string)
    ensures EndOf(src, src)
  {
  }

  lemma {:induction false} RecursedPuts(g: Grammar, rank: Order, i: nat, k: nat, matched: bool, src0: string,
                                        src: string, room: int, put: bool, leak: bool, s: string)
    requires Ranked(g, rank) && At(g, rank, i, k, src0, src) && k < |g[i].entries| && EndOf(src, s)
    requires Matches(g[i].kind, g[i].entries[k], matched, src) && g[i].entries[k].dest.Recurse?
    ensures Fine(g, s, src, put, From(g, rank, i, k, matched, src0, src, room, put, leak))
    decreases |src0|, rank.of[i], |g[i].entries| - k, 0
  {
    hide Lines, GateText, EndOf, Parse, From, Ranked, PutVal, Fine, BodyOutcome, Left, Matches, GateMatches;
    var e := g[i].entries[k];
    var n, t := GateLen(e), GateText(e, put);
    MatchesMeans(g[i].kind, e, matched, src);
    CallLowers(g, rank, i, k, matched, src0, src);
    FromRecurse(g, rank, i, k, matched, src0, src, room, put, leak);
    EndBehind(src, s, n);
    var r := Parse(g, rank, e.dest.rule, src[n..], room - |t|, put, leak);
    PutsLines(g, rank, e.dest.rule, src[n..], room - |t|, put, leak, s);
    BodyLines(g, i, k, src, s, room, put, r);
    RestOf(e, put, src[n..], room, r);
    var ob := BodyOutcome(e, put, src[n..], room, r);
    match ob
    case Full => NoIsFine(g, s, src, put);
    case Done(rest, out) =>
      if g[i].kind.Seq? {
        assert MustRead(rank.eats, g[i], k) ==> |rest| < |src|;
        AtNext(g, rank, i, k, src0, src, rest);
        FromPuts(g, rank, i, k + 1, matched || n > 0, src0, rest, room - |out|, put, leak, s);
        FineAfter(g, s, src, rest, put, out,
                  From(g, rank, i, k + 1, matched || n > 0, src0, rest, room - |out|, put, leak));
      } else {
        OkIsFine(g, s, src, put, rest, out);
      }
    case Fail =>
      if g[i].kind.Alt? || (n == 0 && e.optional) {
        var left := Left(e, put, leak);
        LeftLine(g, i, k, src, s, put, leak);
        AtNext(g, rank, i, k, src0, src, src);
        FromPuts(g, rank, i, k + 1, matched || n > 0, src0, src, room - |left|, put, leak, s);
        SameEnd(src);
        FineAfter(g, s, src, src, put, left,
                  From(g, rank, i, k + 1, matched || n > 0, src0, src, room - |left|, put, leak));
      } else {
        NoIsFine(g, s, src, put);
      }
  }

  lemma NoIsFine(g: Grammar, s: string, src: string, put: bool)
    ensures Fine(g, s, src, put, No)
  {
  }

  lemma OkIsFine(g: Grammar, s: string, src: string, put: bool, rest: string, out: string)
    requires EndOf(rest, src) && Lines(g, s, out) && (!put ==> out == "")
    ensures Fine(g, s, src, put, Ok(rest, out))
  {
    hide Lines, EndOf;
  }

  lemma LeftLine(g: Grammar, i: nat, k: nat, src: string, s: string, put: bool, leak: bool)
    requires i < |g| && k < |g[i].entries| && GateMatches(g[i].entries[k], src)
    ensures Lines(g, s, Left(g[i].entries[k], put, leak)) && (!put ==> Left(g[i].entries[k], put, leak) == "")
  {
    hide Lines, GateText, GateMatches;
    GateLine(g, i, k, src, s, put);
    NoLines(g, s);
  }

  // What a recursing row puts when its rule has succeeded.
  lemma BodyLines(g: Grammar, i: nat, k: nat, src: string, s: string, room: int, put: bool, r: Result)
    requires i < |g| && k < |g[i].entries| && GateMatches(g[i].entries[k], src) && g[i].entries[k].dest.Recurse?
    requires EndOf(src, s) && GateLen(g[i].entries[k]) <= |src|
    requires Fine(g, s, src[GateLen(g[i].entries[k])..], put, r)
    ensures r.Ok? ==> |r.rest| <= |src| - GateLen(g[i].entries[k])
    ensures var e := g[i].entries[k];
            var ob := BodyOutcome(e, put, src[GateLen(e)..], room, r);
            ob.Done? ==> EndOf(ob.rest, src) && EndOf(ob.rest, s) && Lines(g, s, ob.out) && (!put ==> ob.out == "")
  {
    hide Lines, GateText, PutVal, GateMatches;
    var e := g[i].entries[k];
    var t, src' := GateText(e, put), src[GateLen(e)..];
    GateLine(g, i, k, src, s, put);
    EndBehind(src, s, GateLen(e));
    if r.Ok? {
      EndOn(r.rest, src', src);
      EndOn(r.rest, src, s);
      if put && e.putval {
        var val := PutVal(e.name, src'[..|src'| - |r.rest|]);
        ValueLine(g, i, k, src', r.rest, s);
        LinesConcat(g, s, r.out, val);
        LinesConcat(g, s, t, r.out + val);
      } else {
        LinesConcat(g, s, t, r.out);
      }
    }
  }

  /** For every table and run: the output is lines, one behind the other, each of the name of an
      entry, "=", and that entry's gate or a part of the source; the source that is left is an end
      of the source. Without a function to put values there is no output. */
  lemma Output(g: Grammar, rank: Order, i: nat, src: string, room: int, put: bool, leak: bool)
    requires Ranked(g, rank) && i < |g|
    ensures var r := Parse(g, rank, i, src, room, put, leak);
            r.Ok? ==>
              && Lines(g, src, r.out) && (!put ==> r.out == "")
              && |r.rest| <= |src| && src[|src| - |r.rest|..] == r.rest
  {
    hide Lines, Ranked, Parse;
    SameEnd(src);
    PutsLines(g, rank, i, src, room, put, leak, src);
  }
}
