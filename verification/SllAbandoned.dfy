/** What abandoned alternatives leave in the output of `SLLparse` (delegate/rary/SLL.cpp): the
    text of a PUTGATE gate whose row is passed over because its recursion fails. */
module SllAbandoned {
  import opened Chars
  import opened SllGrammar
  import opened Peg
  import opened SllParser
  import opened Sequences

  /** What a run of the program passes over: the texts that rows passed over have left in the
      rules that were accepted, in order; whether any row at all, also in a rule that failed,
      has left a text; and whether some text to be captured did not fit the buffer. */
  datatype Marks = Marks(left: seq<string>, passed: bool, full: bool)

  const NO_MARKS := Marks([], false, false)

  function Both(a: Marks, b: Marks): (m: Marks) {
    Marks(a.left + b.left, a.passed || b.passed, a.full || b.full)
  }

  // A recursion that failed, in front of the rows behind it.
  function Over(t: string, sub: Marks, next: Marks): Marks {
    Marks((if t == "" then [] else [t]) + next.left, t != "" || sub.passed || next.passed, sub.full || next.full)
  }

  /** The run of the program on rule i. */
  function Run(g: Grammar, ghost rank: Order, i: nat, src: string, room: int, put: bool): (m: Marks)
    requires Ranked(g, rank) && i < |g|
    ensures "" !in m.left
    decreases |src|, rank.of[i], |g[i].entries| + 1
  {
    RunFrom(g, rank, i, 0, false, src, src, room, put)
  }

  // The run from row k on.
  function RunFrom(g: Grammar, ghost rank: Order, i: nat, k: nat, matched: bool,
                   ghost src0: string, src: string, room: int, put: bool): (m: Marks)
    requires Ranked(g, rank) && At(g, rank, i, k, src0, src)
    ensures "" !in m.left
    decreases |src0|, rank.of[i], |g[i].entries| - k
  {
    var kind, es := g[i].kind, g[i].entries;
    if k == |es| then NO_MARKS
    else
      var e := es[k];
      if !Matches(kind, e, matched, src) then
        if kind.Seq? && !e.optional then NO_MARKS
        else RunFrom(g, rank, i, k + 1, matched, src0, src, room, put)
      else
        var n, t := GateLen(e), GateText(e, put);
        var matched', src', room' := matched || n > 0, src[n..], room - |t|;
        match e.dest
        case Next => RunFrom(g, rank, i, k + 1, matched', src0, src', room', put)
        case Recurse(j) => Recursing(g, rank, i, k, matched, src0, src, room, put)
        case _ => NO_MARKS
  }

  // The run at a row that recurses.
  function Recursing(g: Grammar, ghost rank: Order, i: nat, k: nat, matched: bool,
                     ghost src0: string, src: string, room: int, put: bool): (m: Marks)
    requires Ranked(g, rank) && At(g, rank, i, k, src0, src) && k < |g[i].entries|
    requires Matches(g[i].kind, g[i].entries[k], matched, src) && g[i].entries[k].dest.Recurse?
    ensures "" !in m.left
    decreases |src0|, rank.of[i], |g[i].entries| - k, 0
  {
    var kind, e := g[i].kind, g[i].entries[k];
    var n, t := GateLen(e), GateText(e, put);
    var j, src', room' := e.dest.rule, src[n..], room - |t|;
    var sub := Run(g, rank, j, src', room', put);
    var res := Parse(g, rank, j, src', room', put, true);
    RestOf(e, put, src', room, res);
    match BodyOutcome(e, put, src', room, res)
    case Full => Marks([], sub.passed, true)
    case Done(rest, out) =>
      if kind.Alt? then sub
      else
        (AtNext(g, rank, i, k, src0, src, rest);
         Both(sub, RunFrom(g, rank, i, k + 1, matched || n > 0, src0, rest, room - |out|, put)))
    case Fail =>
      if kind.Seq? && (n > 0 || !e.optional) then Marks([], sub.passed, sub.full)
      else
        (AtNext(g, rank, i, k, src0, src, src);
         Over(t, sub, RunFrom(g, rank, i, k + 1, matched || n > 0, src0, src, room', put)))
  }

  // --- a run that passes over nothing ---------------------------------------------------------

  lemma {:induction false} NothingPassedFrom(g: Grammar, rank: Order, i: nat, k: nat, matched: bool,
                                             src0: string, src: string, room: int, put: bool)
    requires Ranked(g, rank) && At(g, rank, i, k, src0, src)
    requires !RunFrom(g, rank, i, k, matched, src0, src, room, put).passed
    ensures From(g, rank, i, k, matched, src0, src, room, put, true)
         == From(g, rank, i, k, matched, src0, src, room, put, false)
    decreases |src0|, rank.of[i], |g[i].entries| - k
  {
    hide GateText, PutVal, Guarded, AlwaysReads, Recursing, Recursed, Ranked;
    var kind, es := g[i].kind, g[i].entries;
    if k < |es| {
      var e := es[k];
      if !Matches(kind, e, matched, src) {
        if !(kind.Seq? && !e.optional) { NothingPassedFrom(g, rank, i, k + 1, matched, src0, src, room, put); }
      } else if e.dest.Next? {
        var n, t := GateLen(e), GateText(e, put);
        NothingPassedFrom(g, rank, i, k + 1, matched || n > 0, src0, src[n..], room - |t|, put);
      } else if e.dest.Recurse? {
        NothingPassedHere(g, rank, i, k, matched, src0, src, room, put);
      }
    }
  }

  lemma {:induction false} NothingPassedHere(g: Grammar, rank: Order, i: nat, k: nat, matched: bool,
                                             src0: string, src: string, room: int, put: bool)
    requires Ranked(g, rank) && At(g, rank, i, k, src0, src) && k < |g[i].entries|
    requires Matches(g[i].kind, g[i].entries[k], matched, src) && g[i].entries[k].dest.Recurse?
    requires !Recursing(g, rank, i, k, matched, src0, src, room, put).passed
    ensures From(g, rank, i, k, matched, src0, src, room, put, true)
         == From(g, rank, i, k, matched, src0, src, room, put, false)
    decreases |src0|, rank.of[i], |g[i].entries| - k, 0
  {
    hide GateText, PutVal, Guarded, AlwaysReads, From, Parse, BodyOutcome, At, Ranked, RunFrom, Run;
    FromRecurse(g, rank, i, k, matched, src0, src, room, put, true);
    FromRecurse(g, rank, i, k, matched, src0, src, room, put, false);
    CallLowers(g, rank, i, k, matched, src0, src);
    var kind, e := g[i].kind, g[i].entries[k];
    var n, t := GateLen(e), GateText(e, put);
    var j, src', room' := e.dest.rule, src[n..], room - |t|;
    var res := Parse(g, rank, j, src', room', put, true);
    NothingPassed(g, rank, j, src', room', put);
    RestOf(e, put, src', room, res);
    match BodyOutcome(e, put, src', room, res)
    case Full =>
    case Done(rest, out) =>
      if kind.Seq? {
        AtNext(g, rank, i, k, src0, src, rest);
        NothingPassedFrom(g, rank, i, k + 1, matched || n > 0, src0, rest, room - |out|, put);
      }
    case Fail =>
      if !(kind.Seq? && (n > 0 || !e.optional)) {
        AtNext(g, rank, i, k, src0, src, src);
        NothingPassedFrom(g, rank, i, k + 1, matched || n > 0, src0, src, room', put);
      }
  }

  /** A run in which no row leaves a text has the outcome of the parser that takes back what
      abandoned alternatives have put, for every table. */
  lemma {:induction false} NothingPassed(g: Grammar, rank: Order, i: nat, src: string, room: int, put: bool)
    requires Ranked(g, rank) && i < |g| && !Run(g, rank, i, src, room, put).passed
    ensures Parse(g, rank, i, src, room, put, true) == Parse(g, rank, i, src, room, put, false)
    decreases |src|, rank.of[i], |g[i].entries| + 1
  {
    NothingPassedFrom(g, rank, i, 0, false, src, src, room, put);
  }

  // --- texts in the output -------------------------------------------------------------------

  // out is free with t put in behind a.
  predicate Placed(out: string, free: string, t: string, a: string, b: string, c: string) {
    out == a + (t + b) && free == a + c
  }

  /** out is free with the texts put in, in order. */
  ghost predicate Inserted(out: string, free: string, texts: seq<string>)
    decreases |texts|
  {
    if texts == [] then out == free
    else exists a, b, c :: Placed(out, free, texts[0], a, b, c) && Inserted(b, c, texts[1..])
  }

  lemma FindPlace(out: string, free: string, texts: seq<string>) returns (a: string, b: string, c: string)
    requires Inserted(out, free, texts) && texts != []
    ensures out == a + (texts[0] + b) && free == a + c && Inserted(b, c, texts[1..])
  {
    a, b, c :| Placed(out, free, texts[0], a, b, c) && Inserted(b, c, texts[1..]);
  }

  lemma MakeInserted(a: string, t: string, b: string, c: string, texts: seq<string>)
    requires Inserted(b, c, texts)
    ensures Inserted(a + (t + b), a + c, [t] + texts)
  {
    var o, f, x := a + (t + b), a + c, [t] + texts;
    assert x[1..] == texts && x[0] == t;
    assert Placed(o, f, x[0], a, b, c) && Inserted(b, c, x[1..]);
  }

  lemma HeadTail(x: seq<string>)
    requires x != []
    ensures [x[0]] + x[1..] == x
  {
  }

  lemma InsertedBehind(p: string, out: string, free: string, texts: seq<string>)
    requires Inserted(out, free, texts)
    ensures Inserted(p + out, p + free, texts)
  {
    if texts != [] {
      var a, b, c := FindPlace(out, free, texts);
      hide Inserted;
      MakeInserted(p + a, texts[0], b, c, texts[1..]);
      HeadTail(texts);
      Regroup(p, a, texts[0] + b);
      Regroup(p, a, c);
    }
  }

  lemma {:induction false} InsertedBoth(out: string, free: string, x: seq<string>,
                                        out': string, free': string, y: seq<string>)
    requires Inserted(out, free, x) && Inserted(out', free', y)
    ensures Inserted(out + out', free + free', x + y)
    decreases |x|
  {
    if x == [] {
      assert x + y == y;
      InsertedBehind(out, out', free', y);
    } else {
      var a, b, c := FindPlace(out, free, x);
      InsertedBoth(b, c, x[1..], out', free', y);
      hide Inserted;
      MakeInserted(a, x[0], b + out', c + free', x[1..] + y);
      HeadTail(x);
      Regroup([x[0]], x[1..], y);
      Regroup(x[0], b, out');
      Regroup(a, x[0] + b, out');
      Regroup(a, c, free');
    }
  }

  lemma InsertedFirst(t: string, out: string, free: string, texts: seq<string>)
    requires Inserted(out, free, texts)
    ensures Inserted(t + out, free, [t] + texts)
  {
    hide Inserted;
    MakeInserted("", t, out, free, texts);
    assert "" + (t + out) == t + out && "" + free == free;
  }

  /** What has been inserted makes the text longer. */
  lemma {:induction false} InsertedLonger(out: string, free: string, texts: seq<string>)
    requires Inserted(out, free, texts) && "" !in texts
    ensures |out| >= |free| && (out == free <==> texts == [])
    decreases |texts|
  {
    if texts != [] {
      assert texts[0] in texts;
      var a, b, c := FindPlace(out, free, texts);
      InsertedLonger(b, c, texts[1..]);
    }
  }

  // --- runs that pass over rows ----------------------------------------------------------------

  // The output r of the program is that of the other parser, with the texts put in.
  ghost predicate Similar(r: Result, free: Result, texts: seq<string>) {
    if r.Ok? then free.Ok? && r.rest == free.rest && Inserted(r.out, free.out, texts) else free.No?
  }

  lemma SimilarAfter(t: string, r: Result, free: Result, texts: seq<string>)
    requires Similar(r, free, texts)
    ensures Similar(After(t, r), After(t, free), texts)
  {
    hide Inserted;
    if r.Ok? { InsertedBehind(t, r.out, free.out, texts); }
  }

  lemma SimilarBoth(out: string, free: string, x: seq<string>, r: Result, r': Result, y: seq<string>)
    requires Inserted(out, free, x) && Similar(r, r', y)
    ensures Similar(After(out, r), After(free, r'), x + y)
  {
    hide Inserted;
    if r.Ok? { InsertedBoth(out, free, x, r.out, r'.out, y); }
  }

  lemma SimilarOver(t: string, sub: Marks, next: Marks, r: Result, free: Result)
    requires Similar(r, free, next.left)
    ensures Similar(After(t, r), After("", free), Over(t, sub, next).left)
  {
    hide Inserted;
    AfterNothing(free);
    if r.Ok? {
      if t == "" {
        assert "" + r.out == r.out && [] + next.left == next.left;
      } else {
        InsertedFirst(t, r.out, free.out, next.left);
      }
    }
  }

  // The text of a recursing row, of the program and of the other parser.
  lemma SimilarBody(e: Entry, put: bool, src: string, room: int, room': int, r: Result, free: Result,
                    texts: seq<string>)
    requires Similar(r, free, texts) && "" !in texts && room <= room' && (r.Ok? ==> |r.rest| <= |src|)
    ensures var o, o' := BodyOutcome(e, put, src, room, r), BodyOutcome(e, put, src, room', free);
            && (o.Fail? ==> o'.Fail?)
            && (o.Done? ==>
                  && o'.Done? && o'.rest == o.rest && Inserted(o.out, o'.out, texts)
                  && room - |o.out| <= room' - |o'.out|)
  {
    hide Inserted, GateText, PutVal;
    if r.Ok? {
      var t, pv := GateText(e, put), PutVal(e.name, src[..|src| - |r.rest|]);
      InsertedBehind(t, r.out, free.out, texts);
      InsertedNone(pv);
      InsertedBoth(r.out, free.out, texts, pv, pv, []);
      InsertedBehind(t, r.out + pv, free.out + pv, texts + []);
      assert texts + [] == texts;
      InsertedLonger(r.out, free.out, texts);
    }
  }

  lemma InsertedNone(t: string)
    ensures Inserted(t, t, [])
  {
  }

  lemma {:induction false} SimilarFrom(g: Grammar, rank: Order, i: nat, k: nat, matched: bool,
                                       src0: string, src: string, room: int, room': int, put: bool)
    requires Ranked(g, rank) && At(g, rank, i, k, src0, src) && room <= room'
    requires !RunFrom(g, rank, i, k, matched, src0, src, room, put).full
    ensures Similar(From(g, rank, i, k, matched, src0, src, room, put, true),
                    From(g, rank, i, k, matched, src0, src, room', put, false),
                    RunFrom(g, rank, i, k, matched, src0, src, room, put).left)
    decreases |src0|, rank.of[i], |g[i].entries| - k
  {
    hide GateText, PutVal, Guarded, AlwaysReads, Recursing, Recursed, Ranked, Inserted;
    InsertedNone("");
    var kind, es := g[i].kind, g[i].entries;
    if k < |es| {
      var e := es[k];
      var n, t := GateLen(e), GateText(e, put);
      InsertedNone(t);
      if !Matches(kind, e, matched, src) {
        if !(kind.Seq? && !e.optional) { SimilarFrom(g, rank, i, k + 1, matched, src0, src, room, room', put); }
      } else if e.dest.Next? {
        var m, r := matched || n > 0, src[n..];
        SimilarFrom(g, rank, i, k + 1, m, src0, r, room - |t|, room' - |t|, put);
        SimilarAfter(t, From(g, rank, i, k + 1, m, src0, r, room - |t|, put, true),
                     From(g, rank, i, k + 1, m, src0, r, room' - |t|, put, false),
                     RunFrom(g, rank, i, k + 1, m, src0, r, room - |t|, put).left);
      } else if e.dest.Recurse? {
        SimilarHere(g, rank, i, k, matched, src0, src, room, room', put);
      }
    }
  }

  lemma {:induction false} SimilarHere(g: Grammar, rank: Order, i: nat, k: nat, matched: bool,
                                       src0: string, src: string, room: int, room': int, put: bool)
    requires Ranked(g, rank) && At(g, rank, i, k, src0, src) && k < |g[i].entries| && room <= room'
    requires Matches(g[i].kind, g[i].entries[k], matched, src) && g[i].entries[k].dest.Recurse?
    requires !Recursing(g, rank, i, k, matched, src0, src, room, put).full
    ensures Similar(From(g, rank, i, k, matched, src0, src, room, put, true),
                    From(g, rank, i, k, matched, src0, src, room', put, false),
                    Recursing(g, rank, i, k, matched, src0, src, room, put).left)
    decreases |src0|, rank.of[i], |g[i].entries| - k, 0
  {
    hide GateText, PutVal, Guarded, AlwaysReads, From, Parse, BodyOutcome, At, Ranked, RunFrom, Run, Inserted;
    FromRecurse(g, rank, i, k, matched, src0, src, room, put, true);
    FromRecurse(g, rank, i, k, matched, src0, src, room', put, false);
    CallLowers(g, rank, i, k, matched, src0, src);
    var kind, e := g[i].kind, g[i].entries[k];
    var n, t, m := GateLen(e), GateText(e, put), matched || GateLen(e) > 0;
    var j, src' := e.dest.rule, src[n..];
    var res := Parse(g, rank, j, src', room - |t|, put, true);
    var free := Parse(g, rank, j, src', room' - |t|, put, false);
    var sub := Run(g, rank, j, src', room - |t|, put);
    SubFull(g, rank, i, k, matched, src0, src, room, put);
    SimilarRun(g, rank, j, src', room - |t|, room' - |t|, put);
    RestOf(e, put, src', room, res);
    SimilarBody(e, put, src', room, room', res, free, sub.left);
    var ob, of := BodyOutcome(e, put, src', room, res), BodyOutcome(e, put, src', room', free);
    if ob.Done? {
      if kind.Seq? {
        AtNext(g, rank, i, k, src0, src, ob.rest);
        SimilarFrom(g, rank, i, k + 1, m, src0, ob.rest, room - |ob.out|, room' - |of.out|, put);
        SimilarBoth(ob.out, of.out, sub.left, From(g, rank, i, k + 1, m, src0, ob.rest, room - |ob.out|, put, true),
                    From(g, rank, i, k + 1, m, src0, ob.rest, room' - |of.out|, put, false),
                    RunFrom(g, rank, i, k + 1, m, src0, ob.rest, room - |ob.out|, put).left);
      }
    } else if ob.Fail? && !(kind.Seq? && (n > 0 || !e.optional)) {
      AtNext(g, rank, i, k, src0, src, src);
      SimilarFrom(g, rank, i, k + 1, m, src0, src, room - |t|, room', put);
      SimilarOver(t, sub, RunFrom(g, rank, i, k + 1, m, src0, src, room - |t|, put),
                  From(g, rank, i, k + 1, m, src0, src, room - |t|, put, true),
                  From(g, rank, i, k + 1, m, src0, src, room', put, false));
    }
  }

  lemma SubFull(g: Grammar, rank: Order, i: nat, k: nat, matched: bool, src0: string, src: string, room: int, put: bool)
    requires Ranked(g, rank) && At(g, rank, i, k, src0, src) && k < |g[i].entries|
    requires Matches(g[i].kind, g[i].entries[k], matched, src) && g[i].entries[k].dest.Recurse?
    requires !Recursing(g, rank, i, k, matched, src0, src, room, put).full
    ensures var e := g[i].entries[k];
            var src', room' := src[GateLen(e)..], room - |GateText(e, put)|;
            var res := Parse(g, rank, e.dest.rule, src', room', put, true);
            !Run(g, rank, e.dest.rule, src', room', put).full && !BodyOutcome(e, put, src', room, res).Full?
  {
    hide GateText, PutVal, From, Parse, BodyOutcome, RunFrom, Run, MustRead, Guarded, AlwaysReads;
  }

  lemma {:induction false} SimilarRun(g: Grammar, rank: Order, i: nat, src: string, room: int, room': int, put: bool)
    requires Ranked(g, rank) && i < |g| && room <= room' && !Run(g, rank, i, src, room, put).full
    ensures Similar(Parse(g, rank, i, src, room, put, true), Parse(g, rank, i, src, room', put, false),
                    Run(g, rank, i, src, room, put).left)
    decreases |src|, rank.of[i], |g[i].entries| + 1
  {
    hide Similar;
    SimilarFrom(g, rank, i, 0, false, src, src, room, room', put);
  }

  // --- what every successful run carries ---------------------------------------------------------

  /** The texts are in the output of a success, in order and apart. */
  ghost predicate Carried(r: Result, texts: seq<string>) {
    r.Ok? ==> exists free :: Inserted(r.out, free, texts)
  }

  lemma CarriedAfter(out: string, free: string, x: seq<string>, r: Result, y: seq<string>)
    requires Inserted(out, free, x) && Carried(r, y)
    ensures Carried(After(out, r), x + y)
  {
    hide Inserted;
    if r.Ok? {
      var f :| Inserted(r.out, f, y);
      InsertedBoth(out, free, x, r.out, f, y);
    }
  }

  lemma CarriedOver(t: string, sub: Marks, next: Marks, r: Result)
    requires Carried(r, next.left)
    ensures Carried(After(t, r), Over(t, sub, next).left)
  {
    hide Inserted;
    if r.Ok? {
      var f :| Inserted(r.out, f, next.left);
      if t == "" {
        assert "" + r.out == r.out && [] + next.left == next.left;
      } else {
        InsertedFirst(t, r.out, f, next.left);
      }
    }
  }

  lemma CarriedBody(e: Entry, put: bool, src: string, room: int, r: Result, texts: seq<string>)
    returns (free: string)
    requires Carried(r, texts) && (r.Ok? ==> |r.rest| <= |src|)
    ensures var o := BodyOutcome(e, put, src, room, r); o.Done? ==> Inserted(o.out, free, texts)
  {
    hide Inserted, GateText, PutVal;
    free := "";
    if r.Ok? {
      var f :| Inserted(r.out, f, texts);
      var t, pv := GateText(e, put), PutVal(e.name, src[..|src| - |r.rest|]);
      InsertedNone(pv);
      InsertedBoth(r.out, f, texts, pv, pv, []);
      assert texts + [] == texts;
      InsertedBehind(t, r.out, f, texts);
      InsertedBehind(t, r.out + pv, f + pv, texts);
      free := if put && e.putval then t + (f + pv) else t + f;
    }
  }

  lemma {:induction false} CarriedFrom(g: Grammar, rank: Order, i: nat, k: nat, matched: bool,
                                       src0: string, src: string, room: int, put: bool)
    requires Ranked(g, rank) && At(g, rank, i, k, src0, src)
    ensures Carried(From(g, rank, i, k, matched, src0, src, room, put, true),
                    RunFrom(g, rank, i, k, matched, src0, src, room, put).left)
    decreases |src0|, rank.of[i], |g[i].entries| - k
  {
    hide GateText, PutVal, Guarded, AlwaysReads, Recursing, Recursed, Ranked, Inserted;
    InsertedNone("");
    var kind, es := g[i].kind, g[i].entries;
    if k < |es| {
      var e := es[k];
      var n, t := GateLen(e), GateText(e, put);
      InsertedNone(t);
      if !Matches(kind, e, matched, src) {
        if !(kind.Seq? && !e.optional) { CarriedFrom(g, rank, i, k + 1, matched, src0, src, room, put); }
      } else if e.dest.Next? {
        var m, r := matched || n > 0, src[n..];
        CarriedFrom(g, rank, i, k + 1, m, src0, r, room - |t|, put);
        CarriedAfter(t, t, [], From(g, rank, i, k + 1, m, src0, r, room - |t|, put, true),
                     RunFrom(g, rank, i, k + 1, m, src0, r, room - |t|, put).left);
        NoneInFront(RunFrom(g, rank, i, k + 1, m, src0, r, room - |t|, put).left);
      } else if e.dest.Recurse? {
        CarriedHere(g, rank, i, k, matched, src0, src, room, put);
      }
    }
  }

  lemma NoneInFront(x: seq<string>)
    ensures [] + x == x
  {
  }

  lemma CarriedNo()
    ensures Carried(No, [])
  {
  }

  lemma CarriedOk(rest: string, out: string, free: string, texts: seq<string>)
    requires Inserted(out, free, texts)
    ensures Carried(Ok(rest, out), texts)
  {
  }

  lemma {:induction false} CarriedHere(g: Grammar, rank: Order, i: nat, k: nat, matched: bool,
                                       src0: string, src: string, room: int, put: bool)
    requires Ranked(g, rank) && At(g, rank, i, k, src0, src) && k < |g[i].entries|
    requires Matches(g[i].kind, g[i].entries[k], matched, src) && g[i].entries[k].dest.Recurse?
    ensures Carried(From(g, rank, i, k, matched, src0, src, room, put, true),
                    Recursing(g, rank, i, k, matched, src0, src, room, put).left)
    decreases |src0|, rank.of[i], |g[i].entries| - k, 0
  {
    hide GateText, PutVal, Guarded, AlwaysReads, From, Parse, BodyOutcome, At, Ranked, RunFrom, Run, Inserted;
    hide Carried, Over, Matches, After;
    FromRecurse(g, rank, i, k, matched, src0, src, room, put, true);
    CallLowers(g, rank, i, k, matched, src0, src);
    var kind, e := g[i].kind, g[i].entries[k];
    var n, t, m := GateLen(e), GateText(e, put), matched || GateLen(e) > 0;
    var j, src' := e.dest.rule, src[n..];
    var res := Parse(g, rank, j, src', room - |t|, put, true);
    var sub := Run(g, rank, j, src', room - |t|, put);
    CarriedRun(g, rank, j, src', room - |t|, put);
    RestOf(e, put, src', room, res);
    var free := CarriedBody(e, put, src', room, res, sub.left);
    var ob := BodyOutcome(e, put, src', room, res);
    CarriedNo();
    if ob.Done? {
      CarriedOk(ob.rest, ob.out, free, sub.left);
      if kind.Seq? {
        AtNext(g, rank, i, k, src0, src, ob.rest);
        CarriedFrom(g, rank, i, k + 1, m, src0, ob.rest, room - |ob.out|, put);
        CarriedAfter(ob.out, free, sub.left, From(g, rank, i, k + 1, m, src0, ob.rest, room - |ob.out|, put, true),
                     RunFrom(g, rank, i, k + 1, m, src0, ob.rest, room - |ob.out|, put).left);
      }
    } else if ob.Fail? && !(kind.Seq? && (n > 0 || !e.optional)) {
      AtNext(g, rank, i, k, src0, src, src);
      CarriedFrom(g, rank, i, k + 1, m, src0, src, room - |t|, put);
      CarriedOver(t, sub, RunFrom(g, rank, i, k + 1, m, src0, src, room - |t|, put),
                  From(g, rank, i, k + 1, m, src0, src, room - |t|, put, true));
    }
  }

  lemma {:induction false} CarriedRun(g: Grammar, rank: Order, i: nat, src: string, room: int, put: bool)
    requires Ranked(g, rank) && i < |g|
    ensures Carried(Parse(g, rank, i, src, room, put, true), Run(g, rank, i, src, room, put).left)
    decreases |src|, rank.of[i], |g[i].entries| + 1
  {
    hide Carried;
    CarriedFrom(g, rank, i, 0, false, src, src, room, put);
  }

  // --- the main results ----------------------------------------------------------------------------

  /** For every table and run: the texts that rows passed over have left in accepted rules are in
      the output of a success, in order. When all captures fit the buffer, the program succeeds
      exactly when the parser that takes them back does, at the same place, and its output is
      that parser's with just these texts put in - so the parsing expressions that know nothing
      of abandoned alternatives derive the program's success if and only if no row of an
      accepted rule was passed over with a text. */
  lemma Abandoned(g: Grammar, rank: Order, i: nat, src: string, room: int, put: bool)
    requires Ranked(g, rank) && i < |g|
    ensures var r, m := Parse(g, rank, i, src, room, put, true), Run(g, rank, i, src, room, put);
            && Carried(r, m.left)
            && (!m.full ==> Similar(r, Parse(g, rank, i, src, room, put, false), m.left))
            && (!m.full && r.Ok? ==>
                  (Derivable(RulesOf(g, put, false), Call(i), src, room, AsOutcome(r)) <==> m.left == []))
  {
    hide Parse, Run, Inserted, Derivable, RulesOf;
    var r, free, m := Parse(g, rank, i, src, room, put, true), Parse(g, rank, i, src, room, put, false),
                      Run(g, rank, i, src, room, put);
    CarriedRun(g, rank, i, src, room, put);
    Agrees(g, rank, i, src, room, put, false, AsOutcome(r));
    if !m.full {
      SimilarRun(g, rank, i, src, room, room, put);
      if r.Ok? { InsertedLonger(r.out, free.out, m.left); }
    }
  }

  /** A run in which no row at all has left a text, also where captures do not fit, is derived
      by the parsing expressions that know nothing of abandoned alternatives. */
  lemma NothingPassedDerived(g: Grammar, rank: Order, i: nat, src: string, room: int, put: bool, o: Outcome)
    requires Ranked(g, rank) && i < |g| && !Run(g, rank, i, src, room, put).passed
    ensures Derivable(RulesOf(g, put, false), Call(i), src, room, o) <==>
              o == AsOutcome(Parse(g, rank, i, src, room, put, true))
  {
    NothingPassed(g, rank, i, src, room, put);
    Agrees(g, rank, i, src, room, put, false, o);
  }

  // --- tables in which nothing is left behind ------------------------------------------------------

  /** In the rules other than u no row that recurses has PUTGATE, and none goes to u. */
  predicate QuietOutside(g: Grammar, u: nat) {
    forall i, k | 0 <= i < |g| && i != u && 0 <= k < |g[i].entries| ::
      g[i].entries[k].dest.Recurse? ==> !g[i].entries[k].putgate && g[i].entries[k].dest.rule != u
  }

  lemma {:induction false} QuietFrom(g: Grammar, rank: Order, u: nat, i: nat, k: nat, matched: bool,
                                     src0: string, src: string, room: int, put: bool)
    requires Ranked(g, rank) && At(g, rank, i, k, src0, src) && QuietOutside(g, u) && i != u
    ensures !RunFrom(g, rank, i, k, matched, src0, src, room, put).passed
    decreases |src0|, rank.of[i], |g[i].entries| - k
  {
    hide PutVal, Guarded, AlwaysReads, Ranked, From, Parse, BodyOutcome, Run;
    if k < |g[i].entries| {
      var kind, e := g[i].kind, g[i].entries[k];
      var n, t := GateLen(e), GateText(e, put);
      if !Matches(kind, e, matched, src) {
        if !(kind.Seq? && !e.optional) { QuietFrom(g, rank, u, i, k + 1, matched, src0, src, room, put); }
      } else if e.dest.Next? {
        QuietFrom(g, rank, u, i, k + 1, matched || n > 0, src0, src[n..], room - |t|, put);
      } else if e.dest.Recurse? {
        CallLowers(g, rank, i, k, matched, src0, src);
        var j, src' := e.dest.rule, src[n..];
        QuietRun(g, rank, u, j, src', room - |t|, put);
        var res := Parse(g, rank, j, src', room - |t|, put, true);
        RestOf(e, put, src', room, res);
        var ob := BodyOutcome(e, put, src', room, res);
        if ob.Done? && kind.Seq? {
          AtNext(g, rank, i, k, src0, src, ob.rest);
          QuietFrom(g, rank, u, i, k + 1, matched || n > 0, src0, ob.rest, room - |ob.out|, put);
        } else if ob.Fail? && !(kind.Seq? && (n > 0 || !e.optional)) {
          AtNext(g, rank, i, k, src0, src, src);
          QuietFrom(g, rank, u, i, k + 1, matched || n > 0, src0, src, room - |t|, put);
        }
      }
    }
  }

  lemma {:induction false} QuietRun(g: Grammar, rank: Order, u: nat, i: nat, src: string, room: int, put: bool)
    requires Ranked(g, rank) && i < |g| && QuietOutside(g, u) && i != u
    ensures !Run(g, rank, i, src, room, put).passed
    decreases |src|, rank.of[i], |g[i].entries| + 1
  {
    QuietFrom(g, rank, u, i, 0, false, src, src, room, put);
  }

  /** When no recursing row has PUTGATE, nothing is left behind. */
  lemma NothingLeftBehind(g: Grammar, rank: Order, i: nat, src: string, room: int, put: bool, o: Outcome)
    requires Ranked(g, rank) && i < |g| && QuietOutside(g, |g|)
    ensures Derivable(RulesOf(g, put, false), Call(i), src, room, o) <==>
              o == AsOutcome(Parse(g, rank, i, src, room, put, true))
  {
    QuietRun(g, rank, |g|, i, src, room, put);
    NothingPassedDerived(g, rank, i, src, room, put, o);
  }

  // --- tables like that of URLs ----------------------------------------------------------------------

  // A gate that is a text which begins with c, in its case.
  predicate PlainGate(e: Entry, c: char) {
    !e.charset && !e.otherwise && !e.igncase && e.gate != "" && e.gate[0] == c
  }

  // The rule fails on a source that does not begin with c.
  predicate OpensWith(r: Rule, c: char) {
    if r.kind.Alt? then forall k | 0 <= k < |r.entries| :: PlainGate(r.entries[k], c)
    else r.entries != [] && !r.entries[0].optional && PlainGate(r.entries[0], c)
  }

  /** No source begins with both texts and has c behind b: they differ in a letter, or b is
      shorter and another letter than c is next in a. */
  predicate Apart(a: string, b: string, c: char)
    decreases a
  {
    if b == "" then a != "" && LowerChar(a[0]) != LowerChar(c)
    else a != "" && (LowerChar(a[0]) != LowerChar(b[0]) || Apart(a[1..], b[1..], c))
  }

  predicate GatesApart(gates: seq<string>, c: char) {
    forall m, k | 0 <= m < k < |gates| :: Apart(gates[m], gates[k], c)
  }

  function GatesOf(es: seq<Entry>): (gates: seq<string>)
    ensures |gates| == |es| && forall k | 0 <= k < |es| :: gates[k] == es[k].gate
  {
    if es == [] then [] else [es[0].gate] + GatesOf(es[1..])
  }

  /** Rule u is a choice among protocol names, each with a rule behind it that begins with c; a
      name that another one begins with comes later. */
  predicate UrlShaped(g: Grammar, u: nat, c: char) {
    && u < |g| && g[u].kind.Alt? && QuietOutside(g, u) && GatesApart(GatesOf(g[u].entries), c)
    && forall k | 0 <= k < |g[u].entries| ::
         var e := g[u].entries[k];
         && e.dest.Recurse? && e.dest.rule < |g| && e.dest.rule != u && !e.charset && !e.otherwise && e.gate != ""
         && OpensWith(g[e.dest.rule], c)
  }

  lemma {:induction false} NeverBoth(a: string, b: string, c: char, src: string, ia: bool, ib: bool)
    requires Apart(a, b, c) && |a| <= |src| && |b| <= |src|
    requires SameText(src[..|a|], a, ia) && SameText(src[..|b|], b, ib)
    ensures src[|b|..] == "" || src[|b|..][0] != c
    decreases a
  {
    assert forall x | 0 <= x < |a| :: LowerChar(src[x]) == LowerChar(src[..|a|][x]) == LowerChar(a[x]);
    assert forall x | 0 <= x < |b| :: LowerChar(src[x]) == LowerChar(src[..|b|][x]) == LowerChar(b[x]);
    if b != "" {
      var a', b', s' := a[1..], b[1..], src[1..];
      assert s'[..|a'|] == src[..|a|][1..] && s'[..|b'|] == src[..|b|][1..];
      NeverBoth(a', b', c, s', ia, ib);
      assert s'[|b'|..] == src[|b|..];
    }
  }

  // The rule behind a name fails where its first character is missing.
  lemma {:induction false} ClosedFrom(g: Grammar, rank: Order, i: nat, k: nat, c: char, src: string, room: int,
                                      put: bool, leak: bool)
    requires Ranked(g, rank) && i < |g| && k <= |g[i].entries| && At(g, rank, i, k, src, src)
    requires OpensWith(g[i], c) && (src == "" || src[0] != c) && (g[i].kind.Seq? ==> k == 0)
    ensures From(g, rank, i, k, false, src, src, room, put, leak) == No
    decreases |g[i].entries| - k
  {
    if k < |g[i].entries| {
      var e := g[i].entries[k];
      assert PlainGate(e, c);
      assert !GateMatches(e, src) by { if |e.gate| <= |src| { assert src[..|e.gate|][0] == src[0]; } }
      if g[i].kind.Alt? { ClosedFrom(g, rank, i, k + 1, c, src, room, put, leak); }
    }
  }

  // Behind a name that has matched no other row succeeds, for lack of c.
  lemma {:induction false} DeadFrom(g: Grammar, rank: Order, u: nat, c: char, m: nat, k: nat, matched: bool,
                                    src0: string, src: string, room: int, put: bool, leak: bool)
    requires Ranked(g, rank) && UrlShaped(g, u, c) && At(g, rank, u, k, src0, src)
    requires m < k && GateMatches(g[u].entries[m], src)
    ensures From(g, rank, u, k, matched, src0, src, room, put, leak) == No
    decreases |g[u].entries| - k
  {
    hide QuietOutside, GateText, PutVal, Guarded, AlwaysReads, Recursed, Ranked, Apart, SameText;
    if k < |g[u].entries| {
      var es, e := g[u].entries, g[u].entries[k];
      if Matches(g[u].kind, e, matched, src) {
        DeadHere(g, rank, u, c, m, k, matched, src0, src, room, put, leak);
      } else {
        DeadFrom(g, rank, u, c, m, k + 1, matched, src0, src, room, put, leak);
      }
    }
  }

  lemma {:induction false} DeadHere(g: Grammar, rank: Order, u: nat, c: char, m: nat, k: nat, matched: bool,
                                    src0: string, src: string, room: int, put: bool, leak: bool)
    requires Ranked(g, rank) && UrlShaped(g, u, c) && At(g, rank, u, k, src0, src) && k < |g[u].entries|
    requires m < k && GateMatches(g[u].entries[m], src) && Matches(g[u].kind, g[u].entries[k], matched, src)
    ensures From(g, rank, u, k, matched, src0, src, room, put, leak) == No
    decreases |g[u].entries| - k, 0
  {
    hide QuietOutside, GateText, Guarded, AlwaysReads, Ranked, From, UrlShaped, GateMatches, OpensWith, At;
    hide Parse, Matches, MustRead;
    UrlRow(g, u, c, k);
    RowsApart(g, u, c, m, k, matched, src);
    var e := g[u].entries[k];
    var n, room' := GateLen(e), room - |GateText(e, put)|;
    CallLowers(g, rank, u, k, matched, src0, src);
    ClosedRun(g, rank, e.dest.rule, c, src[n..], room', put, leak);
    AltPassed(g, rank, u, k, matched, src0, src, room, put, leak);
    DeadFrom(g, rank, u, c, m, k + 1, matched || n > 0, src0, src, room - |Left(e, put, leak)|, put, leak);
  }

  // A row of a choice whose recursion fails.
  lemma AltPassed(g: Grammar, rank: Order, i: nat, k: nat, matched: bool, src0: string, src: string, room: int,
                  put: bool, leak: bool)
    requires Ranked(g, rank) && At(g, rank, i, k, src0, src) && k < |g[i].entries| && g[i].kind.Alt?
    requires Matches(g[i].kind, g[i].entries[k], matched, src) && g[i].entries[k].dest.Recurse?
    requires var e := g[i].entries[k];
             && e.dest.rule < |g| && GateLen(e) <= |src|
             && Parse(g, rank, e.dest.rule, src[GateLen(e)..], room - |GateText(e, put)|, put, leak) == No
    ensures At(g, rank, i, k + 1, src0, src)
    ensures var e := g[i].entries[k];
            var left := Left(e, put, leak);
            From(g, rank, i, k, matched, src0, src, room, put, leak) ==
              After(left, From(g, rank, i, k + 1, matched || GateLen(e) > 0, src0, src, room - |left|, put, leak))
  {
    hide GateText, PutVal, Guarded, AlwaysReads, Ranked, Parse, Matches, Left;
    AtNext(g, rank, i, k, src0, src, src);
  }

  // A row of a choice whose recursion has the same outcome in both parsers, and succeeds.
  lemma AltTaken(g: Grammar, rank: Order, i: nat, k: nat, matched: bool, src0: string, src: string, room: int,
                 put: bool)
    requires Ranked(g, rank) && At(g, rank, i, k, src0, src) && k < |g[i].entries| && g[i].kind.Alt?
    requires Matches(g[i].kind, g[i].entries[k], matched, src) && g[i].entries[k].dest.Recurse?
    requires var e := g[i].entries[k];
             && e.dest.rule < |g| && GateLen(e) <= |src|
             && var r := Parse(g, rank, e.dest.rule, src[GateLen(e)..], room - |GateText(e, put)|, put, true);
                r.Ok? && r == Parse(g, rank, e.dest.rule, src[GateLen(e)..], room - |GateText(e, put)|, put, false)
    ensures From(g, rank, i, k, matched, src0, src, room, put, true)
         == From(g, rank, i, k, matched, src0, src, room, put, false)
  {
    hide GateText, PutVal, Guarded, AlwaysReads, Ranked, Parse, Matches, Left, MustRead;
  }

  lemma UrlRow(g: Grammar, u: nat, c: char, k: nat)
    requires UrlShaped(g, u, c) && k < |g[u].entries|
    ensures u < |g|
    ensures var e := g[u].entries[k];
            && g[u].kind.Alt? && e.dest.Recurse? && e.dest.rule < |g| && e.dest.rule != u
            && !e.charset && !e.otherwise && e.gate != "" && OpensWith(g[e.dest.rule], c)
  {
    hide QuietOutside, OpensWith, GatesApart;
  }

  lemma RowsApart(g: Grammar, u: nat, c: char, m: nat, k: nat, matched: bool, src: string)
    requires UrlShaped(g, u, c) && m < k < |g[u].entries|
    requires GateMatches(g[u].entries[m], src) && Matches(g[u].kind, g[u].entries[k], matched, src)
    ensures var n := GateLen(g[u].entries[k]); n <= |src| && (src[n..] == "" || src[n..][0] != c)
  {
    UrlRow(g, u, c, m);
    UrlRow(g, u, c, k);
    var es := g[u].entries;
    assert Apart(es[m].gate, es[k].gate, c) by {
      hide Apart, QuietOutside, OpensWith;
      assert GatesOf(es)[m] == es[m].gate && GatesOf(es)[k] == es[k].gate;
    }
    hide Apart, QuietOutside, OpensWith, UrlShaped, SameText;
    NeverBoth(es[m].gate, es[k].gate, c, src, es[m].igncase, es[k].igncase);
  }

  lemma ClosedRun(g: Grammar, rank: Order, i: nat, c: char, src: string, room: int, put: bool, leak: bool)
    requires Ranked(g, rank) && i < |g| && OpensWith(g[i], c) && (src == "" || src[0] != c)
    ensures Parse(g, rank, i, src, room, put, leak) == No
  {
    ClosedFrom(g, rank, i, 0, c, src, room, put, leak);
  }

  lemma {:induction false} UrlFrom(g: Grammar, rank: Order, u: nat, c: char, k: nat, matched: bool,
                                   src0: string, src: string, room: int, put: bool)
    requires Ranked(g, rank) && UrlShaped(g, u, c) && At(g, rank, u, k, src0, src)
    ensures From(g, rank, u, k, matched, src0, src, room, put, true)
         == From(g, rank, u, k, matched, src0, src, room, put, false)
    decreases |g[u].entries| - k
  {
    hide UrlShaped, GateText, PutVal, Guarded, AlwaysReads, Recursed, Ranked, Apart, SameText;
    if k < |g[u].entries| {
      UrlRow(g, u, c, k);
      if Matches(g[u].kind, g[u].entries[k], matched, src) {
        UrlHere(g, rank, u, c, k, matched, src0, src, room, put);
      } else {
        UrlFrom(g, rank, u, c, k + 1, matched, src0, src, room, put);
      }
    }
  }

  // The rule behind a name has one outcome in both parsers.
  lemma UrlSub(g: Grammar, rank: Order, u: nat, c: char, k: nat, src: string, room: int, put: bool)
    requires Ranked(g, rank) && UrlShaped(g, u, c) && k < |g[u].entries|
    ensures var j := g[u].entries[k].dest.rule;
            Parse(g, rank, j, src, room, put, true) == Parse(g, rank, j, src, room, put, false)
  {
    UrlRow(g, u, c, k);
    assert QuietOutside(g, u);
    hide UrlShaped, QuietOutside, Ranked, Parse, Run;
    QuietRun(g, rank, u, g[u].entries[k].dest.rule, src, room, put);
    NothingPassed(g, rank, g[u].entries[k].dest.rule, src, room, put);
  }

  // When it fails, the whole choice does.
  lemma UrlPassed(g: Grammar, rank: Order, u: nat, c: char, k: nat, matched: bool,
                  src0: string, src: string, room: int, put: bool, leak: bool)
    requires Ranked(g, rank) && UrlShaped(g, u, c) && At(g, rank, u, k, src0, src) && k < |g[u].entries|
    requires Matches(g[u].kind, g[u].entries[k], matched, src)
    requires var e := g[u].entries[k];
             Parse(g, rank, e.dest.rule, src[GateLen(e)..], room - |GateText(e, put)|, put, leak) == No
    ensures From(g, rank, u, k, matched, src0, src, room, put, leak) == No
  {
    UrlRow(g, u, c, k);
    hide UrlShaped, GateText, Ranked, From, OpensWith, At, Parse, MustRead;
    AltPassed(g, rank, u, k, matched, src0, src, room, put, leak);
    var e := g[u].entries[k];
    assert GateMatches(e, src);
    DeadFrom(g, rank, u, c, k, k + 1, matched || GateLen(e) > 0, src0, src, room - |Left(e, put, leak)|, put, leak);
  }

  lemma UrlHere(g: Grammar, rank: Order, u: nat, c: char, k: nat, matched: bool,
                src0: string, src: string, room: int, put: bool)
    requires Ranked(g, rank) && UrlShaped(g, u, c) && At(g, rank, u, k, src0, src) && k < |g[u].entries|
    requires Matches(g[u].kind, g[u].entries[k], matched, src)
    ensures From(g, rank, u, k, matched, src0, src, room, put, true)
         == From(g, rank, u, k, matched, src0, src, room, put, false)
  {
    UrlRow(g, u, c, k);
    CallLowers(g, rank, u, k, matched, src0, src);
    hide UrlShaped, GateText, Ranked, From, OpensWith, At, Parse, MustRead, Matches, GateMatches;
    var e := g[u].entries[k];
    var src', room' := src[GateLen(e)..], room - |GateText(e, put)|;
    UrlSub(g, rank, u, c, k, src', room', put);
    if Parse(g, rank, e.dest.rule, src', room', put, true).Ok? {
      AltTaken(g, rank, u, k, matched, src0, src, room, put);
    } else {
      UrlPassed(g, rank, u, c, k, matched, src0, src, room, put, true);
      UrlPassed(g, rank, u, c, k, matched, src0, src, room, put, false);
    }
  }

  /** In a table of the shape of the program's table of URLs, PUTGATE on its recursing rows
      leaves nothing behind: whatever the source and the buffer are, the program does what the
      parsing expressions derive that know nothing of abandoned alternatives. */
  lemma UrlLike(g: Grammar, rank: Order, u: nat, c: char, src: string, room: int, put: bool, o: Outcome)
    requires Ranked(g, rank) && UrlShaped(g, u, c)
    ensures Derivable(RulesOf(g, put, false), Call(u), src, room, o) <==>
              o == AsOutcome(Parse(g, rank, u, src, room, put, true))
  {
    UrlFrom(g, rank, u, c, 0, false, src, src, room, put);
    Agrees(g, rank, u, src, room, put, false, o);
  }

  // --- a table in which something is left behind -----------------------------------------------------

  const LEAKY_TABLE: Grammar := [
    Rule(Alt, [
      Entry("a", "x", false, Recurse(1), false, false, false, true, false),
      Entry("b", "x", false, Success, false, false, false, false, false)]),
    Rule(Seq, [Entry("c", "y", false, Success, false, false, false, false, false)])]

  /** With PUTGATE on a recursing row an abandoned alternative does leave its entry: the
      recursion of row "a" fails, row "b" succeeds and puts nothing, and "a" is in the output. */
  lemma LeftBehind()
    ensures Ranked(LEAKY_TABLE, Order([1, 0], [false, false])) && !QuietOutside(LEAKY_TABLE, 2)
    ensures Parse(LEAKY_TABLE, Order([1, 0], [false, false]), 1, "", 100, true, true) == No
    ensures Parse(LEAKY_TABLE, Order([1, 0], [false, false]), 0, "x", 100, true, true) == Ok("", "a=x\n")
  {
    var g, rank, e := LEAKY_TABLE, Order([1, 0], [false, false]), LEAKY_TABLE[0].entries[0];
    assert g[1].entries[0].dest.Success? && g[0].entries[1].dest.Success? && e.dest == Recurse(1);
    assert !GateMatches(g[1].entries[0], "");
    assert Parse(g, rank, 1, "", 100, true, true) == No;
    assert "x"[..1] == "x" && "x"[1..] == "";
    assert GateMatches(e, "x") && GateMatches(g[0].entries[1], "x");
    var t := GateText(e, true);
    assert e.gate[..1] == "x" && t == "a=x\n";
    assert Parse(g, rank, 1, "", 100 - |t|, true, true) == No;
    assert From(g, rank, 0, 1, true, "x", "x", 100 - |t|, true, true) == Ok("", "");
    assert From(g, rank, 0, 0, false, "x", "x", 100, true, true)
        == After(t, From(g, rank, 0, 1, true, "x", "x", 100 - |t|, true, true));
    assert t + "" == t;
  }
}
