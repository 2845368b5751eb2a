/** `SLLparse` of delegate/rary/SLL.cpp: the loop over the rows of a rule, and what it means
    in terms of parsing expressions. */
module SllParser {
  import opened SllGrammar
  import opened Peg

  // --- rules as parsing expressions ---------------------------------------------------

  // In an ALT rule, OTHERWISE is out of the question once a gate that reads has matched.
  predicate Blocked(kind: Kind, e: Entry, matched: bool) {
    kind.Alt? && matched && e.otherwise && !e.charset
  }

  function IfGate(e: Entry, blocked: bool, hit: Expr, miss: Expr): Expr {
    if blocked then miss
    else Choice(Then(Gate(e), hit), Then(Not(Gate(e)), miss))
  }

  function Put(e: Entry, put: bool): Expr { Emit(GateText(e, put)) }

  function Captured(e: Entry, put: bool, a: Expr): Expr {
    if put && e.putval then Capture(e.name, a) else a
  }

  function Body(e: Entry, put: bool): Expr
    requires e.dest.Recurse?
  {
    Then(Put(e, put), Captured(e, put, Call(e.dest.rule)))
  }

  /** Rows k and later of a rule.  `leak` says what an abandoned recursion leaves behind. */
  function Translate(r: Rule, k: nat, matched: bool, put: bool, leak: bool): Expr
    requires k <= |r.entries|
    decreases |r.entries| - k
  {
    if k == |r.entries| then (if r.kind.Alt? then Never else Empty)
    else
      var e := r.entries[k];
      var blocked := Blocked(r.kind, e, matched);
      var miss := if r.kind.Seq? && !e.optional then Never else Translate(r, k + 1, matched, put, leak);
      var next := Translate(r, k + 1, matched || GateLen(e) > 0, put, leak);
      var back := if leak then Then(Put(e, put), next) else next;
      match e.dest
      case Success => IfGate(e, blocked, Put(e, put), miss)
      case Failure => IfGate(e, blocked, Never, miss)
      case Next => IfGate(e, blocked, Then(Put(e, put), next), miss)
      case Recurse(_) =>
        if r.kind.Alt? then
          if blocked then miss
          else Choice(Then(Gate(e), Body(e, put)),
                      Choice(Then(Not(Not(Gate(e))), back), Then(Not(Gate(e)), miss)))
        else if GateLen(e) > 0 || !e.optional then
          IfGate(e, false, Then(Body(e, put), next), miss)
        else
          Then(Choice(Then(Gate(e), Body(e, put)), if leak then Put(e, put) else Empty), next)
  }

  function RulesOf(g: Grammar, put: bool, leak: bool): (r: Rules)
    ensures |r| == |g|
  {
    seq(|g|, i requires 0 <= i < |g| => Translate(g[i], 0, false, put, leak))
  }

  // A failed rule and a full buffer both make `SLLparse` return -1.
  function AsResult(o: Outcome): Result {
    if o.Done? then Ok(o.rest, o.out) else No
  }

  function AsOutcome(r: Result): Outcome {
    if r.Ok? then Done(r.rest, r.out) else Fail
  }

  // --- derivations for the pieces of a row --------------------------------------------

  lemma GateHit(rules: Rules, e: Entry, src: string, room: int)
    requires GateMatches(e, src)
    ensures Derivable(rules, Gate(e), src, room, Done(src[GateLen(e)..], ""))
    ensures Derivable(rules, Not(Gate(e)), src, room, Fail)
    ensures Derivable(rules, Not(Not(Gate(e))), src, room, Done(src, ""))
  {
    hide Derivable;
    Leaf(rules, Gate(e), src, room, Done(src[GateLen(e)..], ""));
    MakeNot(rules, Gate(e), src, room, Done(src[GateLen(e)..], ""));
    MakeNot(rules, Not(Gate(e)), src, room, Fail);
  }

  lemma GateMiss(rules: Rules, e: Entry, src: string, room: int)
    requires !GateMatches(e, src)
    ensures Derivable(rules, Gate(e), src, room, Fail)
    ensures Derivable(rules, Not(Gate(e)), src, room, Done(src, ""))
    ensures Derivable(rules, Not(Not(Gate(e))), src, room, Fail)
  {
    hide Derivable;
    Leaf(rules, Gate(e), src, room, Fail);
    MakeNot(rules, Gate(e), src, room, Fail);
    MakeNot(rules, Not(Gate(e)), src, room, Done(src, ""));
  }

  // Whatever follows a gate that matches, from behind it.
  lemma AfterGate(rules: Rules, e: Entry, hit: Expr, src: string, room: int, o: Outcome)
    requires GateMatches(e, src) && Derivable(rules, hit, src[GateLen(e)..], room, o)
    ensures Derivable(rules, Then(Gate(e), hit), src, room, o)
  {
    hide Derivable;
    GateHit(rules, e, src, room);
    MakeThen(rules, Gate(e), hit, src, room, src[GateLen(e)..], "", o);
    assert Join("", o) == o;
  }

  lemma IfGateHit(rules: Rules, e: Entry, hit: Expr, miss: Expr, src: string, room: int, o: Outcome)
    requires GateMatches(e, src) && Derivable(rules, hit, src[GateLen(e)..], room, o)
    ensures Derivable(rules, IfGate(e, false, hit, miss), src, room, o)
  {
    hide Derivable;
    AfterGate(rules, e, hit, src, room, o);
    var a, b := Then(Gate(e), hit), Then(Not(Gate(e)), miss);
    if o.Fail? {
      GateHit(rules, e, src, room);
      MakeThenStop(rules, Not(Gate(e)), miss, src, room, Fail);
      MakeChoiceSecond(rules, a, b, src, room, Fail);
    } else {
      MakeChoiceFirst(rules, a, b, src, room, o);
    }
  }

  lemma IfGateMiss(rules: Rules, e: Entry, hit: Expr, miss: Expr, src: string, room: int, o: Outcome)
    requires !GateMatches(e, src) && Derivable(rules, miss, src, room, o)
    ensures Derivable(rules, IfGate(e, false, hit, miss), src, room, o)
  {
    hide Derivable;
    GateMiss(rules, e, src, room);
    MakeThenStop(rules, Gate(e), hit, src, room, Fail);
    MakeThen(rules, Not(Gate(e)), miss, src, room, src, "", o);
    assert Join("", o) == o;
    MakeChoiceSecond(rules, Then(Gate(e), hit), Then(Not(Gate(e)), miss), src, room, o);
  }

  lemma EmitThen(rules: Rules, text: string, a: Expr, src: string, room: int, o: Outcome)
    requires Derivable(rules, a, src, room - |text|, o)
    ensures Derivable(rules, Then(Emit(text), a), src, room, Join(text, o))
  {
    hide Derivable;
    Leaf(rules, Emit(text), src, room, Done(src, text));
    MakeThen(rules, Emit(text), a, src, room, src, text, o);
  }

  // The recursion of a row, with its capture, from behind the gate.
  function BodyOutcome(e: Entry, put: bool, src: string, room: int, r: Result): (o: Outcome)
    requires r.Ok? ==> |r.rest| <= |src|
    ensures o.Done? ==> |o.rest| <= |src|
  {
    var t := GateText(e, put);
    match r
    case No => Fail
    case Ok(rest, o) =>
      var val := src[..|src| - |rest|];
      if put && e.putval then
        if room - |t| <= |val| then Full else Done(rest, t + (o + PutVal(e.name, val)))
      else Done(rest, t + o)
  }

  lemma RestOf(e: Entry, put: bool, src: string, room: int, r: Result)
    requires r.Ok? ==> |r.rest| <= |src|
    ensures var o := BodyOutcome(e, put, src, room, r); o.Done? ==> r.Ok? && o.rest == r.rest
  {
  }

  lemma BodyDerived(rules: Rules, e: Entry, put: bool, src: string, room: int, r: Result)
    requires e.dest.Recurse? && (r.Ok? ==> |r.rest| <= |src|)
    requires Derivable(rules, Call(e.dest.rule), src, room - |GateText(e, put)|, AsOutcome(r))
    ensures Derivable(rules, Body(e, put), src, room, BodyOutcome(e, put, src, room, r))
  {
    hide Derivable;
    var t := GateText(e, put);
    var call, c := Call(e.dest.rule), Captured(e, put, Call(e.dest.rule));
    var o := AsOutcome(r);
    if put && e.putval {
      var oc := match r
        case No => Fail
        case Ok(rest, out) =>
          if room - |t| <= |src[..|src| - |rest|]| then Full
          else Done(rest, out + PutVal(e.name, src[..|src| - |rest|]));
      One(rules, c, src, room - |t|, oc, call, o);
      EmitThen(rules, t, c, src, room, oc);
    } else {
      EmitThen(rules, t, c, src, room, o);
    }
  }

  // --- the parser and its parsing expressions agree --------------------------------------

  lemma AfterJoin(t: string, o: Outcome)
    ensures AsResult(Join(t, o)) == After(t, AsResult(o))
  {
  }

  // What an abandoned recursion leaves behind, and the rows after it.
  lemma BackDerived(rules: Rules, e: Entry, put: bool, leak: bool, next: Expr, src: string, room: int, o: Outcome)
    requires Derivable(rules, next, src, room - |Left(e, put, leak)|, o)
    ensures Derivable(rules, if leak then Then(Put(e, put), next) else next, src, room, Join(Left(e, put, leak), o))
  {
    hide Derivable;
    if leak {
      EmitThen(rules, GateText(e, put), next, src, room, o);
    } else {
      assert Join("", o) == o;
    }
  }

  // A recursing row of an ALT rule.
  lemma AltRow(rules: Rules, e: Entry, put: bool, back: Expr, miss: Expr, src: string, room: int,
               ob: Outcome, o: Outcome)
    requires e.dest.Recurse? && GateMatches(e, src)
    requires Derivable(rules, Body(e, put), src[GateLen(e)..], room, ob)
    requires if ob.Fail? then Derivable(rules, back, src, room, o) else o == ob
    ensures Derivable(rules, Choice(Then(Gate(e), Body(e, put)),
                                    Choice(Then(Not(Not(Gate(e))), back), Then(Not(Gate(e)), miss))),
                      src, room, o)
  {
    hide Derivable;
    var a := Then(Gate(e), Body(e, put));
    var b, c := Then(Not(Not(Gate(e))), back), Then(Not(Gate(e)), miss);
    AfterGate(rules, e, Body(e, put), src, room, ob);
    if ob.Fail? {
      GateHit(rules, e, src, room);
      MakeThen(rules, Not(Not(Gate(e))), back, src, room, src, "", o);
      assert Join("", o) == o;
      MakeThenStop(rules, Not(Gate(e)), miss, src, room, Fail);
      if o.Fail? {
        MakeChoiceSecond(rules, b, c, src, room, Fail);
      } else {
        MakeChoiceFirst(rules, b, c, src, room, o);
      }
      MakeChoiceSecond(rules, a, Choice(b, c), src, room, o);
    } else {
      MakeChoiceFirst(rules, a, Choice(b, c), src, room, ob);
    }
  }

  lemma AltRowMiss(rules: Rules, e: Entry, put: bool, back: Expr, miss: Expr, src: string, room: int, o: Outcome)
    requires e.dest.Recurse? && !GateMatches(e, src) && Derivable(rules, miss, src, room, o)
    ensures Derivable(rules, Choice(Then(Gate(e), Body(e, put)),
                                    Choice(Then(Not(Not(Gate(e))), back), Then(Not(Gate(e)), miss))),
                      src, room, o)
  {
    hide Derivable;
    var b, c := Then(Not(Not(Gate(e))), back), Then(Not(Gate(e)), miss);
    GateMiss(rules, e, src, room);
    MakeThenStop(rules, Gate(e), Body(e, put), src, room, Fail);
    MakeThenStop(rules, Not(Not(Gate(e))), back, src, room, Fail);
    MakeThen(rules, Not(Gate(e)), miss, src, room, src, "", o);
    assert Join("", o) == o;
    MakeChoiceSecond(rules, b, c, src, room, o);
    MakeChoiceSecond(rules, Then(Gate(e), Body(e, put)), Choice(b, c), src, room, o);
  }

  // A sequence whose first part has some outcome.
  lemma ThenOutcome(rules: Rules, a: Expr, b: Expr, src: string, room: int, oa: Outcome, ob: Outcome)
    requires Derivable(rules, a, src, room, oa)
    requires oa.Done? ==> Derivable(rules, b, oa.rest, room - |oa.out|, ob)
    ensures Derivable(rules, Then(a, b), src, room, if oa.Done? then Join(oa.out, ob) else oa)
  {
    hide Derivable;
    if oa.Done? {
      MakeThen(rules, a, b, src, room, oa.rest, oa.out, ob);
    } else {
      MakeThenStop(rules, a, b, src, room, oa);
    }
  }

  // A row of a SEQ rule whose recursion may be passed over.
  lemma OptionalRow(rules: Rules, e: Entry, put: bool, leak: bool, src: string, room: int, ob: Outcome)
    requires e.dest.Recurse? && GateMatches(e, src) && GateLen(e) == 0
    requires Derivable(rules, Body(e, put), src, room, ob)
    ensures Derivable(rules, Choice(Then(Gate(e), Body(e, put)), if leak then Put(e, put) else Empty),
                      src, room, if ob.Fail? then Done(src, Left(e, put, leak)) else ob)
  {
    hide Derivable;
    var a, b := Then(Gate(e), Body(e, put)), if leak then Put(e, put) else Empty;
    assert src[0..] == src;
    AfterGate(rules, e, Body(e, put), src, room, ob);
    Leaf(rules, b, src, room, Done(src, Left(e, put, leak)));
    if ob.Fail? {
      MakeChoiceSecond(rules, a, b, src, room, Done(src, Left(e, put, leak)));
    } else {
      MakeChoiceFirst(rules, a, b, src, room, ob);
    }
  }

  /** The loop from row k on has the outcome that the parsing expression of those rows has. */
  lemma {:induction false} RowsDerived(g: Grammar, rank: Order, i: nat, k: nat, matched: bool,
      src0: string, src: string, room: int, put: bool, leak: bool) returns (o: Outcome)
    requires Ranked(g, rank) && At(g, rank, i, k, src0, src)
    ensures Derivable(RulesOf(g, put, leak), Translate(g[i], k, matched, put, leak), src, room, o)
    ensures AsResult(o) == From(g, rank, i, k, matched, src0, src, room, put, leak)
    decreases |src0|, rank.of[i], |g[i].entries| - k
  {
    hide Derivable, GateText, IfGate, RulesOf;
    var rules, r := RulesOf(g, put, leak), g[i];
    if k == |r.entries| {
      o := if r.kind.Alt? then Fail else Done(src, "");
      Leaf(rules, if r.kind.Alt? then Never else Empty, src, room, o);
    } else {
      var e := r.entries[k];
      if !Matches(r.kind, e, matched, src) {
        o := MissedRow(g, rank, i, k, matched, src0, src, room, put, leak);
      } else if e.dest.Recurse? {
        o := RecursingRow(g, rank, i, k, matched, src0, src, room, put, leak);
      } else {
        var n, on := GateLen(e), Fail;
        if e.dest.Next? {
          on := RowsDerived(g, rank, i, k + 1, matched || n > 0, src0, src[n..], room - |GateText(e, put)|, put, leak);
          AfterJoin(GateText(e, put), on);
        }
        o := PlainShape(rules, r, k, matched, put, leak, src, room, on);
      }
    }
  }

  // The outcome of a row that does not recurse, from the outcome on of the rows after it.
  lemma PlainShape(rules: Rules, r: Rule, k: nat, matched: bool, put: bool, leak: bool,
                   src: string, room: int, on: Outcome) returns (o: Outcome)
    requires k < |r.entries| && !r.entries[k].dest.Recurse? && Matches(r.kind, r.entries[k], matched, src)
    requires var e := r.entries[k];
             e.dest.Next? ==> Derivable(rules, Translate(r, k + 1, matched || GateLen(e) > 0, put, leak),
                                        src[GateLen(e)..], room - |GateText(e, put)|, on)
    ensures Derivable(rules, Translate(r, k, matched, put, leak), src, room, o)
    ensures var e := r.entries[k];
            o == match e.dest
                 case Success => Done(src[GateLen(e)..], GateText(e, put))
                 case Failure => Fail
                 case Next => Join(GateText(e, put), on)
                 case Recurse(_) => o
  {
    hide Derivable;
    var e := r.entries[k];
    var t, n := GateText(e, put), GateLen(e);
    var miss := if r.kind.Seq? && !e.optional then Never else Translate(r, k + 1, matched, put, leak);
    match e.dest
    case Success =>
      o := Done(src[n..], t);
      Leaf(rules, Put(e, put), src[n..], room, o);
      IfGateHit(rules, e, Put(e, put), miss, src, room, o);
    case Failure =>
      o := Fail;
      Leaf(rules, Never, src[n..], room, o);
      IfGateHit(rules, e, Never, miss, src, room, o);
    case Next =>
      var next := Translate(r, k + 1, matched || n > 0, put, leak);
      o := Join(t, on);
      EmitThen(rules, t, next, src[n..], room, on);
      IfGateHit(rules, e, Then(Put(e, put), next), miss, src, room, o);
  }

  lemma {:induction false} MissedRow(g: Grammar, rank: Order, i: nat, k: nat, matched: bool,
      src0: string, src: string, room: int, put: bool, leak: bool) returns (o: Outcome)
    requires Ranked(g, rank) && At(g, rank, i, k, src0, src)
    requires k < |g[i].entries| && !Matches(g[i].kind, g[i].entries[k], matched, src)
    ensures Derivable(RulesOf(g, put, leak), Translate(g[i], k, matched, put, leak), src, room, o)
    ensures AsResult(o) == From(g, rank, i, k, matched, src0, src, room, put, leak)
    decreases |src0|, rank.of[i], |g[i].entries| - k, 0
  {
    hide Derivable;
    var rules, r, e := RulesOf(g, put, leak), g[i], g[i].entries[k];
    var miss := if r.kind.Seq? && !e.optional then Never else Translate(r, k + 1, matched, put, leak);
    if r.kind.Seq? && !e.optional {
      o := Fail;
      Leaf(rules, Never, src, room, Fail);
    } else {
      o := RowsDerived(g, rank, i, k + 1, matched, src0, src, room, put, leak);
    }
    if !Blocked(r.kind, e, matched) {
      MissShape(rules, r, k, matched, put, leak, miss, src, room, o);
    }
  }

  // Every form a row can take gives way to `miss` when its gate does not match.
  lemma MissShape(rules: Rules, r: Rule, k: nat, matched: bool, put: bool, leak: bool, miss: Expr,
                  src: string, room: int, o: Outcome)
    requires k < |r.entries| && !GateMatches(r.entries[k], src)
    requires !Blocked(r.kind, r.entries[k], matched)
    requires miss == if r.kind.Seq? && !r.entries[k].optional then Never
                     else Translate(r, k + 1, matched, put, leak)
    requires Derivable(rules, miss, src, room, o)
    ensures Derivable(rules, Translate(r, k, matched, put, leak), src, room, o)
  {
    hide Derivable;
    var e := r.entries[k];
    var next := Translate(r, k + 1, matched || GateLen(e) > 0, put, leak);
    var back := if leak then Then(Put(e, put), next) else next;
    match e.dest
    case Success => IfGateMiss(rules, e, Put(e, put), miss, src, room, o);
    case Failure => IfGateMiss(rules, e, Never, miss, src, room, o);
    case Next => IfGateMiss(rules, e, Then(Put(e, put), next), miss, src, room, o);
    case Recurse(_) =>
      if r.kind.Alt? {
        AltRowMiss(rules, e, put, back, miss, src, room, o);
      } else {
        assert GateLen(e) > 0;
        IfGateMiss(rules, e, Then(Body(e, put), next), miss, src, room, o);
      }
  }

  // The loop at a recursing row, in terms of the outcome of the recursion.
  lemma FromRecurse(g: Grammar, rank: Order, i: nat, k: nat, matched: bool,
                    src0: string, src: string, room: int, put: bool, leak: bool)
    requires Ranked(g, rank) && At(g, rank, i, k, src0, src) && k < |g[i].entries|
    requires Matches(g[i].kind, g[i].entries[k], matched, src) && g[i].entries[k].dest.Recurse?
    ensures var e := g[i].entries[k];
            var n, room' := GateLen(e), room - |GateText(e, put)|;
            var ob := BodyOutcome(e, put, src[n..], room, Parse(g, rank, e.dest.rule, src[n..], room', put, leak));
            From(g, rank, i, k, matched, src0, src, room, put, leak) ==
              match ob
              case Full => No
              case Done(rest, out) =>
                if g[i].kind.Alt? then Ok(rest, out)
                else
                  (AtNext(g, rank, i, k, src0, src, rest);
                   After(out, From(g, rank, i, k + 1, matched || n > 0, src0, rest, room - |out|, put, leak)))
              case Fail =>
                if g[i].kind.Seq? && (n > 0 || !e.optional) then No
                else
                  (AtNext(g, rank, i, k, src0, src, src);
                   After(Left(e, put, leak),
                         From(g, rank, i, k + 1, matched || n > 0, src0, src, room - |Left(e, put, leak)|, put, leak)))
  {
    hide GateText, PutVal;
  }

  // A recursion has read something or goes to a rule of lower rank.
  lemma CallLowers(g: Grammar, rank: Order, i: nat, k: nat, matched: bool, src0: string, src: string)
    requires Ranked(g, rank) && At(g, rank, i, k, src0, src) && k < |g[i].entries|
    requires Matches(g[i].kind, g[i].entries[k], matched, src) && g[i].entries[k].dest.Recurse?
    ensures var e := g[i].entries[k];
            && i < |g| == |rank.of| == |rank.eats| && e.dest.rule < |g| && GateLen(e) <= |src| && |src| <= |src0|
            && (|src[GateLen(e)..]| < |src0| || rank.of[e.dest.rule] < rank.of[i])
            && (MustRead(rank.eats, g[i], k) ==> GateLen(e) > 0 || rank.eats[e.dest.rule])
  {
  }

  lemma {:induction false} RecursingRow(g: Grammar, rank: Order, i: nat, k: nat, matched: bool,
      src0: string, src: string, room: int, put: bool, leak: bool) returns (o: Outcome)
    requires Ranked(g, rank) && At(g, rank, i, k, src0, src)
    requires k < |g[i].entries| && Matches(g[i].kind, g[i].entries[k], matched, src)
    requires g[i].entries[k].dest.Recurse?
    ensures Derivable(RulesOf(g, put, leak), Translate(g[i], k, matched, put, leak), src, room, o)
    ensures AsResult(o) == From(g, rank, i, k, matched, src0, src, room, put, leak)
    decreases |src0|, rank.of[i], |g[i].entries| - k, 1
  {
    hide Derivable, GateText, Left, Captured, Body, IfGate, RulesOf, Translate, From, Parse, BodyOutcome;
    var e := g[i].entries[k];
    var n, room' := GateLen(e), room - |GateText(e, put)|;
    FromRecurse(g, rank, i, k, matched, src0, src, room, put, leak);
    CallLowers(g, rank, i, k, matched, src0, src);
    CallDerived(g, rank, e.dest.rule, src[n..], room', put, leak);
    var res := Parse(g, rank, e.dest.rule, src[n..], room', put, leak);
    BodyDerived(RulesOf(g, put, leak), e, put, src[n..], room, res);
    var ob := BodyOutcome(e, put, src[n..], room, res);
    RestOf(e, put, src[n..], room, res);
    var on := NextRows(g, rank, i, k, matched, src0, src, room, put, leak, ob);
    o := RowShape(RulesOf(g, put, leak), g[i], k, matched, put, leak, src, room, ob, on);
  }

  // The rows after a recursing row, if they are looked at.
  lemma {:induction false} NextRows(g: Grammar, rank: Order, i: nat, k: nat, matched: bool,
      src0: string, src: string, room: int, put: bool, leak: bool, ob: Outcome) returns (on: Outcome)
    requires Ranked(g, rank) && At(g, rank, i, k, src0, src) && k < |g[i].entries|
    requires var n := GateLen(g[i].entries[k]);
             n <= |src|
             && (ob.Done? ==> |ob.rest| <= |src[n..]| && (MustRead(rank.eats, g[i], k) ==> |ob.rest| < |src|))
    ensures var e := g[i].entries[k];
            var rules, next := RulesOf(g, put, leak), Translate(g[i], k + 1, matched || GateLen(e) > 0, put, leak);
            && (ob.Done? && g[i].kind.Seq? ==>
                  Derivable(rules, next, ob.rest, room - |ob.out|, on)
                  && At(g, rank, i, k + 1, src0, ob.rest)
                  && AsResult(on) ==
                       From(g, rank, i, k + 1, matched || GateLen(e) > 0, src0,
                            ob.rest, room - |ob.out|, put, leak))
            && (ob.Fail? && (g[i].kind.Alt? || (GateLen(e) == 0 && e.optional)) ==>
                  Derivable(rules, next, src, room - |Left(e, put, leak)|, on)
                  && At(g, rank, i, k + 1, src0, src)
                  && AsResult(on) ==
                       From(g, rank, i, k + 1, matched || GateLen(e) > 0, src0,
                            src, room - |Left(e, put, leak)|, put, leak))
    decreases |src0|, rank.of[i], |g[i].entries| - k, 0
  {
    hide Derivable, GateText, Left, RulesOf, Translate, From;
    var e := g[i].entries[k];
    var n := GateLen(e);
    on := Fail;
    if ob.Done? && g[i].kind.Seq? {
      AtNext(g, rank, i, k, src0, src, ob.rest);
      on := RowsDerived(g, rank, i, k + 1, matched || n > 0, src0, ob.rest, room - |ob.out|, put, leak);
    } else if ob.Fail? && (g[i].kind.Alt? || (n == 0 && e.optional)) {
      AtNext(g, rank, i, k, src0, src, src);
      on := RowsDerived(g, rank, i, k + 1, matched || n > 0, src0, src, room - |Left(e, put, leak)|, put, leak);
    }
  }

  // The outcome of a recursing row from the outcome ob of its recursion and the outcome on of
  // the rows after it, if they are looked at.
  lemma RowShape(rules: Rules, r: Rule, k: nat, matched: bool, put: bool, leak: bool,
                 src: string, room: int, ob: Outcome, on: Outcome) returns (o: Outcome)
    requires k < |r.entries| && r.entries[k].dest.Recurse? && Matches(r.kind, r.entries[k], matched, src)
    requires Derivable(rules, Body(r.entries[k], put), src[GateLen(r.entries[k])..], room, ob)
    requires var e := r.entries[k];
             var next := Translate(r, k + 1, matched || GateLen(e) > 0, put, leak);
             && (ob.Done? && r.kind.Seq? ==> Derivable(rules, next, ob.rest, room - |ob.out|, on))
             && (ob.Fail? && (r.kind.Alt? || (GateLen(e) == 0 && e.optional)) ==>
                   Derivable(rules, next, src, room - |Left(e, put, leak)|, on))
    ensures Derivable(rules, Translate(r, k, matched, put, leak), src, room, o)
    ensures var e := r.entries[k];
            o == match ob
                 case Done(_, out) => if r.kind.Alt? then ob else Join(out, on)
                 case Full => ob
                 case Fail => if r.kind.Alt? || (GateLen(e) == 0 && e.optional)
                              then Join(Left(e, put, leak), on) else Fail
  {
    hide Derivable, Matches, Left, GateText, Captured, Body;
    var e := r.entries[k];
    var t, n := Left(e, put, leak), GateLen(e);
    var miss := if r.kind.Seq? && !e.optional then Never else Translate(r, k + 1, matched, put, leak);
    var next := Translate(r, k + 1, matched || n > 0, put, leak);
    MatchesMeans(r.kind, e, matched, src);
    if r.kind.Alt? {
      var back := if leak then Then(Put(e, put), next) else next;
      o := ob;
      if ob.Fail? {
        BackDerived(rules, e, put, leak, next, src, room, on);
        o := Join(t, on);
      }
      AltRow(rules, e, put, back, miss, src, room, ob, o);
    } else if n > 0 || !e.optional {
      o := if ob.Done? then Join(ob.out, on) else ob;
      ThenOutcome(rules, Body(e, put), next, src[n..], room, ob, on);
      IfGateHit(rules, e, Then(Body(e, put), next), miss, src, room, o);
    } else {
      assert src[n..] == src;
      OptionalRow(rules, e, put, leak, src, room, ob);
      var oi := if ob.Fail? then Done(src, t) else ob;
      o := if oi.Done? then Join(oi.out, on) else oi;
      ThenOutcome(rules, Choice(Then(Gate(e), Body(e, put)), if leak then Put(e, put) else Empty),
                  next, src, room, oi, on);
    }
  }

  lemma AtNext(g: Grammar, rank: Order, i: nat, k: nat, src0: string, src: string, rest: string)
    requires At(g, rank, i, k, src0, src) && k < |g[i].entries| && |rest| <= |src|
    requires MustRead(rank.eats, g[i], k) ==> |rest| < |src|
    ensures At(g, rank, i, k + 1, src0, rest)
  {
  }

  lemma MatchesMeans(kind: Kind, e: Entry, matched: bool, src: string)
    requires Matches(kind, e, matched, src)
    ensures GateMatches(e, src) && !Blocked(kind, e, matched)
  {
  }

  lemma {:induction false} CallDerived(g: Grammar, rank: Order, i: nat, src: string, room: int, put: bool, leak: bool)
    requires Ranked(g, rank) && i < |g|
    ensures Derivable(RulesOf(g, put, leak), Call(i), src, room, AsOutcome(Parse(g, rank, i, src, room, put, leak)))
    decreases |src|, rank.of[i], |g[i].entries| + 1
  {
    var o := RowsDerived(g, rank, i, 0, false, src, src, room, put, leak);
    MakeCall(RulesOf(g, put, leak), i, src, room, o);
  }

  /** `SLLparse` succeeds with some source left and some output exactly when the parsing
      expressions of the table derive that, and fails exactly when they derive failure -
      for every table that terminates, source, buffer size and output mode. With `leak` this is
      the program; without, the parser that takes back what abandoned alternatives have put. */
  lemma Agrees(g: Grammar, rank: Order, i: nat, src: string, room: int, put: bool, leak: bool, o: Outcome)
    requires Ranked(g, rank) && i < |g|
    ensures Derivable(RulesOf(g, put, leak), Call(i), src, room, o) <==>
              o == AsOutcome(Parse(g, rank, i, src, room, put, leak))
  {
    CallDerived(g, rank, i, src, room, put, leak);
    Unique(RulesOf(g, put, leak), Call(i), src, room, o, AsOutcome(Parse(g, rank, i, src, room, put, leak)));
  }

  lemma Unique(rules: Rules, e: Expr, src: string, room: int, o: Outcome, p: Outcome)
    requires Derivable(rules, e, src, room, p)
    ensures Derivable(rules, e, src, room, o) ==> o == p
  {
    if Derivable(rules, e, src, room, o) {
      var s :| Valid(rules, s) && s.j == Judgement(e, src, room, o);
      var t :| Valid(rules, t) && t.j == Judgement(e, src, room, p);
      Deterministic(rules, s, t);
    }
  }

  // --- the program ------------------------------------------------------------------------

  // What one row does to the loop: fail the rule, end it, or go on behind some source with
  // some more output.
  datatype Step = Fails | Ends(rest: string, text: string) | Goes(rest: string, text: string)

  // The loop from row k on, once row k has made its step.
  ghost predicate StepIs(g: Grammar, rank: Order, i: nat, k: nat, matched: bool, matched': bool,
                         src0: string, src: string, room: int, put: bool, s: Step)
    requires Ranked(g, rank) && At(g, rank, i, k, src0, src) && k < |g[i].entries|
  {
    var r := From(g, rank, i, k, matched, src0, src, room, put, true);
    match s
    case Fails => r == No
    case Ends(rest, text) => r == Ok(rest, text)
    case Goes(rest, text) =>
      && At(g, rank, i, k + 1, src0, rest)
      && r == After(text, From(g, rank, i, k + 1, matched', src0, rest, room - |text|, put, true))
  }

  // One row.
  method Row(g: Grammar, ghost rank: Order, i: nat, k: nat, matched: bool,
             ghost srca: string, src: string, room: int, put: bool)
    returns (s: Step, matched': bool)
    requires Ranked(g, rank) && At(g, rank, i, k, srca, src) && k < |g[i].entries|
    ensures StepIs(g, rank, i, k, matched, matched', srca, src, room, put, s)
    decreases |srca|, rank.of[i], 0
  {
    var kind, crp := g[i].kind, g[i].entries[k];
    matched' := matched;
    if !Matches(kind, crp, matched, src) {
      AfterNothing(From(g, rank, i, k, matched, srca, src, room, put, true));
      s := if kind.Seq? && !crp.optional then Fails else Goes(src, "");
      return;
    }
    var glen, t := GateLen(crp), GateText(crp, put);
    if 0 < glen { matched' := true; }
    match crp.dest {
      case Success => s := Ends(src[glen..], t);
      case Failure => s := Fails;
      case Next => s := Goes(src[glen..], t);
      case Recurse(j) =>
        s := RecurseRow(g, rank, i, k, matched, srca, src, room, put);
    }
  }

  method RecurseRow(g: Grammar, ghost rank: Order, i: nat, k: nat, ghost matched: bool,
                    ghost srca: string, src: string, room: int, put: bool)
    returns (s: Step)
    requires Ranked(g, rank) && At(g, rank, i, k, srca, src) && k < |g[i].entries|
    requires Matches(g[i].kind, g[i].entries[k], matched, src) && g[i].entries[k].dest.Recurse?
    ensures StepIs(g, rank, i, k, matched, matched || GateLen(g[i].entries[k]) > 0, srca, src, room, put, s)
    decreases |srca|, rank.of[i], 0, 0
  {
    hide GateText, PutVal, Parse, From;
    FromRecurse(g, rank, i, k, matched, srca, src, room, put, true);
    CallLowers(g, rank, i, k, matched, srca, src);
    var kind, crp := g[i].kind, g[i].entries[k];
    var glen, t := GateLen(crp), GateText(crp, put);
    var src', rsize := src[glen..], room - |t|;
    var sub := SLLparse(g, rank, crp.dest.rule, src', rsize, put);
    if sub.Ok? {
      var text := t + sub.out;
      if put && crp.putval {
        var slen := |src'| - |sub.rest|;
        if rsize <= slen { return Fails; }
        text := t + (sub.out + PutVal(crp.name, src'[..slen]));
      }
      AtNext(g, rank, i, k, srca, src, sub.rest);
      s := if kind.Alt? then Ends(sub.rest, text) else Goes(sub.rest, text);
    } else if kind.Seq? && (glen > 0 || !crp.optional) {
      s := Fails;
    } else {
      AtNext(g, rank, i, k, srca, src, src);
      s := Goes(src, t);
    }
  }

  /** `SLLparse`: one loop over the rows, with the source and the output moving along.  It
      terminates on every table whose recursion without reading lowers a rank. */
  method SLLparse(g: Grammar, ghost rank: Order, i: nat, srca: string, size: int, put: bool)
    returns (r: Result)
    requires Ranked(g, rank) && i < |g|
    ensures r == Parse(g, rank, i, srca, size, put, true)
    decreases |srca|, rank.of[i], 1
  {
    var src, val, matched, si := srca, "", false, 0;
    ghost var whole := Parse(g, rank, i, srca, size, put, true);
    AfterNothing(whole);
    while si < |g[i].entries|
      invariant si <= |g[i].entries| && At(g, rank, i, si, srca, src)
      invariant After(val, From(g, rank, i, si, matched, srca, src, size - |val|, put, true)) == whole
    {
      var step, m := Row(g, rank, i, si, matched, srca, src, size - |val|, put);
      match step {
        case Fails => return No;
        case Ends(rest, text) => return Ok(rest, val + text);
        case Goes(rest, text) =>
          AfterTwice(val, text, From(g, rank, i, si + 1, m, srca, rest, size - |val| - |text|, put, true));
          src, val, matched := rest, val + text, m;
      }
      si := si + 1;
    }
    if g[i].kind.Alt? { return No; }
    r := Ok(src, val);
  }

  lemma AfterNothing(r: Result)
    ensures After("", r) == r
  {
    if r.Ok? { assert "" + r.out == r.out; }
  }

  lemma AfterTwice(s: string, t: string, r: Result)
    ensures After(s, After(t, r)) == After(s + t, r)
  {
    if r.Ok? { assert s + (t + r.out) == (s + t) + r.out; }
  }
}