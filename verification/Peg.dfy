/** Parsing expressions with ordered choice, as inference rules: an independent account of
    what a parse is.  A derivation is a tree whose nodes are labelled with judgements, and it
    is valid when every node follows from its children by the rule of its expression. */
module Peg {
  import opened SllGrammar

  datatype Expr =
    | Empty
    | Never
    | Gate(e: Entry)                    // reads what the gate of e matches
    | Emit(text: string)                // puts text and reads nothing
    | Not(a: Expr)                      // looks ahead, reads and puts nothing
    | Then(a: Expr, b: Expr)
    | Choice(a: Expr, b: Expr)          // b only if a fails, from the same place
    | Capture(name: string, a: Expr)    // puts what a has read
    | Call(rule: nat)

  // Full: the text to be captured does not fit the room; it ends the rule that called.
  datatype Outcome = Fail | Full | Done(rest: string, out: string)

  datatype Judgement = Judgement(e: Expr, src: string, room: int, o: Outcome)

  datatype Tree = Tree(j: Judgement, subs: seq<Tree>)

  // The bodies of the rules.
  type Rules = seq<Expr>

  // The label of child k.
  predicate Child(t: Tree, k: nat, e: Expr, src: string, room: int) {
    k < |t.subs| && t.subs[k].j.e == e && t.subs[k].j.src == src && t.subs[k].j.room == room
  }

  function Join(out: string, o: Outcome): Outcome {
    if o.Done? then Done(o.rest, out + o.out) else o
  }

  /** One inference: the outcome of t follows from the outcomes of its children. */
  ghost predicate Follows(g: Rules, t: Tree) {
    var Judgement(e, src, room, o) := t.j;
    match e
    case Empty => o == Done(src, "")
    case Never => o == Fail
    case Gate(en) => o == if GateMatches(en, src) then Done(src[GateLen(en)..], "") else Fail
    case Emit(text) => o == Done(src, text)
    case Not(a) =>
      && Child(t, 0, a, src, room)
      && o == (match t.subs[0].j.o case Done(_, _) => Fail case Fail => Done(src, "") case Full => Full)
    case Then(a, b) =>
      && Child(t, 0, a, src, room)
      && (match t.subs[0].j.o
          case Done(rest, out) => Child(t, 1, b, rest, room - |out|) && o == Join(out, t.subs[1].j.o)
          case Fail => o == Fail
          case Full => o == Full)
    case Choice(a, b) =>
      && Child(t, 0, a, src, room)
      && (if t.subs[0].j.o.Fail? then Child(t, 1, b, src, room) && o == t.subs[1].j.o
          else o == t.subs[0].j.o)
    case Capture(name, a) =>
      && Child(t, 0, a, src, room)
      && (match t.subs[0].j.o
          case Done(rest, out) =>
            |rest| <= |src| &&
            var val := src[..|src| - |rest|];
            o == if room <= |val| then Full else Done(rest, out + PutVal(name, val))
          case Fail => o == Fail
          case Full => o == Full)
    case Call(i) =>
      && i < |g| && Child(t, 0, g[i], src, room)
      && o == if t.subs[0].j.o.Full? then Fail else t.subs[0].j.o
  }

  ghost predicate Valid(g: Rules, t: Tree) {
    Follows(g, t) && forall k | 0 <= k < |t.subs| :: Valid(g, t.subs[k])
  }

  /** A judgement holds when it has a derivation. */
  ghost predicate Derivable(g: Rules, e: Expr, src: string, room: int, o: Outcome) {
    exists t :: Valid(g, t) && t.j == Judgement(e, src, room, o)
  }

  /** Derivations are deterministic: an expression has at most one outcome at a place. */
  lemma {:induction false} Deterministic(g: Rules, s: Tree, t: Tree)
    requires Valid(g, s) && Valid(g, t)
    requires s.j.e == t.j.e && s.j.src == t.j.src && s.j.room == t.j.room
    ensures s.j.o == t.j.o
    decreases s
  {
    if !s.j.e.Empty? && !s.j.e.Never? && !s.j.e.Gate? && !s.j.e.Emit? {
      Deterministic(g, s.subs[0], t.subs[0]);
      match s.j.e
      case Then(_, _) =>
        if s.subs[0].j.o.Done? { Deterministic(g, s.subs[1], t.subs[1]); }
      case Choice(_, _) =>
        if s.subs[0].j.o.Fail? { Deterministic(g, s.subs[1], t.subs[1]); }
      case _ =>
    }
  }

  // --- building derivations -----------------------------------------------------------

  lemma Leaf(g: Rules, e: Expr, src: string, room: int, o: Outcome)
    requires Follows(g, Tree(Judgement(e, src, room, o), []))
    ensures Derivable(g, e, src, room, o)
  {
    assert Valid(g, Tree(Judgement(e, src, room, o), []));
  }

  lemma One(g: Rules, e: Expr, src: string, room: int, o: Outcome, a: Expr, oa: Outcome)
    requires Derivable(g, a, src, room, oa)
    requires forall t: Tree | t.j == Judgement(a, src, room, oa) ::
               Follows(g, Tree(Judgement(e, src, room, o), [t]))
    ensures Derivable(g, e, src, room, o)
  {
    var t :| Valid(g, t) && t.j == Judgement(a, src, room, oa);
    assert Valid(g, Tree(Judgement(e, src, room, o), [t]));
  }

  lemma MakeThen(g: Rules, a: Expr, b: Expr, src: string, room: int, rest: string, out: string, ob: Outcome)
    requires Derivable(g, a, src, room, Done(rest, out)) && Derivable(g, b, rest, room - |out|, ob)
    ensures Derivable(g, Then(a, b), src, room, Join(out, ob))
  {
    var s :| Valid(g, s) && s.j == Judgement(a, src, room, Done(rest, out));
    var t :| Valid(g, t) && t.j == Judgement(b, rest, room - |out|, ob);
    assert Valid(g, Tree(Judgement(Then(a, b), src, room, Join(out, ob)), [s, t]));
  }

  lemma MakeThenStop(g: Rules, a: Expr, b: Expr, src: string, room: int, oa: Outcome)
    requires Derivable(g, a, src, room, oa) && !oa.Done?
    ensures Derivable(g, Then(a, b), src, room, oa)
  {
    One(g, Then(a, b), src, room, oa, a, oa);
  }

  lemma MakeChoiceFirst(g: Rules, a: Expr, b: Expr, src: string, room: int, oa: Outcome)
    requires Derivable(g, a, src, room, oa) && !oa.Fail?
    ensures Derivable(g, Choice(a, b), src, room, oa)
  {
    One(g, Choice(a, b), src, room, oa, a, oa);
  }

  lemma MakeChoiceSecond(g: Rules, a: Expr, b: Expr, src: string, room: int, ob: Outcome)
    requires Derivable(g, a, src, room, Fail) && Derivable(g, b, src, room, ob)
    ensures Derivable(g, Choice(a, b), src, room, ob)
  {
    var s :| Valid(g, s) && s.j == Judgement(a, src, room, Fail);
    var t :| Valid(g, t) && t.j == Judgement(b, src, room, ob);
    assert Valid(g, Tree(Judgement(Choice(a, b), src, room, ob), [s, t]));
  }

  lemma MakeNot(g: Rules, a: Expr, src: string, room: int, oa: Outcome)
    requires Derivable(g, a, src, room, oa)
    ensures Derivable(g, Not(a), src, room,
                      match oa case Done(_, _) => Fail case Fail => Done(src, "") case Full => Full)
  {
    One(g, Not(a), src, room, match oa case Done(_, _) => Fail case Fail => Done(src, "") case Full => Full, a, oa);
  }

  lemma MakeCall(g: Rules, i: nat, src: string, room: int, o: Outcome)
    requires i < |g| && Derivable(g, g[i], src, room, o)
    ensures Derivable(g, Call(i), src, room, if o.Full? then Fail else o)
  {
    One(g, Call(i), src, room, if o.Full? then Fail else o, g[i], o);
  }
}
