/** The rule tables of the simple LL parser (delegate/include/SLL.h) and the result of
    `SLLparse` (delegate/rary/SLL.cpp) as a function of the table and the source text. */
module SllGrammar {
  import opened Chars

  datatype Dest = Success | Failure | Next | Recurse(rule: nat)

  /** One row of a rule.  `otherwise` marks the gate OTHERWISE, which is an empty text. */
  datatype Entry = Entry(
    name: string, gate: string, otherwise: bool, dest: Dest,
    optional: bool, charset: bool, putval: bool, putgate: bool, igncase: bool)

  datatype Kind = Alt | Seq

  datatype Rule = Rule(kind: Kind, entries: seq<Entry>)

  type Grammar = seq<Rule>

  // --- gates ------------------------------------------------------------------------

  predicate SameText(a: string, b: string, igncase: bool)
    requires |a| == |b|
  {
    forall i | 0 <= i < |a| :: if igncase then LowerChar(a[i]) == LowerChar(b[i]) else a[i] == b[i]
  }

  // How much source the gate reads when it matches.
  function GateLen(e: Entry): nat {
    if e.charset then 1 else if e.otherwise then 0 else |e.gate|
  }

  predicate GateMatches(e: Entry, src: string) {
    if e.charset then src != [] && src[0] in e.gate
    else e.otherwise || (|e.gate| <= |src| && SameText(src[..|e.gate|], e.gate, e.igncase))
  }

  // In an ALT rule, OTHERWISE only matches while no gate that reads anything has matched.
  predicate Matches(kind: Kind, e: Entry, matched: bool, src: string) {
    GateMatches(e, src) && !(kind.Alt? && matched && e.otherwise && !e.charset)
  }

  // The same letter, but for its case.
  predicate SameLetter(a: char, b: char) {
    || a == b
    || ('A' <= a <= 'Z' && b as int == a as int + 32)
    || ('A' <= b <= 'Z' && a as int == b as int + 32)
  }

  /** What a gate matches: one character of its set; anything, for OTHERWISE; or its text, which
      the source begins with, or begins with but for the case of letters. */
  lemma GateIs(e: Entry, src: string)
    ensures e.charset ==> (GateMatches(e, src) <==> exists c :: c in e.gate && [c] <= src)
    ensures !e.charset && e.otherwise ==> GateMatches(e, src)
    ensures !e.charset && !e.otherwise && !e.igncase ==> (GateMatches(e, src) <==> e.gate <= src)
    ensures !e.charset && !e.otherwise && e.igncase ==>
              (GateMatches(e, src) <==>
               |e.gate| <= |src| && forall i | 0 <= i < |e.gate| :: SameLetter(src[i], e.gate[i]))
    ensures GateMatches(e, src) ==>
              GateLen(e) == if e.charset then 1 else if e.otherwise then 0 else |e.gate|
  {
    if !e.charset && !e.otherwise && |e.gate| <= |src| {
      var h := src[..|e.gate|];
      if e.igncase {
        forall i | 0 <= i < |e.gate|
          ensures SameLetter(src[i], e.gate[i]) <==> LowerChar(h[i]) == LowerChar(e.gate[i])
        {
          SameLower(src[i], e.gate[i]);
        }
      } else if SameText(h, e.gate, false) {
        assert h == e.gate;
      }
    }
    if e.charset && src != [] { assert [src[0]] <= src; }
  }

  lemma SameLower(a: char, b: char)
    ensures LowerChar(a) == LowerChar(b) <==> SameLetter(a, b)
  {
  }

  // --- output -----------------------------------------------------------------------

  /** `SLL_putval`: one line of output. */
  function PutVal(name: string, val: string): string {
    name + "=" + val + "\n"
  }

  // What PUTGATE puts: the first characters of the gate, as many as it reads.
  function GateText(e: Entry, put: bool): string {
    if put && e.putgate then
      PutVal(e.name, if GateLen(e) <= |e.gate| then e.gate[..GateLen(e)] else e.gate)
    else ""
  }

  // --- the parser -------------------------------------------------------------------

  datatype Result = No | Ok(rest: string, out: string)

  function After(t: string, r: Result): Result {
    if r.Ok? then Ok(r.rest, t + r.out) else No
  }

  /** Which rules a recursion may go to: a rank for each rule, and the rules that always read
      when they succeed. */
  datatype Order = Order(of: seq<nat>, eats: seq<bool>)

  /** Entry k of the rule reads at least one character or fails the rule. */
  predicate MustRead(eats: seq<bool>, r: Rule, k: nat)
    requires k < |r.entries|
  {
    var e := r.entries[k];
    && r.kind.Seq? && !e.optional
    && (GateLen(e) > 0 || (e.dest.Recurse? && e.dest.rule < |eats| && eats[e.dest.rule]))
  }

  // Some entry in front of entry k must read.
  predicate HasRead(eats: seq<bool>, r: Rule, k: nat)
    requires k <= |r.entries|
  {
    k > 0 && (MustRead(eats, r, k - 1) || HasRead(eats, r, k - 1))
  }

  predicate Guarded(eats: seq<bool>, r: Rule, k: nat)
    requires k < |r.entries|
  {
    GateLen(r.entries[k]) > 0 || HasRead(eats, r, k)
  }

  // The rule reads at least one character wherever it succeeds.
  predicate AlwaysReads(eats: seq<bool>, r: Rule) {
    if r.kind.Seq? then
      && HasRead(eats, r, |r.entries|)
      && forall k | 0 <= k < |r.entries| && r.entries[k].dest.Success? :: Guarded(eats, r, k)
    else
      forall k | 0 <= k < |r.entries| ::
        var e := r.entries[k];
        && (e.dest.Success? ==> GateLen(e) > 0)
        && (e.dest.Recurse? ==> GateLen(e) > 0 || (e.dest.rule < |eats| && eats[e.dest.rule]))
  }

  /** Recursion without reading anything first lowers the rank of the rule. */
  ghost predicate Ranked(g: Grammar, rank: Order) {
    && |rank.of| == |rank.eats| == |g|
    && (forall i | 0 <= i < |g| && rank.eats[i] :: AlwaysReads(rank.eats, g[i]))
    && forall i, k | 0 <= i < |g| && 0 <= k < |g[i].entries| && g[i].entries[k].dest.Recurse? ::
         var j := g[i].entries[k].dest.rule;
         j < |g| && (Guarded(rank.eats, g[i], k) || rank.of[j] < rank.of[i])
  }

  // Source and guard when the loop of rule i stands at entry k: src0 is where the rule began.
  ghost predicate At(g: Grammar, rank: Order, i: nat, k: nat, src0: string, src: string) {
    && i < |g| && k <= |g[i].entries| && |src| <= |src0|
    && (HasRead(rank.eats, g[i], k) ==> |src| < |src0|)
  }

  /** What a row leaves in the output when its gate has matched and its recursion has failed:
      `leak` is true for the program, where the text of the gate stays. */
  function Left(e: Entry, put: bool, leak: bool): string { if leak then GateText(e, put) else "" }

  /** `SLLparse` on rule i: the source left and the output put, or failure.  `room` is the
      size of the output buffer. Without `leak` it is a parser that takes back what an abandoned
      alternative has put. */
  function Parse(g: Grammar, ghost rank: Order, i: nat, src: string, room: int, put: bool, leak: bool): (r: Result)
    requires Ranked(g, rank) && i < |g|
    ensures r.Ok? ==> |r.rest| <= |src| && (rank.eats[i] ==> |r.rest| < |src|)
    decreases |src|, rank.of[i], |g[i].entries| + 1
  {
    From(g, rank, i, 0, false, src, src, room, put, leak)
  }

  // The loop from entry k on; `matched` tells whether a gate that reads has matched.
  function From(g: Grammar, ghost rank: Order, i: nat, k: nat, matched: bool,
                ghost src0: string, src: string, room: int, put: bool, leak: bool): (r: Result)
    requires Ranked(g, rank) && At(g, rank, i, k, src0, src)
    ensures r.Ok? ==> |r.rest| <= |src| && (rank.eats[i] ==> |r.rest| < |src0|)
    decreases |src0|, rank.of[i], |g[i].entries| - k
  {
    var kind, es := g[i].kind, g[i].entries;
    if k == |es| then (if kind.Alt? then No else Ok(src, ""))
    else
      var e := es[k];
      if !Matches(kind, e, matched, src) then
        if kind.Seq? && !e.optional then No
        else From(g, rank, i, k + 1, matched, src0, src, room, put, leak)
      else
        var n, t := GateLen(e), GateText(e, put);
        var matched', src', room' := matched || n > 0, src[n..], room - |t|;
        match e.dest
        case Success => Ok(src', t)
        case Failure => No
        case Next => After(t, From(g, rank, i, k + 1, matched', src0, src', room', put, leak))
        case Recurse(j) => Recursed(g, rank, i, k, matched, src0, src, room, put, leak)
  }

  // The loop at an entry whose gate matches and that recurses.
  function Recursed(g: Grammar, ghost rank: Order, i: nat, k: nat, matched: bool,
                    ghost src0: string, src: string, room: int, put: bool, leak: bool): (r: Result)
    requires Ranked(g, rank) && At(g, rank, i, k, src0, src) && k < |g[i].entries|
    requires Matches(g[i].kind, g[i].entries[k], matched, src) && g[i].entries[k].dest.Recurse?
    ensures r.Ok? ==> |r.rest| <= |src| && (rank.eats[i] ==> |r.rest| < |src0|)
    decreases |src0|, rank.of[i], |g[i].entries| - k, 0
  {
    var kind, e := g[i].kind, g[i].entries[k];
    var n, t := GateLen(e), GateText(e, put);
    var matched', src', room' := matched || n > 0, src[n..], room - |t|;
    match Parse(g, rank, e.dest.rule, src', room', put, leak)
    case Ok(rest, o) =>
      var val := src'[..|src'| - |rest|];
      if put && e.putval && room' <= |val| then No
      else
        var o' := if put && e.putval then o + PutVal(e.name, val) else o;
        if kind.Alt? then Ok(rest, t + o')
        else After(t + o', From(g, rank, i, k + 1, matched', src0, rest, room' - |o'|, put, leak))
    case No =>
      if kind.Seq? && (n > 0 || !e.optional) then No
      else
        var left := Left(e, put, leak);
        After(left, From(g, rank, i, k + 1, matched', src0, src, room - |left|, put, leak))
  }
}
