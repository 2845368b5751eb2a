/** The stack of multipart boundaries of delegate/mimekit/mime.cpp: `push_boundary`,
    `top_boundary`, `pop_boundary` on an array ended by a null entry. */
module MimeBoundaries {
  import opened Bytes
  import opened MimeText

  const MAXDEPTH: nat := 32

  type Stack = seq<bytes>

  // Why reading stopped; NONE (0 in the program) while it goes on.
  datatype Code = NONE | MP_EOF | MP_EOR | MP_EOP | MP_EOC

  // A boundary is not pushed on a full stack.
  function Push(st: Stack, boundary: bytes): Stack {
    if MAXDEPTH - 1 <= |st| then st else st + [boundary]
  }

  datatype Popped = Popped(code: Code, stack: Stack)

  /** What `pop_boundary` makes of a line, when it has come to boundary bi. */
  function Pop(st: Stack, line: bytes, bi: nat): (p: Popped)
    requires bi <= |st|
    ensures p.code == MP_EOP ==> bi <= |p.stack| < |st| && p.stack == st[..|p.stack|]
    ensures p.code != MP_EOP ==> p.stack == st
    ensures p.code != MP_EOF
    decreases |st| - bi
  {
    if !(|line| > 1 && line[0] == DASH && line[1] == DASH) || bi == |st| then
      Popped(if IsEOR(line) then MP_EOR else NONE, st)
    else if st[bi] <= line[2..] then
      var t := line[2 + |st[bi]|..];
      if |t| > 1 && t[0] == DASH && t[1] == DASH then Popped(MP_EOP, st[..bi])
      else if t == [] || t[0] in {SPACE, TAB, CR, LF} then Popped(MP_EOC, st)
      else Pop(st, line, bi + 1)
    else Pop(st, line, bi + 1)
  }

  // The line "--b--", and more behind it.
  predicate Closes(line: bytes, b: bytes) { [DASH, DASH] + b + [DASH, DASH] <= line }

  // The line "--b", with white space or nothing behind it.
  predicate Opens(line: bytes, b: bytes) {
    && [DASH, DASH] + b <= line
    && (line == [DASH, DASH] + b || line[2 + |b|] in {SPACE, TAB, CR, LF})
  }

  lemma Delimits(line: bytes, b: bytes)
    requires |line| > 1 && line[0] == DASH && line[1] == DASH
    ensures b <= line[2..] <==> [DASH, DASH] + b <= line
    ensures b <= line[2..] ==>
              var t := line[2 + |b|..];
              && (Closes(line, b) <==> |t| > 1 && t[0] == DASH && t[1] == DASH)
              && (Opens(line, b) <==> t == [] || t[0] in {SPACE, TAB, CR, LF})
  {
    var d := [DASH, DASH] + b;
    if |d| <= |line| {
      assert line[..|d|] == [DASH, DASH] + line[2..][..|b|];
    }
    if b <= line[2..] {
      var t := line[2 + |b|..];
      assert line == d + t;
      assert d + [DASH, DASH] <= d + t <==> [DASH, DASH] <= t by {
        if |t| > 1 { assert (d + t)[..|d| + 2] == d + t[..2]; }
      }
    }
  }

  /** The outermost boundary that the line delimits decides: a close of level i leaves exactly
      the first i boundaries, and a delimiter leaves all. */
  lemma {:induction false} PopIs(st: Stack, line: bytes, bi: nat, i: nat)
    requires bi <= i < |st|
    requires forall k | bi <= k < i :: !Closes(line, st[k]) && !Opens(line, st[k])
    ensures Closes(line, st[i]) ==> Pop(st, line, bi) == Popped(MP_EOP, st[..i])
    ensures Opens(line, st[i]) && !Closes(line, st[i]) ==> Pop(st, line, bi) == Popped(MP_EOC, st)
    decreases i - bi
  {
    if |line| > 1 && line[0] == DASH && line[1] == DASH {
      Delimits(line, st[bi]);
      if bi < i { PopIs(st, line, bi + 1, i); }
    } else {
      assert forall d: bytes | [DASH, DASH] <= d :: d <= line ==> d[0] == line[0] && d[1] == line[1];
    }
  }

  // No boundary is delimited: the line ends the message or nothing.
  lemma {:induction false} PopNone(st: Stack, line: bytes, bi: nat)
    requires bi <= |st|
    requires forall k | bi <= k < |st| :: !Closes(line, st[k]) && !Opens(line, st[k])
    ensures Pop(st, line, bi) == Popped(if IsEOR(line) then MP_EOR else NONE, st)
    decreases |st| - bi
  {
    if bi < |st| && |line| > 1 && line[0] == DASH && line[1] == DASH {
      Delimits(line, st[bi]);
      PopNone(st, line, bi + 1);
    }
  }

  datatype Entry = Null | Boundary(b: bytes)

  // The boundaries in front of the first null entry.
  function Listed(a: seq<Entry>): (st: Stack)
    ensures |st| <= |a|
    ensures |st| < |a| ==> a[|st|].Null?
    ensures forall i | 0 <= i < |st| :: a[i] == Boundary(st[i])
  {
    if a == [] || a[0].Null? then [] else [a[0].b] + Listed(a[1..])
  }

  lemma {:induction false} ListedIs(a: seq<Entry>, n: nat)
    requires n < |a| && a[n].Null? && forall i | 0 <= i < n :: a[i].Boundary?
    ensures |Listed(a)| == n
    decreases n
  {
    if n > 0 { ListedIs(a[1..], n - 1); }
  }

  class Boundaries {
    const boundaries: array<Entry>

    ghost predicate Valid()
      reads this, boundaries
    {
      boundaries.Length == MAXDEPTH && |Contents()| < MAXDEPTH
    }

    ghost function Contents(): Stack
      reads this, boundaries
    {
      Listed(boundaries[..])
    }

    constructor ()
      ensures Valid() && fresh(boundaries) && Contents() == []
    {
      boundaries := new Entry[MAXDEPTH](_ => Null);
    }

    /** `top_boundary` */
    method TopBoundary() returns (bi: nat)
      requires Valid()
      ensures bi == |Contents()|
    {
      bi := 0;
      while !boundaries[bi].Null?
        invariant bi <= |Contents()|
        decreases |Contents()| - bi
      {
        bi := bi + 1;
      }
    }

    /** `push_boundary` */
    method PushBoundary(boundary: bytes)
      requires Valid()
      modifies boundaries
      ensures Valid() && Contents() == Push(old(Contents()), boundary)
      ensures Contents() == if |old(Contents())| < 31 then old(Contents()) + [boundary] else old(Contents())
    {
      ghost var st := Contents();
      var bi := TopBoundary();
      if MAXDEPTH - 1 <= bi { return; }
      boundaries[bi] := Boundary(boundary);
      boundaries[bi + 1] := Null;
      ListedIs(boundaries[..], bi + 1);
      assert Contents() == st + [boundary];
    }

    /** `pop_boundary` */
    method PopBoundary(line: bytes) returns (code: Code)
      requires Valid()
      modifies boundaries
      ensures Valid()
      ensures var p := Pop(old(Contents()), line, 0); code == p.code && Contents() == p.stack
    {
      ghost var st := Contents();
      if |line| > 1 && line[0] == DASH && line[1] == DASH {
        var bi := 0;
        while !boundaries[bi].Null?
          invariant bi <= |st| && Contents() == st
          invariant Pop(st, line, 0) == Pop(st, line, bi)
          decreases |st| - bi
        {
          var b1 := boundaries[bi].b;
          if b1 <= line[2..] {
            var tp := line[2 + |b1|..];
            if |tp| > 1 && tp[0] == DASH && tp[1] == DASH {
              boundaries[bi] := Null;
              ListedIs(boundaries[..], bi);
              assert Contents() == st[..bi];
              return MP_EOP;
            } else if tp == [] || tp[0] in {SPACE, TAB, CR, LF} {
              return MP_EOC;
            }
          }
          bi := bi + 1;
        }
      }
      return if IsEOR(line) then MP_EOR else NONE;
    }
  }
}
