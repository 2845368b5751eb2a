/** Domain generalisation of delegate/mimekit/gendom.cpp: `reverse`, `isattr`, `domain_level`,
    `generic_domain`, for any table of levels and any list of attribute labels. */
module DomainLevel {
  import opened Chars
  import opened Sequences

  const DEFAULT_LEVEL: nat := 2

  // --- strings ------------------------------------------------------------------------------

  function Reversed(s: string): (r: string)
    ensures |r| == |s| && forall i | 0 <= i < |s| :: r[i] == s[|s| - 1 - i]
  {
    if s == [] then [] else Reversed(s[1..]) + [s[0]]
  }

  function Lower(s: string): (r: string)
    ensures |r| == |s| && forall i | 0 <= i < |s| :: r[i] == LowerChar(s[i])
  {
    if s == [] then [] else [LowerChar(s[0])] + Lower(s[1..])
  }

  function Dots(s: string): (n: nat)
    ensures n <= |s|
  {
    if s == [] then 0 else (if s[0] == '.' then 1 else 0) + Dots(s[1..])
  }

  // The first c in s, or its length.
  function Index(s: string, c: char): (k: nat)
    ensures k <= |s| && (k < |s| ==> s[k] == c) && forall i | 0 <= i < k :: s[i] != c
  {
    if s == [] || s[0] == c then 0 else 1 + Index(s[1..], c)
  }

  // --- matching reversed names --------------------------------------------------------------

  // The label in front of the first dot.
  function Label(s: string): string { s[..Index(s, '.')] }

  /** `isattr`: the length of the label that s begins with, when it is an attribute. */
  function Attr(rattrs: seq<string>, s: string): (n: nat)
    ensures n <= Index(s, '.')
  {
    if rattrs == [] then 0 else if rattrs[0] == Label(s) then |rattrs[0]| else Attr(rattrs[1..], s)
  }

  /** Does the reversed pattern h match at the front of the reversed name q? "*" stands for text
      up to the character behind it, "=" for an attribute label. A "*" for which that character
      does not come any more matches at once. */
  predicate Match(rattrs: seq<string>, h: string, q: string)
    decreases |h|
  {
    if h == [] then q == [] || q[0] == '.'
    else if h[0] == '*' then
      |h| == 1 || Index(q, h[1]) == |q| || Match(rattrs, h[2..], q[Index(q, h[1]) + 1..])
    else if h[0] == '=' && Attr(rattrs, q) > 0 then Match(rattrs, h[1..], q[Attr(rattrs, q)..])
    else q != [] && h[0] == q[0] && Match(rattrs, h[1..], q[1..])
  }

  // A level and a reversed pattern.
  datatype Entry = Entry(lev: nat, rev: string)

  /** `domain_level`: the level of the first entry that matches, or 0. */
  function Level(rattrs: seq<string>, domlev: seq<Entry>, q: string): nat {
    if domlev == [] then 0
    else if Match(rattrs, domlev[0].rev, q) then domlev[0].lev
    else Level(rattrs, domlev[1..], q)
  }

  function LevelOr2(lev: nat): nat { if lev == 0 then DEFAULT_LEVEL else lev }

  /** The text in front of the lev-th dot of t, or all of it. */
  function Cut(t: string, lev: nat): (c: string)
    requires lev > 0
    ensures |c| <= |t|
    decreases lev
  {
    var k := Index(t, '.');
    if k == |t| then t
    else if lev == 1 then t[..k]
    else t[..k] + ['.'] + Cut(t[k + 1..], lev - 1)
  }

  /** What `generic_domain` leaves in the buffer; the last character of the host is not looked
      at for dots. */
  function Generic(rattrs: seq<string>, domlev: seq<Entry>, host: string): string {
    if host == [] then host
    else
      var r := Lower(Reversed(host));
      var c := Cut(r[1..], LevelOr2(Level(rattrs, domlev, r)));
      if 1 + |c| == |r| then host else Reversed([r[0]] + c)
  }

  lemma GenericIs(rattrs: seq<string>, domlev: seq<Entry>, host: string, r: string, c: string)
    requires host != [] && r == Lower(Reversed(host)) && |r| == |host|
    requires Cut(r[1..], LevelOr2(Level(rattrs, domlev, r))) == c
    ensures Generic(rattrs, domlev, host) == if 1 + |c| == |r| then host else Reversed([r[0]] + c)
  {
    hide Level, Lower, Reversed, Cut;
  }

  // What `Match` comes to, by what is first in the pattern.
  lemma MatchCases(rattrs: seq<string>, h: string, q: string)
    ensures h == [] ==> Match(rattrs, h, q) == (q == [] || q[0] == '.')
    ensures h != [] && h[0] == '*' ==>
              Match(rattrs, h, q) ==
              (|h| == 1 || Index(q, h[1]) == |q| || Match(rattrs, h[2..], q[Index(q, h[1]) + 1..]))
    ensures h != [] && h[0] == '=' && Attr(rattrs, q) > 0 ==>
              Match(rattrs, h, q) == Match(rattrs, h[1..], q[Attr(rattrs, q)..])
    ensures h != [] && h[0] != '*' && !(h[0] == '=' && Attr(rattrs, q) > 0) ==>
              Match(rattrs, h, q) == (q != [] && h[0] == q[0] && Match(rattrs, h[1..], q[1..]))
  {
  }

  lemma CutCases(u: string, lev: nat)
    requires lev > 0
    ensures var k := Index(u, '.');
            && (k == |u| ==> Cut(u, lev) == u)
            && (k < |u| ==> Cut(u, lev) == if lev == 1 then u[..k] else u[..k] + ['.'] + Cut(u[k + 1..], lev - 1))
  {
    hide Index;
  }

  // --- what a cut is -------------------------------------------------------------------------

  lemma {:induction false} DotsConcat(a: string, b: string)
    ensures Dots(a + b) == Dots(a) + Dots(b)
  {
    if a == [] {
      assert a + b == b;
    } else {
      assert (a + b)[1..] == a[1..] + b;
      DotsConcat(a[1..], b);
    }
  }

  lemma {:induction false} NoDots(s: string)
    requires '.' !in s
    ensures Dots(s) == 0
  {
    if s != [] { NoDots(s[1..]); }
  }

  // The dots of a string, from its first one on.
  lemma {:induction false} FirstDot(t: string)
    ensures var k := Index(t, '.'); Dots(t) == (if k == |t| then 0 else 1 + Dots(t[k + 1..]))
  {
    if t != [] && t[0] != '.' {
      FirstDot(t[1..]);
      var k := Index(t[1..], '.');
      assert k < |t| - 1 ==> t[1..][k + 1..] == t[k + 2..];
    }
  }

  // c is in front of the last of lev dots of t, or is all of t.
  predicate CutOk(t: string, lev: nat, c: string) {
    && c <= t
    && (|c| < |t| ==> t[|c|] == '.' && Dots(c) == lev - 1)
    && (|c| == |t| <==> Dots(t) < lev)
  }

  lemma {:induction false} CutIs(t: string, lev: nat)
    requires lev > 0
    ensures CutOk(t, lev, Cut(t, lev))
    decreases lev
  {
    hide CutOk, Cut, Dots, Index;
    FirstDot(t);
    CutCases(t, lev);
    var k := Index(t, '.');
    if k == |t| {
      CutNothing(t, lev);
    } else {
      var f, u := t[..k], t[k + 1..];
      NoDots(f);
      assert t == f + ['.'] + u;
      if lev == 1 {
        CutFirst(f, u);
      } else {
        CutIs(u, lev - 1);
        DotsOf(f, u);
        CutOn(f, u, lev, Cut(u, lev - 1));
      }
    }
  }

  lemma CutNothing(t: string, lev: nat)
    requires lev > 0 && Dots(t) == 0
    ensures CutOk(t, lev, t)
  {
  }

  lemma CutFirst(f: string, u: string)
    requires Dots(f) == 0
    ensures CutOk(f + ['.'] + u, 1, f)
  {
    DotsOf(f, u);
    assert f + ['.'] + u == f + (['.'] + u);
  }

  lemma CutOn(f: string, u: string, lev: nat, c: string)
    requires lev > 1 && CutOk(u, lev - 1, c) && Dots(f) == 0 && Dots(f + ['.'] + u) == 1 + Dots(u)
    ensures CutOk(f + ['.'] + u, lev, f + ['.'] + c)
  {
    var v := u[|c|..];
    var whole := f + ['.'] + c;
    assert u == c + v;
    assert f + ['.'] + u == whole + v;
    DotsOf(f, c);
  }

  lemma DotsOf(f: string, c: string)
    requires Dots(f) == 0
    ensures Dots(f + ['.'] + c) == 1 + Dots(c)
  {
    DotsConcat(f + ['.'], c);
    DotsConcat(f, ['.']);
    assert ['.'][1..] == [];
  }

  /** The host is unchanged, or the lower-case text behind one of its dots. */
  lemma {:induction false} DotAligned(rattrs: seq<string>, domlev: seq<Entry>, host: string)
    ensures var g := Generic(rattrs, domlev, host);
            g == host || (exists front :: Lower(host) == front + ['.'] + g)
  {
    hide Level, Lower, Reversed, Cut;
    if host != [] {
      var r := Lower(Reversed(host));
      var lev := LevelOr2(Level(rattrs, domlev, r));
      CutIs(r[1..], lev);
      var c := Cut(r[1..], lev);
      GenericIs(rattrs, domlev, host, r, c);
      if 1 + |c| < |r| {
        SplitAtDot(r, c);
        var a, b := [r[0]] + c, r[|c| + 2..];
        BehindDot(a, b);
        LowerReversed(host);
        assert Lower(host) == Reversed(b) + ['.'] + Reversed(a);
      }
    }
  }

  lemma SplitAtDot(r: string, c: string)
    requires r != [] && c <= r[1..] && |c| < |r[1..]| && r[1..][|c|] == '.'
    ensures r == ([r[0]] + c) + (['.'] + r[|c| + 2..])
  {
  }

  lemma BehindDot(a: string, b: string)
    ensures Reversed(a + (['.'] + b)) == Reversed(b) + ['.'] + Reversed(a)
  {
    hide Reversed;
    ReversedConcat(a, ['.'] + b);
    ReversedConcat(['.'], b);
    ReversedDot();
  }

  lemma ReversedDot()
    ensures Reversed(['.']) == ['.']
  {
    assert ['.'][1..] == [];
  }

  lemma ReversedConcat(a: string, b: string)
    ensures Reversed(a + b) == Reversed(b) + Reversed(a)
  {
    hide Reversed;
    assert forall i | 0 <= i < |a| + |b| :: Reversed(a + b)[i] == (a + b)[|a| + |b| - 1 - i];
  }

  lemma LowerReversed(host: string)
    ensures Lower(host) == Reversed(Lower(Reversed(host)))
  {
    hide Lower, Reversed;
    var r := Lower(Reversed(host));
    assert forall i | 0 <= i < |host| ::
      Reversed(r)[i] == r[|host| - 1 - i] == LowerChar(Reversed(host)[|host| - 1 - i]) == LowerChar(host[i]);
  }

  // --- generalising twice --------------------------------------------------------------------

  /** No "?", and a "*" is the rest of a label: what stands behind it is a dot or the end. */
  predicate WellFormed(h: string) {
    h != [] ==>
      h[0] != '?' && (h[0] == '*' ==> |h| == 1 || h[1] == '.') && WellFormed(h[1..])
  }

  // A pattern has at least as many levels as labels.
  predicate EnoughLevels(e: Entry) { WellFormed(e.rev) && Dots(e.rev) + 1 <= e.lev }

  // A name a that is cut off in front of a dot begins as the whole name does.
  lemma FrontKept(rattrs: seq<string>, a: string, b: string)
    requires b != [] && b[0] == '.'
    ensures Index(a + b, '.') == Index(a, '.') && Attr(rattrs, a + b) == Attr(rattrs, a)
  {
    IndexKept(a, b);
    assert (a + b)[..Index(a, '.')] == a[..Index(a, '.')];
    SameLabel(rattrs, a + b, a);
  }

  lemma {:induction false} IndexKept(a: string, b: string)
    requires b != [] && b[0] == '.'
    ensures Index(a + b, '.') == Index(a, '.')
  {
    if a == [] {
      assert a + b == b;
    } else if a[0] != '.' {
      assert (a + b)[1..] == a[1..] + b;
      IndexKept(a[1..], b);
    }
  }

  lemma {:induction false} SameLabel(rattrs: seq<string>, a: string, b: string)
    requires Label(a) == Label(b)
    ensures Attr(rattrs, a) == Attr(rattrs, b)
  {
    if rattrs != [] { SameLabel(rattrs[1..], a, b); }
  }

  // Part of the first label left out.
  lemma {:induction false} InLabel(a: string, k: nat)
    requires k <= Index(a, '.')
    ensures Dots(a[k..]) == Dots(a)
  {
    if k == 0 {
      assert a[0..] == a;
    } else {
      InLabel(a[1..], k - 1);
      assert a[1..][k - 1..] == a[k..];
    }
  }

  lemma Dropped(a: string, b: string, k: nat)
    requires k <= |a|
    ensures (a + b)[k..] == a[k..] + b
  {
  }

  /** A pattern that matches a name matches it when it is cut behind enough dots. */
  lemma {:induction false} MatchKept(rattrs: seq<string>, h: string, a: string, b: string)
    requires b != [] && b[0] == '.' && WellFormed(h) && Match(rattrs, h, a + b) && Dots(h) <= Dots(a)
    ensures Match(rattrs, h, a)
    decreases |h|
  {
    hide Attr, Index, Label;
    FrontKept(rattrs, a, b);
    FirstDot(a);
    assert (a + b)[0] == if a == [] then b[0] else a[0];
    var x, k := Attr(rattrs, a), Index(a, '.');
    if h == [] {
    } else if h[0] == '*' {
      if |h| > 1 && k < |a| {
        Dropped(a, b, k + 1);
        assert h[1..][1..] == h[2..];
        MatchKept(rattrs, h[2..], a[k + 1..], b);
      }
    } else if h[0] == '=' && x > 0 {
      Dropped(a, b, x);
      InLabel(a, x);
      MatchKept(rattrs, h[1..], a[x..], b);
    } else {
      Dropped(a, b, 1);
      MatchKept(rattrs, h[1..], a[1..], b);
    }
  }

  /** A pattern that matches only when the name is cut has a "*" that meets the cut: it has as
      many dots as the name that is left. */
  lemma {:induction false} MatchNew(rattrs: seq<string>, h: string, a: string, b: string)
    requires b != [] && b[0] == '.' && WellFormed(h) && !Match(rattrs, h, a + b) && Match(rattrs, h, a)
    ensures Dots(h) >= Dots(a)
    decreases |h|
  {
    hide Attr, Index, Label;
    FrontKept(rattrs, a, b);
    FirstDot(a);
    assert (a + b)[0] == if a == [] then b[0] else a[0];
    var x, k := Attr(rattrs, a), Index(a, '.');
    if h == [] {
    } else if h[0] == '*' {
      if |h| > 1 && k < |a| {
        Dropped(a, b, k + 1);
        assert h[1..][1..] == h[2..];
        MatchNew(rattrs, h[2..], a[k + 1..], b);
      }
    } else if h[0] == '=' && x > 0 {
      Dropped(a, b, x);
      InLabel(a, x);
      MatchNew(rattrs, h[1..], a[x..], b);
    } else {
      Dropped(a, b, 1);
      MatchNew(rattrs, h[1..], a[1..], b);
    }
  }

  /** Cutting a name at its level does not lower the level. */
  lemma {:induction false} LevelKept(rattrs: seq<string>, domlev: seq<Entry>, a: string, b: string)
    requires forall e | e in domlev :: EnoughLevels(e)
    requires b != [] && b[0] == '.' && LevelOr2(Level(rattrs, domlev, a + b)) <= Dots(a) + 1
    ensures LevelOr2(Level(rattrs, domlev, a + b)) <= LevelOr2(Level(rattrs, domlev, a))
  {
    hide Match, WellFormed;
    if domlev != [] {
      var e := domlev[0];
      assert EnoughLevels(e);
      if Match(rattrs, e.rev, a + b) {
        MatchKept(rattrs, e.rev, a, b);
      } else if Match(rattrs, e.rev, a) {
        MatchNew(rattrs, e.rev, a, b);
      } else {
        LevelKept(rattrs, domlev[1..], a, b);
      }
    }
  }

  // A cut name, and a cut of it at no lower level.
  lemma CutAgain(r: string, lev: nat, lev': nat)
    requires r != [] && 0 < lev <= lev' && 1 + |Cut(r[1..], lev)| < |r|
    ensures var a := [r[0]] + Cut(r[1..], lev);
            r == a + r[|a|..] && r[|a|] == '.' && lev <= Dots(a) + 1 && 1 + |Cut(a[1..], lev')| == |a|
  {
    hide Cut;
    var t := r[1..];
    CutIs(t, lev);
    var c := Cut(t, lev);
    var a := [r[0]] + c;
    assert a[1..] == c;
    assert t == c + t[|c|..] && t[|c|..] == r[|a|..];
    assert r == a + r[|a|..];
    CutIs(c, lev');
  }

  /** For every table and host: generalising twice is generalising once exactly when the first
      time changes nothing, or the name that is left has no lower a level than the whole name. */
  lemma TwiceIsOnce(rattrs: seq<string>, domlev: seq<Entry>, host: string)
    requires host != []
    ensures var r, once := Lower(Reversed(host)), Generic(rattrs, domlev, host);
            var lev := LevelOr2(Level(rattrs, domlev, r));
            Generic(rattrs, domlev, once) == once <==>
              once == host || lev <= LevelOr2(Level(rattrs, domlev, [r[0]] + Cut(r[1..], lev)))
  {
    hide Level, Lower, Reversed, Cut, Dots, LevelOr2, Generic;
    var r := Lower(Reversed(host));
    var lev := LevelOr2(Level(rattrs, domlev, r));
    assert lev > 0 by { LevelPositive(Level(rattrs, domlev, r)); }
    var c := Cut(r[1..], lev);
    GenericIs(rattrs, domlev, host, r, c);
    if 1 + |c| < |r| {
      var a := [r[0]] + c;
      var lev' := LevelOr2(Level(rattrs, domlev, a));
      LevelPositive(Level(rattrs, domlev, a));
      CutTwice(r, lev, lev');
      LowerTwice(Reversed(host));
      LowerPrefix(r, a);
      ReversedTwice(a);
      GenericIs(rattrs, domlev, Reversed(a), a, Cut(a[1..], lev'));
    }
  }

  lemma LevelPositive(lev: nat)
    ensures LevelOr2(lev) > 0
  {
  }

  // A cut name is cut again just when the level is lower.
  lemma CutTwice(r: string, lev: nat, lev': nat)
    requires r != [] && 0 < lev && 0 < lev' && 1 + |Cut(r[1..], lev)| < |r|
    ensures var a := [r[0]] + Cut(r[1..], lev);
            a <= r && a[1..] == Cut(r[1..], lev) && (1 + |Cut(a[1..], lev')| == |a| <==> lev <= lev')
  {
    hide Cut;
    var t := r[1..];
    CutIs(t, lev);
    var c := Cut(t, lev);
    assert ([r[0]] + c)[1..] == c && r == [r[0]] + t && t == c + t[|c|..];
    assert r == ([r[0]] + c) + t[|c|..];
    CutIs(c, lev');
  }

  /** With a table whose levels are at least the labels of their patterns, generalising twice is
      generalising once. */
  lemma Idempotent(rattrs: seq<string>, domlev: seq<Entry>, host: string)
    requires forall e | e in domlev :: EnoughLevels(e)
    ensures var g := Generic(rattrs, domlev, host); Generic(rattrs, domlev, g) == g
  {
    hide Level, Lower, Reversed, Cut, Dots, EnoughLevels;
    var r := Lower(Reversed(host));
    var lev := LevelOr2(Level(rattrs, domlev, r));
    if host != [] {
      TwiceIsOnce(rattrs, domlev, host);
      if 1 + |Cut(r[1..], lev)| < |r| {
        var a := [r[0]] + Cut(r[1..], lev);
        CutAgain(r, lev, lev);
        LevelKept(rattrs, domlev, a, r[|a|..]);
      }
    }
  }

  lemma ReversedTwice(s: string)
    ensures Reversed(Reversed(s)) == s
  {
    hide Reversed;
    var r := Reversed(s);
    assert forall i | 0 <= i < |s| :: Reversed(r)[i] == r[|s| - 1 - i] == s[i];
  }

  lemma LowerTwice(s: string)
    ensures Lower(Lower(s)) == Lower(s)
  {
    hide Lower;
    assert forall i | 0 <= i < |s| :: Lower(Lower(s))[i] == LowerChar(Lower(s)[i]);
  }

  lemma LowerPrefix(s: string, a: string)
    requires a <= s && Lower(s) == s
    ensures Lower(a) == a
  {
    hide Lower;
    assert forall i | 0 <= i < |a| :: Lower(a)[i] == LowerChar(s[i]) == Lower(s)[i] == s[i];
  }

  // --- where the conditions are needed -------------------------------------------------------

  const STARRED: seq<Entry> := [Entry(2, "*xy"), Entry(3, "a")]

  /** With "yx*" at level 2 and "a" at level 3, "zx.c.b.a" becomes "c.b.a" and then "b.a": a "*"
      inside a label may match a name just because it was cut. */
  lemma MidLabelStar()
    ensures Generic([], STARRED, "zx.c.b.a") == "c.b.a" && Generic([], STARRED, "c.b.a") == "b.a"
  {
    hide Cut, Level, Index, Match, Reversed, Lower, Generic, LevelOr2;
    StarLevels();
    StarCuts();
    StarOnce("zx.c.b.a", "a.b.c.xz", ".b.c.xz", 'a', ".b.c", "a.b.c", "c.b.a");
    StarOnce("c.b.a", "a.b.c", ".b.c", 'a', ".b", "a.b", "b.a");
  }

  lemma StarOnce(host: string, r: string, t: string, a: char, c: string, r': string, host': string)
    requires host != [] && |r| == |host| && r == [a] + t && r' == [a] + c && |c| < |t| && |r'| == |host'|
    requires forall i | 0 <= i < |r| :: r[i] == host[|host| - 1 - i] && LowerChar(r[i]) == r[i]
    requires forall i | 0 <= i < |r'| :: r'[i] == host'[|host'| - 1 - i] && LowerChar(r'[i]) == r'[i]
    requires Cut(t, LevelOr2(Level([], STARRED, r))) == c
    ensures Generic([], STARRED, host) == host'
  {
    hide Cut, Level, Lower, Reversed, Generic;
    Backwards(host, r);
    Backwards(host', r');
    assert r[1..] == t && r[0] == a;
    GenericIs([], STARRED, host, r, c);
  }

  lemma Backwards(host: string, r: string)
    requires |r| == |host| && forall i | 0 <= i < |r| :: r[i] == host[|host| - 1 - i] && LowerChar(r[i]) == r[i]
    ensures Lower(Reversed(host)) == r && Reversed(r) == host
  {
    hide Lower, Reversed;
    assert Lower(Reversed(host)) == r;
    assert Reversed(r) == host;
  }

  lemma StarLevels()
    ensures LevelOr2(Level([], STARRED, "a.b.c.xz")) == 3 && LevelOr2(Level([], STARRED, "a.b.c")) == 2
  {
    hide Match, Index, Attr;
    var r, a: string := "a.b.c.xz", "a.b.c";
    var h, b: string := "*xy", "a";
    IndexIs(r, 'x', 6);
    NoIndex(a, 'x');
    MatchCases([], h, r);
    MatchCases([], h, a);
    assert h[2..] == "y" && r[7..] == "z";
    MatchCases([], "y", "z");
    MatchCases([], b, r);
    MatchCases([], b[1..], r[1..]);
    assert b[1..] == [] && r[1..][0] == '.';
    assert STARRED[1..] == [Entry(3, "a")];
  }

  lemma StarCuts()
    ensures Cut(".b.c.xz", 3) == ".b.c" && Cut(".b.c", 2) == ".b"
  {
    hide *;
    assert ".b.c.xz" == "" + ['.'] + "b.c.xz" && "b.c.xz" == "b" + ['.'] + "c.xz" && "c.xz" == "c" + ['.'] + "xz";
    CutLabel("c", "xz", 1);
    CutLabel("b", "c.xz", 2);
    CutLabel("", "b.c.xz", 3);
    assert "b" + ['.'] + "c" == "b.c" && "" + ['.'] + "b.c" == ".b.c";
    assert ".b.c" == "" + ['.'] + "b.c" && "b.c" == "b" + ['.'] + "c";
    CutLabel("b", "c", 1);
    CutLabel("", "b.c", 2);
    assert "" + ['.'] + "b" == ".b";
  }

  lemma CutLabel(f: string, u: string, lev: nat)
    requires lev > 0 && '.' !in f
    ensures Cut(f + ['.'] + u, lev) == if lev == 1 then f else f + ['.'] + Cut(u, lev - 1)
  {
    var t := f + ['.'] + u;
    IndexIs(t, '.', |f|);
    CutCases(t, lev);
    assert t[..|f|] == f && t[|f| + 1..] == u;
  }

  lemma NoIndex(s: string, c: char)
    requires c !in s
    ensures Index(s, c) == |s|
  {
  }

  lemma IndexIs(s: string, c: char, k: nat)
    requires k < |s| && s[k] == c && forall i | 0 <= i < k :: s[i] != c
    ensures Index(s, c) == k
  {
  }

  // --- steps of the program --------------------------------------------------------------------

  // An attribute that agrees with a name as far as either goes is its first label, or not.
  lemma LabelIs(ap: string, dom: string, alen: nat)
    requires '.' !in ap && alen <= |ap| && alen <= |dom| && ap[..alen] == dom[..alen]
    requires alen == |ap| || alen == |dom| || ap[alen] != dom[alen]
    ensures alen == |ap| && (alen == |dom| || dom[alen] == '.') <==> ap == Label(dom)
  {
    var k := Index(dom, '.');
    assert forall i | 0 <= i < alen :: dom[i] == dom[..alen][i] == ap[i] && ap[i] in ap;
    if ap == Label(dom) {
      assert |ap| == k && forall i | 0 <= i < k :: ap[i] == dom[i];
    }
  }

  // One more dot of the name, behind the front f.
  lemma CutStep(t: string, lev: nat, f: string, u: string, m: nat)
    requires lev > 0 && m > 0 && t == f + u && Cut(t, lev) == f + Cut(u, m)
    ensures var k := Index(u, '.');
            && (k == |u| ==> Cut(t, lev) == t)
            && (k < |u| && m == 1 ==> Cut(t, lev) == f + u[..k])
            && (k < |u| && m > 1 ==> Cut(t, lev) == f + (u[..k] + ['.']) + Cut(u[k + 1..], m - 1))
            && (k < |u| ==> t == f + (u[..k] + ['.']) + u[k + 1..])
  {
    hide Index, Cut;
    CutCases(u, m);
    var k := Index(u, '.');
    if k < |u| {
      assert u == u[..k] + ['.'] + u[k + 1..];
      Regroup(f, u[..k] + ['.'], u[k + 1..]);
      if m > 1 { Regroup(f, u[..k] + ['.'], Cut(u[k + 1..], m - 1)); }
    }
  }

  // The cut name in the buffer.
  lemma CutBuffer(r: string, f: string, u: string, k: nat)
    requires r != [] && r[1..] == f + u && k <= |u|
    ensures [r[0]] + (f + u[..k]) == r[..1 + |f| + k]
    ensures k < |u| ==> u[k + 1..] == r[1 + |f| + k + 1..]
  {
    assert r == [r[0]] + f + u;
  }

  // A round of the loop: the name ends, the cut is reached, or the front grows.
  lemma CutRound(r: string, t: string, lev: nat, f: string, u: string, li: nat, k: nat)
    requires r != [] && t == r[1..] && li < lev && t == f + u && Cut(t, lev) == f + Cut(u, lev - li)
    requires k == Index(u, '.')
    ensures 1 + |f| + k == |r| <==> k == |u|
    ensures k == |u| ==> Cut(t, lev) == t
    ensures k < |u| ==>
              var f', u' := f + (u[..k] + ['.']), u[k + 1..];
              && |f'| == |f| + 1 + k && |u'| + |f'| + 1 == |r| && t == f' + u' && u' == r[1 + |f| + k + 1..]
              && (li + 1 < lev ==> Cut(t, lev) == f' + Cut(u', lev - (li + 1)))
              && (li + 1 == lev ==> [r[0]] + Cut(t, lev) == r[..1 + |f| + k])
  {
    hide Cut, Index;
    CutStep(t, lev, f, u, lev - li);
    CutBuffer(r, f, u, k);
  }

  // --- the program ---------------------------------------------------------------------------

  /** `reverse` */
  method Reverse(line: string) returns (rline: string)
    ensures rline == Reversed(line)
  {
    rline := [];
    var pp: nat := |line|;
    while pp > 0
      invariant pp <= |line| && |rline| == |line| - pp
      invariant forall i | 0 <= i < |rline| :: rline[i] == line[|line| - 1 - i]
    {
      pp := pp - 1;
      rline := rline + [line[pp]];
    }
  }

  // A name in the table, with its level.
  datatype Named = Named(lev: nat, name: string)

  class Host {
    var hostaddr: string
  }

  class Domains {
    var rattrs: seq<string>
    var domlev: seq<Entry>

    // The reversed names, made once.
    constructor (attrs: seq<string>, levels: seq<Named>)
      ensures |rattrs| == |attrs| && forall i | 0 <= i < |attrs| :: rattrs[i] == Reversed(attrs[i])
      ensures |domlev| == |levels|
      ensures forall i | 0 <= i < |levels| :: domlev[i] == Entry(levels[i].lev, Reversed(levels[i].name))
    {
      rattrs, domlev := [], [];
      new;
      for ai := 0 to |attrs|
        invariant |rattrs| == ai && domlev == [] && forall i | 0 <= i < ai :: rattrs[i] == Reversed(attrs[i])
      {
        var rattr := Reverse(attrs[ai]);
        rattrs := rattrs + [rattr];
      }
      for hi := 0 to |levels|
        invariant |rattrs| == |attrs| && forall i | 0 <= i < |attrs| :: rattrs[i] == Reversed(attrs[i])
        invariant |domlev| == hi
        invariant forall i | 0 <= i < hi :: domlev[i] == Entry(levels[i].lev, Reversed(levels[i].name))
      {
        var rdn := Reverse(levels[hi].name);
        domlev := domlev + [Entry(levels[hi].lev, rdn)];
      }
    }

    // The program has no "?" in its table; attributes are labels.
    ghost predicate Valid()
      reads this
    {
      (forall e | e in domlev :: '?' !in e.rev) && forall a | a in rattrs :: '.' !in a
    }

    /** `isattr` */
    method Isattr(dom: string) returns (len: nat)
      requires Valid()
      ensures len == Attr(rattrs, dom)
    {
      for ai := 0 to |rattrs|
        invariant Attr(rattrs, dom) == Attr(rattrs[ai..], dom)
      {
        var ap := rattrs[ai];
        assert ap in rattrs;
        var alen := 0;
        while alen < |ap| && alen < |dom| && ap[alen] == dom[alen]
          invariant alen <= |ap| && alen <= |dom| && ap[..alen] == dom[..alen]
        {
          alen := alen + 1;
        }
        LabelIs(ap, dom, alen);
        if alen == |ap| && (alen == |dom| || dom[alen] == '.') {
          return alen;
        }
      }
      return 0;
    }

    /** `domain_level` */
    method LevelOf(rfqdn: string) returns (lev: nat)
      requires Valid()
      ensures lev == Level(rattrs, domlev, rfqdn)
    {
      for hi := 0 to |domlev|
        invariant Level(rattrs, domlev, rfqdn) == Level(rattrs, domlev[hi..], rfqdn)
      {
        var matched := Matches(domlev[hi].rev, rfqdn);
        if matched { return domlev[hi].lev; }
      }
      return 0;
    }

    // One pattern of the table against the name.
    method Matches(dn: string, rfqdn: string) returns (matched: bool)
      requires Valid() && '?' !in dn
      ensures matched == Match(rattrs, dn, rfqdn)
    {
      hide Match, Index, Attr;
      var h, q := dn, rfqdn;
      while true
        invariant Match(rattrs, dn, rfqdn) == Match(rattrs, h, q)
        decreases |h|
      {
        MatchCases(rattrs, h, q);
        if h != [] && h[0] == '*' {
          if |h| == 1 { return true; }
          var qi := SkipTo(q, h[1]);
          if qi == |q| { return true; }
          h, q := h[2..], q[qi + 1..];
          continue;
        }
        if h != [] && h[0] == '=' {
          var alen := Isattr(q);
          if alen != 0 {
            h, q := h[1..], q[alen..];
            continue;
          }
        }
        if h == [] && (q == [] || q[0] == '.') { return true; }
        if h == [] || q == [] || h[0] != q[0] { return false; }
        h, q := h[1..], q[1..];
      }
    }

    // Up to the character behind a "*".
    method SkipTo(q: string, sqc: char) returns (qi: nat)
      ensures qi == Index(q, sqc)
    {
      qi := 0;
      while qi < |q| && q[qi] != sqc
        invariant qi <= |q| && Index(q, sqc) == qi + Index(q[qi..], sqc)
      {
        qi := qi + 1;
      }
    }

    // To the lev-th dot behind the first character, or to the end.
    method CutAt(r: string, lev: nat) returns (dp: nat)
      requires r != [] && lev > 0
      ensures dp <= |r|
      ensures var c := Cut(r[1..], lev); if dp == |r| then 1 + |c| == |r| else 1 + |c| < |r| && [r[0]] + c == r[..dp]
    {
      hide Cut, Index;
      ghost var t, f, c, u := r[1..], "", Cut(r[1..], lev), r[1..];
      assert c == f + c && t == f + t;
      dp := 0;
      var li: nat := 0;
      while li < lev
        invariant li <= lev && dp < |r| && |u| + dp + 1 == |r| && u == r[dp + 1..]
        invariant li < lev ==> |f| == dp && t == f + u && c == f + Cut(u, lev - li)
        invariant li == lev ==> [r[0]] + c == r[..dp]
      {
        var k := SkipTo(r[dp + 1..], '.');
        CutRound(r, t, lev, f, u, li, k);
        dp := dp + 1 + k;
        if dp == |r| { return; }
        li := li + 1;
        f, u := f + (u[..k] + ['.']), u[k + 1..];
      }
    }

    /** `generic_domain`: the host is cut in place. */
    method GenericDomain(host: Host)
      requires Valid()
      modifies host
      ensures host.hostaddr == Generic(rattrs, domlev, old(host.hostaddr))
    {
      hide Level, Lower, Reversed, Cut;
      if host.hostaddr == [] { return; }
      var rhost := Reverse(host.hostaddr);
      var r := Lower(rhost);
      var lev := LevelOf(r);
      if lev == 0 { lev := DEFAULT_LEVEL; }
      GenericIs(rattrs, domlev, host.hostaddr, r, Cut(r[1..], lev));
      var dp := CutAt(r, lev);
      if dp == |r| { return; }
      host.hostaddr := Reverse(r[..dp]);
    }
  }
}
