/** What the table of delegate/mimekit/gendom.cpp means, on names as they are written: which
    hosts a row is for, and what is left of a host. */
module DomainMeans {
  import opened Chars
  import opened DomainLevel
  import T = DomainTable

  // --- attributes ----------------------------------------------------------------------------

  /** The label that s begins with. */
  predicate FirstLabel(s: string, l: string) {
    '.' !in l && l <= s && (|l| < |s| ==> s[|l|] == '.')
  }

  lemma LabelFirst(s: string, l: string)
    ensures FirstLabel(s, l) <==> l == Label(s)
  {
    if FirstLabel(s, l) {
      if |l| < |s| { IndexIs(s, '.', |l|); } else { NoIndex(s, '.'); }
      assert s[..|l|] == l;
    }
  }

  /** `isattr` finds a label just when it is one of the attributes and not empty; then it is its
      length. */
  lemma {:induction false} AttrIs(rattrs: seq<string>, s: string, l: string)
    requires FirstLabel(s, l)
    ensures Attr(rattrs, s) == if l in rattrs then |l| else 0
    ensures Attr(rattrs, s) > 0 <==> l in rattrs && l != ""
  {
    LabelFirst(s, l);
    hide Label;
    if rattrs != [] && rattrs[0] != l { AttrIs(rattrs[1..], s, l); }
  }

  // --- patterns --------------------------------------------------------------------------------

  predicate PlainText(u: string) { '*' !in u && '=' !in u }

  // A plain front of a pattern stands as it is.
  lemma {:induction false} PlainFront(rattrs: seq<string>, u: string, v: string, q: string)
    requires PlainText(u)
    ensures Match(rattrs, u + v, q) <==> u <= q && Match(rattrs, v, q[|u|..])
  {
    hide Match;
    if u == "" {
      assert u + v == v && q[0..] == q;
    } else {
      var h := u + v;
      assert u[0] in u && h[0] == u[0] && h[1..] == u[1..] + v;
      MatchCases(rattrs, h, q);
      if q != [] && q[0] == u[0] {
        PlainFront(rattrs, u[1..], v, q[1..]);
        assert u == [u[0]] + u[1..] && q == [q[0]] + q[1..];
      }
    }
  }

  predicate AtEnd(q: string) { q == "" || q[0] == '.' }

  lemma PlainIs(rattrs: seq<string>, u: string, q: string)
    requires PlainText(u)
    ensures Match(rattrs, u, q) <==> u <= q && AtEnd(q[|u|..])
  {
    hide Match;
    assert u + "" == u;
    PlainFront(rattrs, u, "", q);
    if u <= q { MatchCases(rattrs, "", q[|u|..]); }
  }

  // The name q begins with the labels h.
  predicate Begins(h: string, q: string) { h <= q && AtEnd(q[|h|..]) }

  /** "=" behind a plain text stands for any attribute, or for itself. */
  lemma AttrPattern(rattrs: seq<string>, u: string, q: string)
    requires PlainText(u) && forall a | a in rattrs :: '.' !in a
    ensures Match(rattrs, u + "=", q) <==>
              (exists a | a in rattrs && a != "" :: Begins(u + a, q)) || Begins(u + "=", q)
  {
    hide Match, Attr;
    PlainFront(rattrs, u, "=", q);
    if u <= q {
      var t := q[|u|..];
      AttrHere(rattrs, t);
      forall a
        ensures Begins(u + a, q) <==> Begins(a, t)
      {
        BeginsBehind(u, a, q);
      }
    } else {
      forall a
        ensures !Begins(u + a, q)
      {
        assert u <= u + a;
      }
    }
  }

  lemma BeginsBehind(u: string, a: string, q: string)
    requires u <= q
    ensures Begins(u + a, q) <==> Begins(a, q[|u|..])
  {
    var t := q[|u|..];
    assert q == u + t;
    if a <= t { assert q[|u + a|..] == t[|a|..]; }
    if u + a <= q { assert t[..|a|] == q[|u|..|u + a|] == a; }
  }

  lemma AttrHere(rattrs: seq<string>, t: string)
    requires forall a | a in rattrs :: '.' !in a
    ensures Match(rattrs, "=", t) <==> (exists a | a in rattrs && a != "" :: Begins(a, t)) || Begins("=", t)
  {
    hide Match, Attr;
    var l := Label(t);
    LabelFirst(t, l);
    AttrIs(rattrs, t, l);
    MatchCases(rattrs, "=", t);
    assert "="[1..] == "";
    if Attr(rattrs, t) > 0 {
      MatchCases(rattrs, "", t[|l|..]);
      assert Begins(l, t);
    } else {
      forall a | a in rattrs && a != "" && Begins(a, t)
        ensures false
      {
        assert |a| < |t| ==> t[|a|..][0] == t[|a|];
        LabelFirst(t, a);
      }
      if t != "" { MatchCases(rattrs, "", t[1..]); }
    }
  }

  /** "*" behind a plain text, in front of a dot and more plain text: a label without a dot, or
      the rest of a name that has none. */
  lemma StarPattern(rattrs: seq<string>, u: string, v: string, q: string)
    requires PlainText(u) && PlainText(v)
    ensures Match(rattrs, u + ("*." + v), q) <==>
              exists l :: '.' !in l && (q == u + l || Begins(u + l + "." + v, q))
  {
    hide Match;
    PlainFront(rattrs, u, "*." + v, q);
    if u <= q {
      var t := q[|u|..];
      StarHere(rattrs, v, t);
      forall l
        ensures (q == u + l <==> t == l) && (Begins(u + l + "." + v, q) <==> Begins(l + "." + v, t))
      {
        BeginsBehind(u, l + "." + v, q);
        assert u + l + "." + v == u + (l + "." + v);
        assert q == u + t;
        if q == u + l { assert t == l; }
      }
    } else {
      forall l
        ensures q != u + l && !Begins(u + l + "." + v, q)
      {
        assert u <= u + l <= u + l + "." + v;
      }
    }
  }

  lemma StarHere(rattrs: seq<string>, v: string, t: string)
    requires PlainText(v)
    ensures Match(rattrs, "*." + v, t) <==> exists l :: '.' !in l && (t == l || Begins(l + "." + v, t))
  {
    hide Match, Begins;
    var h, k := "*." + v, Index(t, '.');
    MatchCases(rattrs, h, t);
    assert h[0] == '*' && h[1] == '.' && h[2..] == v;
    if k == |t| {
      assert '.' !in t;
    } else {
      PlainIs(rattrs, v, t[k + 1..]);
      var f := t[..k];
      assert '.' !in f;
      LabelBehind(v, t, f);
      forall l | '.' !in l && (t == l || Begins(l + "." + v, t))
        ensures l == f
      {
        OnlyLabel(v, t, l);
      }
    }
  }

  lemma LabelBehind(v: string, t: string, f: string)
    requires |f| < |t| && f == t[..|f|] && t[|f|] == '.'
    ensures Begins(f + "." + v, t) <==> v <= t[|f| + 1..] && AtEnd(t[|f| + 1..][|v|..])
  {
    hide Begins;
    assert f + "." <= t && t[|f + "."|..] == t[|f| + 1..];
    BeginsBehind(f + ".", v, t);
    BeginsIs(v, t[|f| + 1..]);
  }

  lemma BeginsIs(h: string, q: string)
    ensures Begins(h, q) <==> h <= q && AtEnd(q[|h|..])
  {
  }

  // No other label than the first stands in front of a dot.
  lemma OnlyLabel(v: string, t: string, l: string)
    requires Index(t, '.') < |t| && '.' !in l && (t == l || Begins(l + "." + v, t))
    ensures l == t[..Index(t, '.')]
  {
    var k := Index(t, '.');
    assert t[k] == '.' && t[k] in t;
    assert l <= l + "." + v <= t;
    assert (l + "." + v)[|l|] == '.';
    IndexIs(t, '.', |l|);
  }

  // --- rows of the table -------------------------------------------------------------------------

  /** The name s is x, or ends in "." and x. */
  ghost predicate Under(s: string, x: string) { s == x || exists f: string :: s == f + "." + x }

  lemma UnderIs(s: string, x: string)
    ensures Begins(Reversed(x), Reversed(s)) <==> Under(s, x)
  {
    hide Reversed;
    var h, q := Reversed(x), Reversed(s);
    ReversedTwice(s);
    ReversedTwice(x);
    if Begins(h, q) {
      var t := q[|h|..];
      assert q == h + t;
      if t == "" {
        assert q == h;
      } else {
        assert t == ['.'] + t[1..];
        BehindDot(h, t[1..]);
        assert s == Reversed(t[1..]) + "." + x;
      }
    }
    if f: string :| s == f + "." + x {
      BehindDotBack(f, x);
      assert q[|h|..] == "." + Reversed(f);
    }
  }

  lemma BehindDotBack(f: string, x: string)
    ensures Reversed(f + "." + x) == Reversed(x) + ("." + Reversed(f))
  {
    hide Reversed;
    ReversedConcat(f + ".", x);
    ReversedConcat(f, ".");
    ReversedDot();
  }

  lemma ReversedPlain(w: T.Word)
    ensures PlainText(Reversed(w)) && PlainText(w)
  {
    hide Reversed;
    assert forall i | 0 <= i < |w| :: Reversed(w)[i] == w[|w| - 1 - i];
  }

  /** Which hosts a row is for: "a" and "a.b" for the name itself and those under it, "=.b" for
      those of an attribute in front of b, "a.*.b" for those of one label between - and for any
      name of one label in front of b. */
  ghost predicate Meant(attrs: seq<string>, row: T.Row, s: string) {
    match row
    case One(_, a) => Under(s, a)
    case Two(_, a, b) => Under(s, a + "." + b)
    case Attr(_, b) => (exists a | a in attrs && a != "" :: Under(s, a + "." + b)) || Under(s, "=." + b)
    case Mid(_, a, b) => exists l :: '.' !in l && (s == l + "." + b || Under(s, a + "." + l + "." + b))
  }

  function ReversedAll(attrs: seq<string>): (r: seq<string>)
    ensures |r| == |attrs| && forall i | 0 <= i < |attrs| :: r[i] == Reversed(attrs[i])
  {
    seq(|attrs|, i requires 0 <= i < |attrs| => Reversed(attrs[i]))
  }

  // The pattern of a row as it is written.
  function TextOf(row: T.Row): string {
    match row
    case One(_, a) => a
    case Two(_, a, b) => a + "." + b
    case Attr(_, b) => "=." + b
    case Mid(_, a, b) => a + ".*." + b
  }

  lemma TextIs(row: T.Row)
    ensures T.Joined(T.LabelsOf(row)) == TextOf(row)
  {
    match row
    case One(_, a) =>
    case Two(_, a, b) =>
      assert [a, b][1..] == [b];
      assert a + (['.'] + b) == a + "." + b;
    case Attr(_, b) =>
      assert ["=", b][1..] == [b];
      assert "=" + (['.'] + b) == "=." + b;
    case Mid(_, a, b) =>
      assert [a, "*", b][1..] == ["*", b] && ["*", b][1..] == [b];
      assert T.Joined(["*", b]) == "*" + (['.'] + b);
      assert a + (['.'] + ("*" + (['.'] + b))) == a + ".*." + b;
  }

  /** The reversed pattern of a row matches the reversed name just when the row is for the host. */
  lemma RowMeans(attrs: seq<string>, row: T.Row, s: string)
    requires forall a | a in attrs :: '.' !in a
    ensures Match(ReversedAll(attrs), T.EntryOf(row).rev, Reversed(s)) <==> Meant(attrs, row, s)
  {
    TextIs(row);
    hide Match, Reversed, Under, Begins, T.Joined, T.LabelsOf;
    var r, q := ReversedAll(attrs), Reversed(s);
    match row
    case One(_, a) =>
      ReversedPlain(a);
      PlainMeans(r, a, s);
    case Two(_, a, b) =>
      TwoPlain(a, b);
      PlainMeans(r, a + "." + b, s);
    case Attr(_, b) =>
      AttrMeans(attrs, b, s);
    case Mid(_, a, b) =>
      MidMeans(r, a, b, s);
  }

  lemma TwoPlain(a: T.Word, b: T.Word)
    ensures PlainText(Reversed(a + "." + b))
  {
    hide Reversed;
    var w := a + "." + b;
    assert forall i | 0 <= i < |w| :: Reversed(w)[i] == w[|w| - 1 - i];
  }

  lemma PlainMeans(r: seq<string>, x: string, s: string)
    requires PlainText(Reversed(x))
    ensures Match(r, Reversed(x), Reversed(s)) <==> Under(s, x)
  {
    hide Match, Reversed, Under;
    PlainIs(r, Reversed(x), Reversed(s));
    UnderIs(s, x);
  }

  lemma AttrMeans(attrs: seq<string>, b: T.Word, s: string)
    requires forall a | a in attrs :: '.' !in a
    ensures Match(ReversedAll(attrs), Reversed("=." + b), Reversed(s)) <==>
              (exists a | a in attrs && a != "" :: Under(s, a + "." + b)) || Under(s, "=." + b)
  {
    hide Match, Reversed, Under, Begins;
    var r, u := ReversedAll(attrs), Reversed(b) + ".";
    ReversedPlain(b);
    NoDotReversed(attrs);
    Behind("=", b);
    ReversedOne('=');
    AttrPattern(r, u, Reversed(s));
    assert "=" + "." + b == "=." + b;
    UnderIs(s, "=." + b);
    forall a | a in attrs && a != ""
      ensures Reversed(a) in r && Reversed(a) != "" && (Begins(u + Reversed(a), Reversed(s)) <==> Under(s, a + "." + b))
    {
      var i :| 0 <= i < |attrs| && attrs[i] == a;
      assert r[i] == Reversed(a);
      Behind(a, b);
      UnderIs(s, a + "." + b);
    }
    if a' :| a' in r && a' != "" && Begins(u + a', Reversed(s)) {
      var i :| 0 <= i < |r| && r[i] == a';
      assert attrs[i] in attrs && Reversed(attrs[i]) == a' && |attrs[i]| == |a'|;
      assert Under(s, attrs[i] + "." + b);
    }
  }

  lemma NoDotReversed(attrs: seq<string>)
    requires forall a | a in attrs :: '.' !in a
    ensures forall a | a in ReversedAll(attrs) :: '.' !in a
  {
    hide Reversed;
    forall a | a in ReversedAll(attrs)
      ensures '.' !in a
    {
      var i :| 0 <= i < |attrs| && a == Reversed(attrs[i]);
      assert attrs[i] in attrs;
      assert forall k | 0 <= k < |a| :: a[k] == attrs[i][|a| - 1 - k];
    }
  }

  lemma Behind(a: string, b: string)
    ensures Reversed(a + "." + b) == Reversed(b) + "." + Reversed(a)
  {
    hide Reversed;
    BehindDotBack(a, b);
  }

  lemma ReversedOne(c: char)
    ensures Reversed([c]) == [c]
  {
    assert [c][1..] == [];
  }

  lemma MidMeans(r: seq<string>, a: T.Word, b: T.Word, s: string)
    ensures Match(r, Reversed(a + ".*." + b), Reversed(s)) <==>
              exists l :: '.' !in l && (s == l + "." + b || Under(s, a + "." + l + "." + b))
  {
    hide Match, Reversed, Under, Begins;
    var u, v, q := Reversed(b) + ".", Reversed(a), Reversed(s);
    ReversedPlain(a);
    ReversedPlain(b);
    Behind(a, "*." + b);
    Behind("*", b);
    ReversedOne('*');
    assert "*" + "." + b == "*." + b && a + "." + ("*." + b) == a + ".*." + b;
    assert u + "*" + "." + v == u + ("*." + v);
    StarPattern(r, u, v, q);
    forall l: string
      ensures '.' !in Reversed(l) <==> '.' !in l
      ensures q == u + Reversed(l) <==> s == l + "." + b
      ensures Begins(u + Reversed(l) + "." + v, q) <==> Under(s, a + "." + l + "." + b)
    {
      MidLabel(a, b, l, s);
    }
    if k :| '.' !in k && (q == u + k || Begins(u + k + "." + v, q)) {
      ReversedTwice(k);
      assert '.' !in Reversed(k);
    }
  }

  lemma MidLabel(a: string, b: string, l: string, s: string)
    ensures '.' !in Reversed(l) <==> '.' !in l
    ensures Reversed(s) == Reversed(b) + "." + Reversed(l) <==> s == l + "." + b
    ensures Begins(Reversed(b) + "." + Reversed(l) + "." + Reversed(a), Reversed(s))
       <==> Under(s, a + "." + l + "." + b)
  {
    hide Reversed, Under, Begins;
    SameMembers(l, '.');
    Behind(l, b);
    ReversedTwice(s);
    ReversedTwice(l + "." + b);
    Behind(a, l + "." + b);
    assert a + "." + (l + "." + b) == a + "." + l + "." + b;
    UnderIs(s, a + "." + l + "." + b);
  }

  lemma SameMembers(l: string, c: char)
    ensures c in Reversed(l) <==> c in l
  {
    hide Reversed;
    var r := Reversed(l);
    assert forall i | 0 <= i < |l| :: l[i] == r[|l| - 1 - i];
  }

  // --- what is left of a host ----------------------------------------------------------------------

  /** The first row that is for the host decides its level. */
  lemma {:induction false} LevelMeans(attrs: seq<string>, rows: seq<T.Row>, i: nat, s: string)
    requires (forall a | a in attrs :: '.' !in a) && i <= |rows|
    requires forall k | 0 <= k < i :: !Meant(attrs, rows[k], s)
    requires i < |rows| ==> Meant(attrs, rows[i], s)
    ensures Level(ReversedAll(attrs), T.EntriesOf(rows), Reversed(s)) == if i < |rows| then T.LevelIn(rows[i]) else 0
    decreases i
  {
    hide Match, Meant, Reversed;
    var es := T.EntriesOf(rows);
    if rows != [] {
      RowMeans(attrs, rows[0], s);
      if i > 0 {
        assert es[1..] == T.EntriesOf(rows[1..]);
        assert forall k | 0 <= k < i - 1 :: rows[1..][k] == rows[k + 1];
        LevelMeans(attrs, rows[1..], i - 1, s);
      }
    }
  }

  /** With a level the host becomes its last labels in lower case, that many of them, when it has
      more; the last character of the host is not counted as a dot. With no level, two labels. */
  lemma GenericMeans(rattrs: seq<string>, domlev: seq<Entry>, host: string, s: string, lev: nat)
    requires host != "" && s == Lower(host) && lev > 0
    requires var l := Level(rattrs, domlev, Reversed(s)); lev == if l == 0 then 2 else l
    ensures var g := Generic(rattrs, domlev, host);
            if Dots(s[..|s| - 1]) < lev then g == host
            else exists front: string :: s == front + "." + g && g != "" && Dots(g[..|g| - 1]) == lev - 1
  {
    hide Level, Lower, Reversed, Cut, Dots, CutOk;
    var r := Lower(Reversed(host));
    LowerReversed(host);
    ReversedTwice(r);
    var c := Cut(r[1..], lev);
    CutIs(r[1..], lev);
    GenericIs(rattrs, domlev, host, r, c);
    DotsFront(r, s);
    CutLeaves(r, s, c, lev);
  }

  lemma CutLeaves(r: string, s: string, c: string, lev: nat)
    requires r != "" && s == Reversed(r) && lev > 0 && CutOk(r[1..], lev, c)
    ensures |r| == |s| && Dots(s[..|s| - 1]) == Dots(r[1..]) && (1 + |c| == |r| <==> Dots(r[1..]) < lev)
    ensures var g := Reversed([r[0]] + c);
            1 + |c| != |r| ==> exists front: string :: s == front + "." + g && g != "" && Dots(g[..|g| - 1]) == lev - 1
  {
    hide Reversed, Dots;
    DotsFront(r, s);
    if 1 + |c| < |r| {
      SplitAtDot(r, c);
      var a, b := [r[0]] + c, r[|c| + 2..];
      BehindDot(a, b);
      assert s == Reversed(b) + "." + Reversed(a);
      DotsFront(a, Reversed(a));
      assert a[1..] == c;
    }
  }

  // The dots in front of the last character of a name are those behind the first of it reversed.
  lemma DotsFront(r: string, s: string)
    requires s == Reversed(r) && r != ""
    ensures s != "" && Dots(s[..|s| - 1]) == Dots(r[1..])
  {
    hide Dots;
    T.DotsReversed(r[1..]);
    assert s == Reversed(r[1..]) + [r[0]];
    assert s[..|s| - 1] == Reversed(r[1..]);
  }

  // --- the table of the program --------------------------------------------------------------------

  /** The attributes of the program. */
  const ATTRS: seq<string> :=
    ["ac", "ad", "co", "ed", "go", "gr", "or", "ne", "com", "edu", "gov", "org", "net"]

  // Names that differ in a character near their end.
  lemma NotUnder(s: string, x: string, n: nat)
    requires n < |s| && n < |x| && s[|s| - 1 - n] != x[|x| - 1 - n]
    ensures !Under(s, x)
  {
    forall f: string
      ensures s != f + "." + x
    {
      var t := f + "." + x;
      assert t[|t| - 1 - n] == x[|x| - 1 - n];
    }
  }

  lemma FirstRows()
    ensures |T.LEVELS| > 9 && T.LEVELS[..10] == T.ROWS_1[..10]
  {
    hide T.ROWS_2, T.ROWS_3, T.ROWS_4, T.ROWS_5, T.ROWS_6, T.ROWS_7, T.ROWS_8, T.ROWS_9;
    hide T.ROWS_10, T.ROWS_11, T.ROWS_12, T.ROWS_13;
  }

  lemma NoEarlier(k: nat)
    requires k < 9
    ensures |T.ROWS_1| > 9 && !Meant(ATTRS, T.ROWS_1[k], "www.foo.co.jp")
  {
    hide Under, ATTRS;
    var s := "www.foo.co.jp";
    NotUnder(s, "arin", 0);
    NotUnder(s, "apnic", 0);
    NotUnder(s, "afrinic", 0);
    NotUnder(s, "jpnic", 0);
    NotUnder(s, "lacnic", 0);
    NotUnder(s, "ripe", 0);
    var k1, k2, k3 := "kek.jp", "ntt.jp", "nttdata.jp";
    assert "kek" + "." + "jp" == k1 && "ntt" + "." + "jp" == k2 && "nttdata" + "." + "jp" == k3;
    NotUnder(s, k1, 3);
    NotUnder(s, k2, 3);
    NotUnder(s, k3, 3);
  }

  lemma CoRow()
    ensures |T.ROWS_1| > 9 && T.ROWS_1[9] == T.Attr(3, "jp") && Meant(ATTRS, T.ROWS_1[9], "www.foo.co.jp")
  {
    assert "www.foo" + "." + "co.jp" == "www.foo.co.jp" && "co" + "." + "jp" == "co.jp";
    assert ATTRS[2] == "co";
    assert Under("www.foo.co.jp", "co.jp");
  }

  lemma CompanyLevel()
    ensures Level(ReversedAll(ATTRS), T.EntriesOf(T.LEVELS), Reversed("www.foo.co.jp")) == 3
  {
    FirstRows();
    CoRow();
    AttrsPlain();
    hide Level, Meant, T.LEVELS, T.EntriesOf, ATTRS, T.ROWS_1, Reversed;
    var s := "www.foo.co.jp";
    forall k | 0 <= k < 9
      ensures !Meant(ATTRS, T.LEVELS[k], s)
    {
      NoEarlier(k);
      assert T.LEVELS[..10][k] == T.ROWS_1[..10][k];
    }
    assert T.LEVELS[..10][9] == T.ROWS_1[..10][9];
    LevelMeans(ATTRS, T.LEVELS, 9, s);
  }

  lemma AttrsPlain()
    ensures forall a | a in ATTRS :: '.' !in a
  {
  }

  lemma AlreadyLower(s: string)
    requires forall i | 0 <= i < |s| :: s[i] == '.' || 'a' <= s[i] <= 'z'
    ensures Lower(s) == s
  {
    hide Lower;
    assert forall i | 0 <= i < |s| :: Lower(s)[i] == LowerChar(s[i]);
  }

  lemma LabelDots(a: string, b: string)
    requires '.' !in a
    ensures Dots(a + "." + b) == 1 + Dots(b)
  {
    NoDots(a);
    DotsOf(a, b);
  }

  // The dots of "www.foo.co.j", and of its ends.
  lemma CompanyDots()
    ensures Dots("j") == 0 && Dots("co.j") == 1 && Dots("foo.co.j") == 2 && Dots("www.foo.co.j") == 3
  {
    hide Dots;
    NoDots("j");
    LabelDots("co", "j");
    LabelDots("foo", "co.j");
    LabelDots("www", "foo.co.j");
    assert "co" + "." + "j" == "co.j" && "foo" + "." + "co.j" == "foo.co.j";
    assert "www" + "." + "foo.co.j" == "www.foo.co.j";
  }

  lemma BehindSecond(front: string, g: string)
    requires "www.foo.co.jp" == front + "." + g && g != "" && Dots(g[..|g| - 1]) == 2
    ensures g == "foo.co.jp"
  {
    hide Dots;
    CompanyDots();
    var s, n := "www.foo.co.jp", |front|;
    assert s[n] == '.' && g == s[n + 1..];
    assert n == 3 || n == 7 || n == 10;
    assert s[8..] == "co.jp" && "co.jp"[..4] == "co.j";
    assert s[11..] == "jp" && "jp"[..1] == "j";
    assert s[4..] == "foo.co.jp";
  }

  /** "www.foo.co.jp" becomes "foo.co.jp": it is of an attribute in front of "jp". */
  lemma CompanyOfJapan()
    ensures Generic(ReversedAll(ATTRS), T.EntriesOf(T.LEVELS), "www.foo.co.jp") == "foo.co.jp"
  {
    hide Level, Generic, T.LEVELS, T.EntriesOf, ATTRS, Dots, Lower, Reversed;
    var s := "www.foo.co.jp";
    CompanyLevel();
    AlreadyLower(s);
    CompanyDots();
    assert s[..|s| - 1] == "www.foo.co.j";
    GenericMeans(ReversedAll(ATTRS), T.EntriesOf(T.LEVELS), s, s, 3);
    var g := Generic(ReversedAll(ATTRS), T.EntriesOf(T.LEVELS), s);
    var front: string :| s == front + "." + g && g != "" && Dots(g[..|g| - 1]) == 3 - 1;
    BehindSecond(front, g);
  }
}
