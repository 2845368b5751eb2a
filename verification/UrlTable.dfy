/** The table of URLs of delegate/src/url.cpp, rule by rule: the interpreter ends on it, and no
    abandoned alternative leaves anything in the output. */
module UrlTable {
  import opened Peg
  import opened SllAbandoned
  import opened SllGrammar
  import opened SllParser

  // --- the rules -------------------------------------------------------------------------------

  const DIGIT := "0123456789"
  const ALPHA := "abcdefghijklmnopqrstuvwxyz" + "ABCDEFGHIJKLMNOPQRSTUVWXYZ"
  const ALPHADIGIT := "abcdefghijklmnopqrstuvwxyz" + "ABCDEFGHIJKLMNOPQRSTUVWXYZ" + "0123456789"
  const ALNUM := "abcdefghijklmnopqrstuvwxyz" + "ABCDEFGHIJKLMNOPQRSTUVWXYZ" + "0123456789" + "-"
  const NALPHA := "abcdefghijklmnopqrstuvwxyz" + "ABCDEFGHIJKLMNOPQRSTUVWXYZ" + "0123456789" + "$-_.&+!*'();,"
  const XALPHA := "abcdefghijklmnopqrstuvwxyz" + "ABCDEFGHIJKLMNOPQRSTUVWXYZ" + "0123456789" + "$-_.&+!*'():;, %"
  const YALPHA := "abcdefghijklmnopqrstuvwxyz" + "ABCDEFGHIJKLMNOPQRSTUVWXYZ" + "0123456789" + "$-_@.&+!~*'():;, %"
  const URIC := "abcdefghijklmnopqrstuvwxyz" + "ABCDEFGHIJKLMNOPQRSTUVWXYZ" + "0123456789" + ";/?:@&=+$,-_.!~*'()%|"

  // The rules by number; URL and the extended form come last.
  const DIGITS1: nat := 0
  const DIGITS: nat := 1
  const ALPHAS: nat := 2
  const ALNUMS: nat := 3
  const NALPHAS: nat := 4
  const XALPHAS: nat := 5
  const YALPHAS: nat := 6
  const URICS: nat := 7
  const IALPHA: nat := 8
  const DOMLABEL2: nat := 9
  const DOMLABEL: nat := 10
  const HOSTNAME: nat := 11
  const HOSTNUMBER: nat := 12
  const HOST: nat := 13
  const PORT: nat := 14
  const HOSTPORT: nat := 15
  const USERPASS: nat := 16
  const LOGIN: nat := 17
  const PATH1: nat := 18
  const PATH: nat := 19
  const SEARCH: nat := 20
  const SELECTOR: nat := 21
  const GTYPE: nat := 22
  const GSELECTOR: nat := 23
  const FILEH: nat := 24
  const GROUP1: nat := 25
  const GROUPX: nat := 26
  const ARTICLE: nat := 27
  const GROUPART: nat := 28
  const DATABASE: nat := 29
  const HTTP: nat := 30
  const GOPHER: nat := 31
  const FTP: nat := 32
  const FILEP: nat := 33
  const NEWS: nat := 34
  const NNTP: nat := 35
  const WAIS: nat := 36
  const DATAS: nat := 37
  const FLAGS1: nat := 38
  const FLAGS2: nat := 39
  const FLAGS3: nat := 40
  const FLAGS4: nat := 41
  const FLAGS: nat := 42
  const URLX: nat := 43
  const URL: nat := 44

  function Row(name: string, gate: string, dest: Dest): Entry {
    Entry(name, gate, false, dest, false, false, false, false, false)
  }

  function Opt(name: string, gate: string, dest: Dest): Entry {
    Entry(name, gate, false, dest, true, false, false, false, false)
  }

  function Val(name: string, gate: string, dest: Dest): Entry {
    Entry(name, gate, false, dest, false, false, true, false, false)
  }

  function OptVal(name: string, gate: string, dest: Dest): Entry {
    Entry(name, gate, false, dest, true, false, true, false, false)
  }

  function Set(name: string, gate: string, dest: Dest): Entry {
    Entry(name, gate, false, dest, false, true, false, false, false)
  }

  function Otherwise(name: string, dest: Dest): Entry {
    Entry(name, "", true, dest, false, false, false, false, false)
  }

  function Proto(gate: string, dest: Dest): Entry {
    Entry("proto", gate, false, dest, false, false, false, true, true)
  }

  // Rules for runs of characters.
  const CHARACTER_RULES: Grammar := [
    Rule(Alt, [Set("digit", DIGIT, Recurse(DIGITS1)), Row("nondigit", "", Success)]),  // DIGITS1
    Rule(Alt, [Set("digit", DIGIT, Recurse(DIGITS1))]),  // DIGITS
    Rule(Seq, [Set("alpha", ALPHA, Next), Opt("alpha", "", Recurse(ALPHAS))]),  // ALPHAS
    Rule(Seq, [Set("alnum", ALNUM, Next), Opt("alnum", "", Recurse(ALNUMS))]),  // ALNUMS
    Rule(Seq, [Set("nalpha", NALPHA, Next), Opt("nalpha", "", Recurse(NALPHAS))]),  // NALPHAS
    Rule(Seq, [Set("xalpha", XALPHA, Next), Opt("xalpha", "", Recurse(XALPHAS))]),  // XALPHAS
    Rule(Seq, [Set("yalpha", YALPHA, Next), Opt("yalpha", "", Recurse(YALPHAS))]),  // YALPHAS
    Rule(Seq, [Set("uric", URIC, Next), Opt("uric", "", Recurse(URICS))]),  // URICS
    Rule(Seq, [Set("alpha", ALPHA, Next), Opt("xalphas", "", Recurse(NALPHAS))])]  // IALPHA

  // Rules for hosts, ports and logins.
  const HOST_RULES: Grammar := [
    Rule(Alt, [  // DOMLABEL2
      Set("alphadigit", ALPHADIGIT, Recurse(DOMLABEL2)), Row("hyphen", "-", Recurse(DOMLABEL)),
      Otherwise("terminate", Success)]),
    Rule(Seq, [Set("alphadigit", ALPHADIGIT, Recurse(DOMLABEL2))]),  // DOMLABEL
    Rule(Seq, [Row("name", "", Recurse(DOMLABEL)), Opt("name", ".", Recurse(HOSTNAME))]),  // HOSTNAME
    Rule(Seq, [  // HOSTNUMBER
      Row("num1", "", Recurse(DIGITS)), Row("num2", ".", Recurse(DIGITS)), Row("num3", ".", Recurse(DIGITS)),
      Row("num4", ".", Recurse(DIGITS))]),
    Rule(Alt, [Row("number", "", Recurse(HOSTNUMBER)), Row("name", "", Recurse(HOSTNAME))]),  // HOST
    Rule(Seq, [Row("number", "", Recurse(DIGITS))]),  // PORT
    Rule(Seq, [Val("host", "", Recurse(HOST)), OptVal("port", ":", Recurse(PORT))]),  // HOSTPORT
    Rule(Seq, [  // USERPASS
      Val("user", "", Recurse(XALPHAS)), OptVal("pass", ":", Recurse(XALPHAS)), Row("@", "@", Success)]),
    Rule(Seq, [OptVal("userpass", "", Recurse(USERPASS)), Val("hostport", "", Recurse(HOSTPORT))])]  // LOGIN

  // Rules for what is behind them.
  const PATH_RULES: Grammar := [
    Rule(Seq, [Opt("name", "", Recurse(YALPHAS)), Opt("dir", "/", Recurse(PATH))]),  // PATH1
    Rule(Alt, [Row("path", "", Recurse(PATH1)), Row("nullpath", "", Success)]),  // PATH
    Rule(Seq, [Opt("search", "", Recurse(URICS))]),  // SEARCH
    Rule(Alt, [Row("selector", "", Recurse(PATH))]),  // SELECTOR
    Rule(Alt, [Set("gtype", DIGIT, Success), Row("nullgtype", "", Success)]),  // GTYPE
    Rule(Seq, [Val("gtype", "", Recurse(GTYPE)), OptVal("selector", "", Recurse(SELECTOR))]),  // GSELECTOR
    Rule(Seq, [OptVal("host", "", Recurse(HOSTPORT)), OptVal("path", "/", Recurse(PATH))]),  // FILEH
    Rule(Alt, [Row("name", ".", Recurse(GROUP1)), Row("name", "", Success)]),  // GROUP1
    Rule(Seq, [Row("name", "", Recurse(IALPHA)), Opt("name", "", Recurse(GROUP1))]),  // GROUPX
    Rule(Seq, [Row("serial", "", Recurse(XALPHAS)), Row("domain", "@", Recurse(HOST))]),  // ARTICLE
    Rule(Alt, [Val("group", "", Recurse(GROUPX)), Val("article", "", Recurse(ARTICLE))]),  // GROUPART
    Rule(Seq, [Row("database", "", Recurse(XALPHAS))])]  // DATABASE

  // Rules for the protocols.
  const PROTOCOL_RULES: Grammar := [
    Rule(Seq, [  // HTTP
      Row("://", "://", Next), OptVal("hostport", "", Recurse(HOSTPORT)), OptVal("path", "/", Recurse(PATH)),
      OptVal("search", "?", Recurse(SEARCH))]),
    Rule(Seq, [  // GOPHER
      Row("//", "://", Next), Val("hostport", "", Recurse(HOSTPORT)), OptVal("path", "/", Recurse(GSELECTOR)),
      OptVal("search", "?", Recurse(SEARCH))]),
    Rule(Seq, [Val("login", "://", Recurse(LOGIN)), OptVal("path", "/", Recurse(PATH))]),  // FTP
    Rule(Alt, [Row("file", "://", Recurse(FILEH)), Val("path", ":", Recurse(PATH))]),  // FILEP
    Rule(Seq, [Val("groupart", ":", Recurse(GROUPART))]),  // NEWS
    Rule(Seq, [  // NNTP
      Val("hostport", "://", Recurse(HOSTPORT)), Val("group", "/", Recurse(GROUPX)),
      OptVal("search", "?", Recurse(SEARCH))]),
    Rule(Seq, [  // WAIS
      Val("hostport", "://", Recurse(HOSTPORT)), Val("database", "/", Recurse(DATABASE)),
      OptVal("search", "?", Recurse(SEARCH))]),
    Rule(Seq, [Row("typemaj", ":", Success)])]  // DATAS

  // Rules for the extended form.
  const EXTENDED_RULES: Grammar := [
    Rule(Seq, [Row("flags", "=", Recurse(ALPHAS)), Row("eoflags", "=", Success)]),  // FLAGS1
    Rule(Seq, [Row("flags", "+", Recurse(ALPHAS)), Row("eoflags", "=", Success)]),  // FLAGS2
    Rule(Seq, [Row("flags", "(", Recurse(ALPHAS)), Row("eoflags", ")", Success)]),  // FLAGS3
    Rule(Seq, [Row("flags", "@", Recurse(ALPHAS)), Row("eoflags", "@", Success)]),  // FLAGS4
    Rule(Alt, [  // FLAGS
      Row("f1", "", Recurse(FLAGS1)), Row("f2", "", Recurse(FLAGS2)), Row("f3", "", Recurse(FLAGS3)),
      Row("f4", "", Recurse(FLAGS4))]),
    Rule(Seq, [  // URLX
      OptVal("xflags", "", Recurse(FLAGS)), OptVal("xproto", "", Recurse(ALPHAS)),
      Val("xhostport", ":", Recurse(HOSTPORT)), OptVal("xgtype", "=", Recurse(DIGITS))])]

  const URL_RULE: Rule :=
    Rule(Alt, [  // URL
      Proto("https", Recurse(HTTP)), Proto("http", Recurse(HTTP)), Proto("gopher", Recurse(GOPHER)),
      Proto("ftp", Recurse(FTP)), Proto("sftp", Recurse(FTP)), Proto("file", Recurse(FILEP)),
      Proto("news", Recurse(NEWS)), Proto("nntp", Recurse(NNTP)), Proto("wais", Recurse(WAIS)),
      Proto("data", Recurse(DATAS))])

  const URL_TABLE: Grammar :=
    CHARACTER_RULES + HOST_RULES + PATH_RULES + PROTOCOL_RULES + EXTENDED_RULES + [URL_RULE]

  // A rule may go to an earlier one without reading.
  const URL_ORDER: Order := Order(seq(URL + 1, i => i), seq(URL + 1, i => false))

  // --- its shape -------------------------------------------------------------------------------

  /** A row of rule i that recurses has read something or goes to an earlier rule, and has no
      PUTGATE; none goes to URL. */
  predicate RuleFits(i: nat, r: Rule) {
    forall k | 0 <= k < |r.entries| && r.entries[k].dest.Recurse? ::
      && r.entries[k].dest.rule < URL && !r.entries[k].putgate
      && (Guarded([], r, k) || r.entries[k].dest.rule < i)
  }

  // The rules fit, from number n on.
  predicate Fit(n: nat, rules: Grammar) { forall j | 0 <= j < |rules| :: RuleFits(n + j, rules[j]) }

  lemma FitBoth(n: nat, a: Grammar, b: Grammar)
    requires Fit(n, a) && Fit(n + |a|, b)
    ensures Fit(n, a + b)
  {
    hide RuleFits;
    forall j | 0 <= j < |a + b|
      ensures RuleFits(n + j, (a + b)[j])
    {
      if j >= |a| { assert RuleFits(n + |a| + (j - |a|), b[j - |a|]); }
    }
  }

  lemma CharacterRules()
    ensures Fit(0, CHARACTER_RULES) && |CHARACTER_RULES| == 9
  {
  }

  lemma HostRules()
    ensures Fit(9, HOST_RULES) && |HOST_RULES| == 9
  {
  }

  lemma PathRules()
    ensures Fit(18, PATH_RULES) && |PATH_RULES| == 12
  {
  }

  lemma ProtocolRules()
    ensures Fit(30, PROTOCOL_RULES) && |PROTOCOL_RULES| == 8
  {
  }

  lemma ExtendedRules()
    ensures Fit(38, EXTENDED_RULES) && |EXTENDED_RULES| == 6
  {
  }

  const OTHER_RULES: Grammar := CHARACTER_RULES + HOST_RULES + PATH_RULES + PROTOCOL_RULES + EXTENDED_RULES

  lemma OtherRules()
    ensures Fit(0, OTHER_RULES) && |OTHER_RULES| == URL && URL_TABLE == OTHER_RULES + [URL_RULE]
  {
    CharacterRules();
    HostRules();
    PathRules();
    ProtocolRules();
    ExtendedRules();
    hide RuleFits, Fit, CHARACTER_RULES, HOST_RULES, PATH_RULES, PROTOCOL_RULES, EXTENDED_RULES, URL_RULE;
    FitBoth(0, CHARACTER_RULES, HOST_RULES);
    FitBoth(0, CHARACTER_RULES + HOST_RULES, PATH_RULES);
    FitBoth(0, CHARACTER_RULES + HOST_RULES + PATH_RULES, PROTOCOL_RULES);
    FitBoth(0, CHARACTER_RULES + HOST_RULES + PATH_RULES + PROTOCOL_RULES, EXTENDED_RULES);
  }

  // What has been read counts whatever else is known of the rules.
  lemma {:induction false} HasReadMore(eats: seq<bool>, r: Rule, k: nat)
    requires k <= |r.entries| && HasRead([], r, k)
    ensures HasRead(eats, r, k)
  {
    if !MustRead([], r, k - 1) { HasReadMore(eats, r, k - 1); }
  }

  lemma GuardedMore(eats: seq<bool>, r: Rule, k: nat)
    requires k < |r.entries| && Guarded([], r, k)
    ensures Guarded(eats, r, k)
  {
    if GateLen(r.entries[k]) == 0 { HasReadMore(eats, r, k); }
  }

  // The rows of URL.
  lemma UrlRows()
    ensures URL_RULE.kind.Alt? && |URL_RULE.entries| == |PROTOCOLS| && GatesOf(URL_RULE.entries) == PROTOCOLS
    ensures forall k | 0 <= k < |PROTOCOLS| ::
              var e := URL_RULE.entries[k];
              && e.dest.Recurse? && HTTP <= e.dest.rule <= DATAS && !e.charset && !e.otherwise && GateLen(e) > 0
  {
    UrlGates();
    hide GatesOf;
  }

  lemma UrlGates()
    ensures GatesOf(URL_RULE.entries) == PROTOCOLS
  {
  }

  // Every rule of a protocol begins with ":".
  lemma ProtocolOpens(j: nat)
    requires HTTP <= j <= DATAS
    ensures URL_TABLE[j] == PROTOCOL_RULES[j - HTTP] && OpensWith(PROTOCOL_RULES[j - HTTP], ':')
  {
    CharacterRules();
    HostRules();
    PathRules();
    ProtocolRules();
    AllOpen();
    hide RuleFits;
  }

  lemma AllOpen()
    ensures |PROTOCOL_RULES| == 8 && forall j | 0 <= j < 8 :: OpensWith(PROTOCOL_RULES[j], ':')
  {
  }

  // --- the protocol names ----------------------------------------------------------------------

  const PROTOCOLS: seq<string> :=
    ["https", "http", "gopher", "ftp", "sftp", "file", "news", "nntp", "wais", "data"]

  lemma ProtocolsApart()
    ensures GatesApart(PROTOCOLS, ':')
  {
    forall m, k | 0 <= m < k < |PROTOCOLS|
      ensures Apart(PROTOCOLS[m], PROTOCOLS[k], ':')
    {
      OnePair(PROTOCOLS[m], PROTOCOLS[k], m, k);
    }
  }

  lemma OnePair(a: string, b: string, m: nat, k: nat)
    requires m < k < |PROTOCOLS| && a == PROTOCOLS[m] && b == PROTOCOLS[k]
    ensures Apart(a, b, ':')
  {
    if m == 0 && k == 1 {
      HeadsEqual("s", "", "http");
    } else if a[0] == b[0] {
      assert a[1] != b[1] && a[1..][0] == a[1] && b[1..][0] == b[1];
    }
  }

  // Texts with the same beginning are apart when their rests are.
  lemma {:induction false} HeadsEqual(a: string, b: string, p: string)
    requires Apart(a, b, ':')
    ensures Apart(p + a, p + b, ':')
  {
    if p == "" {
      assert p + a == a && p + b == b;
    } else {
      HeadsEqual(a, b, p[1..]);
      assert (p + a)[1..] == p[1..] + a && (p + b)[1..] == p[1..] + b;
    }
  }

  // --- the table -------------------------------------------------------------------------------

  /** The interpreter ends on the table, from any of its rules and on any source. */
  lemma TableRanked()
    ensures |URL_TABLE| == URL + 1 && Ranked(URL_TABLE, URL_ORDER)
  {
    OtherRules();
    UrlRows();
    hide OTHER_RULES;
    var g := URL_TABLE;
    forall i, k | 0 <= i < |g| && 0 <= k < |g[i].entries| && g[i].entries[k].dest.Recurse?
      ensures g[i].entries[k].dest.rule < |g|
      ensures Guarded(URL_ORDER.eats, g[i], k) || URL_ORDER.of[g[i].entries[k].dest.rule] < URL_ORDER.of[i]
    {
      if i < URL {
        assert RuleFits(0 + i, OTHER_RULES[i]);
        if Guarded([], g[i], k) { GuardedMore(URL_ORDER.eats, g[i], k); }
      }
    }
  }

  /** The rule of URLs is a choice of protocol names, each with a rule behind it that begins with
      ":", and it is the only one with PUTGATE. */
  lemma TableShaped()
    ensures UrlShaped(URL_TABLE, URL, ':')
  {
    OtherRules();
    UrlRows();
    ProtocolsApart();
    hide OTHER_RULES;
    var g := URL_TABLE;
    forall i, k | 0 <= i < |g| && i != URL && 0 <= k < |g[i].entries| && g[i].entries[k].dest.Recurse?
      ensures !g[i].entries[k].putgate && g[i].entries[k].dest.rule != URL
    {
      assert RuleFits(0 + i, OTHER_RULES[i]);
    }
    forall k | 0 <= k < |PROTOCOLS|
      ensures OpensWith(g[URL_RULE.entries[k].dest.rule], ':')
    {
      ProtocolOpens(URL_RULE.entries[k].dest.rule);
    }
  }

  /** Whatever URL is scanned into whatever room, nothing that an abandoned protocol has put is
      left: "http" on "https", or "https" on "httpsx", or a name that has no more behind it. */
  lemma ScanUrl(src: string, room: int, put: bool, o: Outcome)
    ensures Ranked(URL_TABLE, URL_ORDER)
    ensures Derivable(RulesOf(URL_TABLE, put, false), Call(URL), src, room, o) <==>
              o == AsOutcome(Parse(URL_TABLE, URL_ORDER, URL, src, room, put, true))
  {
    TableRanked();
    TableShaped();
    hide *;
    UrlLike(URL_TABLE, URL_ORDER, URL, ':', src, room, put, o);
  }

  /** The same of every other rule of the table, and so of the extended form. */
  lemma ScanRule(i: nat, src: string, room: int, put: bool, o: Outcome)
    requires i < URL
    ensures Ranked(URL_TABLE, URL_ORDER) && i < |URL_TABLE|
    ensures Derivable(RulesOf(URL_TABLE, put, false), Call(i), src, room, o) <==>
              o == AsOutcome(Parse(URL_TABLE, URL_ORDER, i, src, room, put, true))
  {
    TableRanked();
    TableShaped();
    ShapedQuiet(URL_TABLE, URL);
    hide *;
    QuietRun(URL_TABLE, URL_ORDER, URL, i, src, room, put);
    NothingPassedDerived(URL_TABLE, URL_ORDER, i, src, room, put, o);
  }

  lemma ShapedQuiet(g: Grammar, u: nat)
    requires UrlShaped(g, u, ':')
    ensures QuietOutside(g, u)
  {
  }
}
