/** A URL through the table of the program, with the text that it puts. */
module UrlScan {
  import opened Peg
  import opened SllGrammar
  import opened SllParser
  import opened UrlTable

  // --- one row at a time -----------------------------------------------------------------------

  // The loop of rule i stands at row k, with `matched` and `src` as they are there.
  datatype Place = Place(i: nat, k: nat, matched: bool, src0: string, src: string, room: int)

  ghost predicate Stands(g: Grammar, rank: Order, p: Place) {
    Ranked(g, rank) && At(g, rank, p.i, p.k, p.src0, p.src)
  }

  ghost function Run(g: Grammar, rank: Order, p: Place): Result
    requires Stands(g, rank, p)
  {
    From(g, rank, p.i, p.k, p.matched, p.src0, p.src, p.room, true, true)
  }

  // The row that p stands at.
  ghost predicate AtRow(g: Grammar, rank: Order, p: Place, kind: Kind, e: Entry) {
    Stands(g, rank, p) && p.k < |g[p.i].entries| && g[p.i].kind == kind && g[p.i].entries[p.k] == e
  }

  lemma Enter(g: Grammar, rank: Order, i: nat, src: string, room: int)
    requires Ranked(g, rank) && i < |g|
    ensures Stands(g, rank, Place(i, 0, false, src, src, room))
    ensures Parse(g, rank, i, src, room, true, true) == Run(g, rank, Place(i, 0, false, src, src, room))
  {
  }

  // The gate does not match.
  lemma Skips(g: Grammar, rank: Order, p: Place, kind: Kind, e: Entry)
    requires AtRow(g, rank, p, kind, e) && !Matches(kind, e, p.matched, p.src)
    ensures kind.Seq? && !e.optional ==> Run(g, rank, p) == No
    ensures kind.Alt? || e.optional ==>
              Stands(g, rank, p.(k := p.k + 1)) && Run(g, rank, p) == Run(g, rank, p.(k := p.k + 1))
  {
    hide Matches, GateText;
  }

  // The gate matches, and the row succeeds.
  lemma Wins(g: Grammar, rank: Order, p: Place, kind: Kind, e: Entry)
    requires AtRow(g, rank, p, kind, e) && Matches(kind, e, p.matched, p.src) && e.dest.Success?
    ensures Run(g, rank, p) == Ok(p.src[GateLen(e)..], GateText(e, true))
  {
    hide Matches, GateText;
  }

  // The gate matches, and the next row is looked at.
  lemma Passes(g: Grammar, rank: Order, p: Place, kind: Kind, e: Entry)
    requires AtRow(g, rank, p, kind, e) && Matches(kind, e, p.matched, p.src) && e.dest.Next? && !e.putgate
    ensures GateLen(e) <= |p.src|
    ensures var q := p.(k := p.k + 1, matched := p.matched || GateLen(e) > 0, src := p.src[GateLen(e)..]);
            Stands(g, rank, q) && Run(g, rank, p) == Run(g, rank, q)
  {
    var q := p.(k := p.k + 1, matched := p.matched || GateLen(e) > 0, src := p.src[GateLen(e)..]);
    AtNext(g, rank, p.i, p.k, p.src0, p.src, q.src);
    AfterNothing(Run(g, rank, q));
  }

  // There are no more rows.
  lemma Over(g: Grammar, rank: Order, p: Place)
    requires Stands(g, rank, p) && p.k == |g[p.i].entries|
    ensures Run(g, rank, p) == if g[p.i].kind.Alt? then No else Ok(p.src, "")
  {
  }

  // The rule of a row succeeds: a text of the gate, what the rule puts, and what it has read.
  lemma Calls(g: Grammar, rank: Order, p: Place, kind: Kind, e: Entry, rest: string, o: string)
    requires AtRow(g, rank, p, kind, e) && Matches(kind, e, p.matched, p.src) && e.dest.Recurse?
    requires GateLen(e) <= |p.src| && e.dest.rule < |g|
    requires Parse(g, rank, e.dest.rule, p.src[GateLen(e)..], p.room - |GateText(e, true)|, true, true) == Ok(rest, o)
    requires |p.src| - GateLen(e) - |rest| < p.room - |GateText(e, true)|
    ensures |rest| <= |p.src| - GateLen(e)
    ensures var val := p.src[GateLen(e)..|p.src| - |rest|];
            var text := GateText(e, true) + (if e.putval then o + PutVal(e.name, val) else o);
            if kind.Alt? then Run(g, rank, p) == Ok(rest, text)
            else
              var q := p.(k := p.k + 1, matched := p.matched || GateLen(e) > 0, src := rest, room := p.room - |text|);
              Stands(g, rank, q) && Run(g, rank, p) == After(text, Run(g, rank, q))
  {
    hide GateText, PutVal, Parse, From, Ranked, BodyOutcome, Matches;
    var n := GateLen(e);
    CallLowers(g, rank, p.i, p.k, p.matched, p.src0, p.src);
    FromRecurse(g, rank, p.i, p.k, p.matched, p.src0, p.src, p.room, true, true);
    CallOutcome(e, p.src, p.room, rest, o);
    assert MustRead(rank.eats, g[p.i], p.k) ==> |rest| < |p.src|;
    AtNext(g, rank, p.i, p.k, p.src0, p.src, rest);
  }

  lemma CallOutcome(e: Entry, src: string, room: int, rest: string, o: string)
    requires GateLen(e) <= |src| && |rest| <= |src| - GateLen(e) < room - |GateText(e, true)| + |rest|
    ensures BodyOutcome(e, true, src[GateLen(e)..], room, Ok(rest, o)) ==
            Done(rest, GateText(e, true)
                       + (if e.putval then o + PutVal(e.name, src[GateLen(e)..|src| - |rest|]) else o))
  {
    hide GateText, PutVal;
    var n := GateLen(e);
    assert src[n..][..|src| - n - |rest|] == src[n..|src| - |rest|];
  }

  /** The rule of a row succeeds and what it has read is to be put: the row fails just when the
      room left is not more than its length. */
  lemma CallsFull(g: Grammar, rank: Order, p: Place, e: Entry, rest: string, o: string)
    requires AtRow(g, rank, p, Alt, e) && Matches(Alt, e, p.matched, p.src) && e.dest.Recurse?
    requires GateLen(e) <= |p.src| && e.dest.rule < |g| && e.putval
    requires Parse(g, rank, e.dest.rule, p.src[GateLen(e)..], p.room - |GateText(e, true)|, true, true) == Ok(rest, o)
    ensures |rest| <= |p.src| - GateLen(e)
    ensures Run(g, rank, p) == No <==> p.room - |GateText(e, true)| <= |p.src| - GateLen(e) - |rest|
  {
    hide GateText, PutVal, Parse;
    CallLowers(g, rank, p.i, p.k, p.matched, p.src0, p.src);
    FromRecurse(g, rank, p.i, p.k, p.matched, p.src0, p.src, p.room, true, true);
  }

  // The rule of a row fails, and the next row is looked at.
  lemma CallsInVain(g: Grammar, rank: Order, p: Place, kind: Kind, e: Entry)
    requires AtRow(g, rank, p, kind, e) && Matches(kind, e, p.matched, p.src) && e.dest.Recurse? && !e.putgate
    requires GateLen(e) == 0 && e.dest.rule < |g|
    requires Parse(g, rank, e.dest.rule, p.src, p.room, true, true) == No
    ensures kind.Seq? && !e.optional ==> Run(g, rank, p) == No
    ensures kind.Alt? || e.optional ==>
              Stands(g, rank, p.(k := p.k + 1)) && Run(g, rank, p) == Run(g, rank, p.(k := p.k + 1))
  {
    hide Parse, PutVal;
    assert p.src[0..] == p.src;
    FromRecurse(g, rank, p.i, p.k, p.matched, p.src0, p.src, p.room, true, true);
    if kind.Alt? || e.optional {
      AtNext(g, rank, p.i, p.k, p.src0, p.src, p.src);
      AfterNothing(Run(g, rank, p.(k := p.k + 1)));
    }
  }

  // --- one rule at a time ----------------------------------------------------------------------

  ghost predicate Scans(g: Grammar, rank: Order, i: nat, src: string, room: int, r: Result) {
    Ranked(g, rank) && i < |g| && Parse(g, rank, i, src, room, true, true) == r
  }

  // A rule of one set of characters, on a source that begins with none of them.
  lemma NoDigits(g: Grammar, rank: Order, i: nat, src: string, room: int)
    requires Ranked(g, rank) && i < |g| && g[i] == Rule(Alt, [Set("digit", DIGIT, Recurse(DIGITS1))])
    requires src == "" || src[0] !in DIGIT
    ensures Scans(g, rank, i, src, room, No)
  {
    hide Parse, From;
    var p := Place(i, 0, false, src, src, room);
    Enter(g, rank, i, src, room);
    Skips(g, rank, p, Alt, Set("digit", DIGIT, Recurse(DIGITS1)));
    Over(g, rank, p.(k := 1));
  }

  lemma NoNumber(g: Grammar, rank: Order, i: nat, src: string, room: int)
    requires Ranked(g, rank) && i < |g| && g[i].kind.Seq? && |g[i].entries| > 0
    requires g[i].entries[0] == UrlTable.Row("num1", "", Recurse(DIGITS)) && Scans(g, rank, DIGITS, src, room, No)
    ensures Scans(g, rank, i, src, room, No)
  {
    hide Parse, From;
    var p := Place(i, 0, false, src, src, room);
    Enter(g, rank, i, src, room);
    CallsInVain(g, rank, p, Seq, UrlTable.Row("num1", "", Recurse(DIGITS)));
  }

  // Behind the last letter of a label.
  lemma LabelEnds(g: Grammar, rank: Order, i: nat, src: string, room: int)
    requires Ranked(g, rank) && i < |g| && src != "" && src[0] !in ALPHADIGIT && src[0] != '-'
    requires g[i] == Rule(Alt, [
      Set("alphadigit", ALPHADIGIT, Recurse(DOMLABEL2)), UrlTable.Row("hyphen", "-", Recurse(DOMLABEL)),
      Otherwise("terminate", Success)])
    ensures Scans(g, rank, i, src, room, Ok(src, ""))
  {
    hide Parse, From, ALPHADIGIT;
    var p := Place(i, 0, false, src, src, room);
    Enter(g, rank, i, src, room);
    Skips(g, rank, p, Alt, Set("alphadigit", ALPHADIGIT, Recurse(DOMLABEL2)));
    assert src[..1][0] == src[0];
    Skips(g, rank, p.(k := 1), Alt, UrlTable.Row("hyphen", "-", Recurse(DOMLABEL)));
    Wins(g, rank, p.(k := 2), Alt, Otherwise("terminate", Success));
    assert src[0..] == src;
  }

  // A label of one letter.
  lemma OneLetter(g: Grammar, rank: Order, i: nat, c: char, src: string, room: int)
    requires Ranked(g, rank) && i < |g| && c in ALPHADIGIT && 0 < room
    requires g[i] == Rule(Seq, [Set("alphadigit", ALPHADIGIT, Recurse(DOMLABEL2))])
    requires Scans(g, rank, DOMLABEL2, src, room, Ok(src, ""))
    ensures Scans(g, rank, i, [c] + src, room, Ok(src, ""))
  {
    hide Parse, From, ALPHADIGIT;
    var s, e := [c] + src, Set("alphadigit", ALPHADIGIT, Recurse(DOMLABEL2));
    var p := Place(i, 0, false, s, s, room);
    Enter(g, rank, i, s, room);
    assert s[1..] == src;
    Calls(g, rank, p, Seq, e, src, "");
    Over(g, rank, Place(i, 1, true, s, src, room));
  }

  // A name of one label.
  lemma OneLabel(g: Grammar, rank: Order, i: nat, s: string, src: string, room: int)
    requires Ranked(g, rank) && i < |g| && src != "" && src[0] != '.' && |s| < room
    requires g[i] == Rule(Seq, [UrlTable.Row("name", "", Recurse(DOMLABEL)), Opt("name", ".", Recurse(HOSTNAME))])
    requires Scans(g, rank, DOMLABEL, s, room, Ok(src, ""))
    ensures Scans(g, rank, i, s, room, Ok(src, ""))
  {
    hide Parse, From;
    var p := Place(i, 0, false, s, s, room);
    Enter(g, rank, i, s, room);
    assert s[0..] == s;
    Calls(g, rank, p, Seq, UrlTable.Row("name", "", Recurse(DOMLABEL)), src, "");
    var q := Place(i, 1, false, s, src, room);
    assert src[..1][0] == src[0];
    Skips(g, rank, q, Seq, Opt("name", ".", Recurse(HOSTNAME)));
    Over(g, rank, q.(k := 2));
  }

  // A host that is no number.
  lemma HostName(g: Grammar, rank: Order, i: nat, s: string, src: string, room: int)
    requires Ranked(g, rank) && i < |g| && |s| < room
    requires g[i] == Rule(Alt, [UrlTable.Row("number", "", Recurse(HOSTNUMBER)),
                                UrlTable.Row("name", "", Recurse(HOSTNAME))])
    requires Scans(g, rank, HOSTNUMBER, s, room, No) && Scans(g, rank, HOSTNAME, s, room, Ok(src, ""))
    ensures Scans(g, rank, i, s, room, Ok(src, ""))
  {
    hide Parse, From;
    var p := Place(i, 0, false, s, s, room);
    Enter(g, rank, i, s, room);
    assert s[0..] == s;
    CallsInVain(g, rank, p, Alt, UrlTable.Row("number", "", Recurse(HOSTNUMBER)));
    Calls(g, rank, p.(k := 1), Alt, UrlTable.Row("name", "", Recurse(HOSTNAME)), src, "");
  }

  // A host without a port.
  lemma HostOnly(g: Grammar, rank: Order, i: nat, s: string, src: string, room: int)
    requires Ranked(g, rank) && i < |g| && src != "" && src[0] != ':' && |src| <= |s| < room
    requires g[i] == Rule(Seq, [Val("host", "", Recurse(HOST)), OptVal("port", ":", Recurse(PORT))])
    requires Scans(g, rank, HOST, s, room, Ok(src, ""))
    ensures Scans(g, rank, i, s, room, Ok(src, "host=" + s[..|s| - |src|] + "\n"))
  {
    hide Parse, From;
    var p := Place(i, 0, false, s, s, room);
    Enter(g, rank, i, s, room);
    assert s[0..] == s;
    Calls(g, rank, p, Seq, Val("host", "", Recurse(HOST)), src, "");
    var val := s[0..|s| - |src|];
    var text := "host=" + s[..|s| - |src|] + "\n";
    assert val == s[..|s| - |src|] && "" + ("" + PutVal("host", val)) == text;
    var q := Place(i, 1, false, s, src, room - |text|);
    assert src[..1][0] == src[0];
    Skips(g, rank, q, Seq, OptVal("port", ":", Recurse(PORT)));
    Over(g, rank, q.(k := 2));
    assert text + "" == text;
  }

  lemma NoLetters(g: Grammar, rank: Order, i: nat, room: int)
    requires Ranked(g, rank) && i < |g|
    requires g[i] == Rule(Seq, [Set("yalpha", YALPHA, Next), Opt("yalpha", "", Recurse(YALPHAS))])
    ensures Scans(g, rank, i, "", room, No)
  {
    hide Parse, From, YALPHA;
    Enter(g, rank, i, "", room);
    Skips(g, rank, Place(i, 0, false, "", "", room), Seq, Set("yalpha", YALPHA, Next));
  }

  lemma NoName(g: Grammar, rank: Order, i: nat, room: int)
    requires Ranked(g, rank) && i < |g|
    requires g[i] == Rule(Seq, [Opt("name", "", Recurse(YALPHAS)), Opt("dir", "/", Recurse(PATH))])
    requires Scans(g, rank, YALPHAS, "", room, No)
    ensures Scans(g, rank, i, "", room, Ok("", ""))
  {
    hide Parse, From;
    var p := Place(i, 0, false, "", "", room);
    Enter(g, rank, i, "", room);
    CallsInVain(g, rank, p, Seq, Opt("name", "", Recurse(YALPHAS)));
    Skips(g, rank, p.(k := 1), Seq, Opt("dir", "/", Recurse(PATH)));
    Over(g, rank, p.(k := 2));
  }

  lemma NoPath(g: Grammar, rank: Order, i: nat, room: int)
    requires Ranked(g, rank) && i < |g| && 0 < room
    requires g[i] == Rule(Alt, [UrlTable.Row("path", "", Recurse(PATH1)), UrlTable.Row("nullpath", "", Success)])
    requires Scans(g, rank, PATH1, "", room, Ok("", ""))
    ensures Scans(g, rank, i, "", room, Ok("", ""))
  {
    hide Parse, From;
    Enter(g, rank, i, "", room);
    Calls(g, rank, Place(i, 0, false, "", "", room), Alt, UrlTable.Row("path", "", Recurse(PATH1)), "", "");
  }

  const HTTP_RULE: Rule := Rule(Seq, [
    UrlTable.Row("://", "://", Next), OptVal("hostport", "", Recurse(HOSTPORT)),
    OptVal("path", "/", Recurse(PATH)), OptVal("search", "?", Recurse(SEARCH))])

  // What is behind "http": a host, and "/".
  lemma HostSlash(g: Grammar, rank: Order, i: nat, host: string, out: string, room: int)
    requires Ranked(g, rank) && i < |g| && g[i] == HTTP_RULE && 2 * |host| + |out| + 20 < room
    requires Scans(g, rank, HOSTPORT, host + "/", room, Ok("/", out))
    requires Scans(g, rank, PATH, "", room - |out| - |host| - 10, Ok("", ""))
    ensures Scans(g, rank, i, "://" + (host + "/"), room, Ok("", out + ("hostport=" + host + "\n") + "path=\n"))
  {
    hide Parse, From;
    var s, t := "://" + (host + "/"), host + "/";
    var p := Place(i, 0, false, s, s, room);
    Enter(g, rank, i, s, room);
    assert s[..3] == "://" && s[3..] == t;
    Passes(g, rank, p, Seq, UrlTable.Row("://", "://", Next));
    var q := Place(i, 1, true, s, t, room);
    assert t[0..] == t && t[0..|t| - 1] == host;
    Calls(g, rank, q, Seq, OptVal("hostport", "", Recurse(HOSTPORT)), "/", out);
    var text := out + ("hostport=" + host + "\n");
    assert "" + (out + PutVal("hostport", host)) == text;
    PathSlash(g, rank, Place(i, 2, true, s, "/", room - |text|));
    assert text + "path=\n" == out + ("hostport=" + host + "\n") + "path=\n";
  }

  lemma PathSlash(g: Grammar, rank: Order, p: Place)
    requires Stands(g, rank, p) && p.k == 2 && g[p.i] == HTTP_RULE && p.src == "/" && 10 < p.room
    requires Scans(g, rank, PATH, "", p.room, Ok("", ""))
    ensures Run(g, rank, p) == Ok("", "path=\n")
  {
    hide Parse, From;
    assert "/"[..1] == "/" && "/"[1..] == "" && "/"[1..1] == "";
    Calls(g, rank, p, Seq, OptVal("path", "/", Recurse(PATH)), "", "");
    assert "" + ("" + PutVal("path", "")) == "path=\n";
    var q := p.(k := 3, matched := true, src := "", room := p.room - 6);
    Skips(g, rank, q, Seq, OptVal("search", "?", Recurse(SEARCH)));
    Over(g, rank, q.(k := 4));
    assert "path=\n" + "" == "path=\n";
  }

  // "http" and what is behind it.
  lemma HttpFirst(g: Grammar, rank: Order, i: nat, t: string, out: string, room: int)
    requires Ranked(g, rank) && i < |g| && g[i] == URL_RULE && t != "" && t[0] == ':' && |t| + 11 < room
    requires Scans(g, rank, HTTP, t, room - 11, Ok("", out))
    ensures Scans(g, rank, i, "http" + t, room, Ok("", "proto=http\n" + out))
  {
    hide Parse, From;
    var s := "http" + t;
    var p := Place(i, 0, false, s, s, room);
    Enter(g, rank, i, s, room);
    assert |s| >= 5 && s[4] == ':' && s[..5][4] == ':' && s[..4] == "http" && s[4..] == t;
    Skips(g, rank, p, Alt, Proto("https", Recurse(HTTP)));
    var e := Proto("http", Recurse(HTTP));
    assert e.gate[..4] == "http";
    assert GateText(e, true) == "proto=http\n";
    Calls(g, rank, p.(k := 1), Alt, e, "", out);
  }

  // --- the table of the program ------------------------------------------------------------------

  // The rules that a host goes through.
  ghost predicate HostTable(g: Grammar, rank: Order) {
    && Ranked(g, rank) && |g| == URL + 1
    && g[DIGITS] == Rule(Alt, [Set("digit", DIGIT, Recurse(DIGITS1))])
    && g[DOMLABEL2] == Rule(Alt, [
         Set("alphadigit", ALPHADIGIT, Recurse(DOMLABEL2)), UrlTable.Row("hyphen", "-", Recurse(DOMLABEL)),
         Otherwise("terminate", Success)])
    && g[DOMLABEL] == Rule(Seq, [Set("alphadigit", ALPHADIGIT, Recurse(DOMLABEL2))])
    && g[HOSTNAME] == Rule(Seq, [
         UrlTable.Row("name", "", Recurse(DOMLABEL)), Opt("name", ".", Recurse(HOSTNAME))])
    && g[HOSTNUMBER].kind.Seq? && |g[HOSTNUMBER].entries| > 0
    && g[HOSTNUMBER].entries[0] == UrlTable.Row("num1", "", Recurse(DIGITS))
    && g[HOST] == Rule(Alt, [
         UrlTable.Row("number", "", Recurse(HOSTNUMBER)), UrlTable.Row("name", "", Recurse(HOSTNAME))])
    && g[HOSTPORT] == Rule(Seq, [Val("host", "", Recurse(HOST)), OptVal("port", ":", Recurse(PORT))])
  }

  lemma HostRows()
    ensures HostTable(URL_TABLE, URL_ORDER)
  {
    TableRanked();
    OtherRows();
    hide Ranked, ALPHADIGIT, DIGIT, CHARACTER_RULES, PATH_RULES, PROTOCOL_RULES, EXTENDED_RULES, URL_RULE, Fit;
    TableSize();
    forall j | 0 <= j < 9
      ensures URL_TABLE[9 + j] == HOST_RULES[j]
    {
    }
  }

  lemma OtherRows()
    ensures |URL_TABLE| == URL + 1
    ensures URL_TABLE[DIGITS] == Rule(Alt, [Set("digit", DIGIT, Recurse(DIGITS1))])
    ensures URL_TABLE[YALPHAS] == Rule(Seq, [Set("yalpha", YALPHA, Next), Opt("yalpha", "", Recurse(YALPHAS))])
    ensures URL_TABLE[PATH1] == Rule(Seq, [Opt("name", "", Recurse(YALPHAS)), Opt("dir", "/", Recurse(PATH))])
    ensures URL_TABLE[PATH] == Rule(Alt, [
              UrlTable.Row("path", "", Recurse(PATH1)), UrlTable.Row("nullpath", "", Success)])
    ensures URL_TABLE[HTTP] == HTTP_RULE && URL_TABLE[URL] == URL_RULE
  {
    hide DIGIT, ALPHA, ALNUM, NALPHA, XALPHA, YALPHA, URIC, HOST_RULES, EXTENDED_RULES, URL_RULE, Fit;
    TableSize();
    assert URL_TABLE[DIGITS] == CHARACTER_RULES[1] && URL_TABLE[YALPHAS] == CHARACTER_RULES[6];
    assert URL_TABLE[PATH1] == PATH_RULES[0] && URL_TABLE[PATH] == PATH_RULES[1];
    assert URL_TABLE[HTTP] == PROTOCOL_RULES[0];
  }

  lemma TableSize()
    ensures |CHARACTER_RULES| == 9 && |HOST_RULES| == 9 && |PATH_RULES| == 12
    ensures |PROTOCOL_RULES| == 8 && |EXTENDED_RULES| == 6
  {
    CharacterRules();
    HostRules();
    PathRules();
    ProtocolRules();
    ExtendedRules();
  }

  lemma Characters()
    ensures '/' !in ALPHADIGIT && 'h' in ALPHADIGIT && 'h' !in DIGIT
  {
  }

  lemma LetterHostIn(g: Grammar, rank: Order, c: char, room: int)
    requires HostTable(g, rank) && c in ALPHADIGIT && c !in DIGIT && '/' !in ALPHADIGIT && 2 < room
    ensures Scans(g, rank, HOSTPORT, [c] + "/", room, Ok("/", "host=" + [c] + "\n"))
  {
    hide Parse, From, Scans, Ranked, ALPHADIGIT, DIGIT;
    assert Ranked(g, rank);
    var s := [c] + "/";
    NoDigits(g, rank, DIGITS, s, room);
    NoNumber(g, rank, HOSTNUMBER, s, room);
    LabelEnds(g, rank, DOMLABEL2, "/", room);
    OneLetter(g, rank, DOMLABEL, c, "/", room);
    OneLabel(g, rank, HOSTNAME, s, "/", room);
    HostName(g, rank, HOST, s, "/", room);
    HostOnly(g, rank, HOSTPORT, s, "/", room);
    assert s[..1] == [c];
  }

  // The rules behind the host.
  ghost predicate PathTable(g: Grammar, rank: Order) {
    && Ranked(g, rank) && |g| == URL + 1
    && g[YALPHAS] == Rule(Seq, [Set("yalpha", YALPHA, Next), Opt("yalpha", "", Recurse(YALPHAS))])
    && g[PATH1] == Rule(Seq, [Opt("name", "", Recurse(YALPHAS)), Opt("dir", "/", Recurse(PATH))])
    && g[PATH] == Rule(Alt, [UrlTable.Row("path", "", Recurse(PATH1)), UrlTable.Row("nullpath", "", Success)])
  }

  lemma NothingBehind(g: Grammar, rank: Order, room: int)
    requires PathTable(g, rank) && 0 < room
    ensures Scans(g, rank, PATH, "", room, Ok("", ""))
  {
    hide Parse, From, Scans, Ranked, YALPHA;
    assert Ranked(g, rank);
    NoLetters(g, rank, YALPHAS, room);
    NoName(g, rank, PATH1, room);
    NoPath(g, rank, PATH, room);
  }

  /** "http://h/" is scanned to its end, and puts its protocol, its host twice, and an empty path. */
  lemma OneUrl(room: int)
    requires 60 < room
    ensures Ranked(URL_TABLE, URL_ORDER)
    ensures Parse(URL_TABLE, URL_ORDER, URL, "http://h/", room, true, true)
         == Ok("", "proto=http\nhost=h\nhostport=h\npath=\n")
  {
    HostRows();
    PathRows();
    OtherRows();
    Characters();
    hide *;
    UrlIn(URL_TABLE, URL_ORDER, room);
    ScansIs(URL_TABLE, URL_ORDER, URL, "http://h/", room, Ok("", "proto=http\nhost=h\nhostport=h\npath=\n"));
  }

  lemma UrlIn(g: Grammar, rank: Order, room: int)
    requires HostTable(g, rank) && PathTable(g, rank) && g[HTTP] == HTTP_RULE && g[URL] == URL_RULE && 60 < room
    requires '/' !in ALPHADIGIT && 'h' in ALPHADIGIT && 'h' !in DIGIT
    ensures Scans(g, rank, URL, "http://h/", room, Ok("", "proto=http\nhost=h\nhostport=h\npath=\n"))
  {
    hide Parse, From, Scans, Ranked, URL_RULE, HTTP_RULE, ALPHADIGIT, DIGIT, HostTable, PathTable;
    RankedTable(g, rank);
    LetterHostIn(g, rank, 'h', room - 11);
    NothingBehind(g, rank, room - 11 - 7 - 11);
    UrlText();
    HttpUrl(g, rank, "h", "host=h\n", room);
  }

  lemma HttpUrl(g: Grammar, rank: Order, host: string, out: string, room: int)
    requires Ranked(g, rank) && |g| == URL + 1 && g[HTTP] == HTTP_RULE && g[URL] == URL_RULE
    requires 2 * |host| + |out| + 40 < room
    requires Scans(g, rank, HOSTPORT, host + "/", room - 11, Ok("/", out))
    requires Scans(g, rank, PATH, "", room - 11 - |out| - |host| - 10, Ok("", ""))
    ensures Scans(g, rank, URL, "http" + ("://" + (host + "/")), room,
                  Ok("", "proto=http\n" + (out + ("hostport=" + host + "\n") + "path=\n")))
  {
    hide Parse, From, Scans, Ranked, URL_RULE, HTTP_RULE;
    HostSlash(g, rank, HTTP, host, out, room - 11);
    HttpFirst(g, rank, URL, "://" + (host + "/"), out + ("hostport=" + host + "\n") + "path=\n", room);
  }

  lemma UrlText()
    ensures ['h'] + "/" == "h" + "/" && "host=" + ['h'] + "\n" == "host=h\n"
    ensures "http" + ("://" + ("h" + "/")) == "http://h/"
    ensures "proto=http\n" + ("host=h\n" + ("hostport=" + "h" + "\n") + "path=\n")
         == "proto=http\nhost=h\nhostport=h\npath=\n"
  {
  }

  lemma RankedTable(g: Grammar, rank: Order)
    requires HostTable(g, rank)
    ensures Ranked(g, rank) && |g| == URL + 1
  {
    hide Ranked;
  }

  lemma ScansIs(g: Grammar, rank: Order, i: nat, src: string, room: int, r: Result)
    requires Scans(g, rank, i, src, room, r)
    ensures Ranked(g, rank) && i < |g| && Parse(g, rank, i, src, room, true, true) == r
  {
    hide Ranked, Parse;
  }

  lemma PathRows()
    ensures PathTable(URL_TABLE, URL_ORDER)
  {
    TableRanked();
    OtherRows();
    hide Ranked, URL_TABLE, URL_ORDER, YALPHA;
  }
}
