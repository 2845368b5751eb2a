/** The crawl of delegate/fsx/any2fdif.cpp: the table of URLs (`findUrl`, `setdoneUrl`,
    `addUrl`, `getnextlink`) and the loop of `scanUrls` that takes links from it and puts the
    links of each page back. The network is a function of the URL and the time. */
module CrawlTable {
  import opened Bytes
  import opened Sequences

  type url = bytes

  const SLASH: byte := 47
  const SHORT: nat := 0x1_0000

  const DONE_NOTYET: byte := 0x00
  const DONE_BASE: byte := 0x01
  const DONE_SCANNED: byte := 0x02
  const DONE_REDIRECT: byte := 0x03
  const DONE_REDIRECTED: byte := 0x04
  const DONE_INDEXED: byte := 0x10

  datatype UrlScan = UrlScan(url: url, crc: int, done: byte, hops: nat, referer: nat)

  // --- looking up ---------------------------------------------------------------------------

  /** A URL without one trailing slash. */
  function Strip(u: url): url {
    if u != [] && u[|u| - 1] == SLASH then u[..|u| - 1] else u
  }

  predicate EndsInSlash(u: url) { u != [] && u[|u| - 1] == 47 }

  /** URLs are the same without a trailing slash just when they are equal, or one is the other with
      a "/" behind it where it had none. */
  lemma SameUrl(a: url, b: url)
    ensures Strip(a) == Strip(b) <==> a == b || (a == b + [47] && !EndsInSlash(b)) || (b == a + [47] && !EndsInSlash(a))
  {
    assert EndsInSlash(a) ==> a == Strip(a) + [47];
    assert EndsInSlash(b) ==> b == Strip(b) + [47];
    if Strip(a) == Strip(b) {
      if EndsInSlash(a) && !EndsInSlash(b) { assert a == b + [47]; }
      if EndsInSlash(b) && !EndsInSlash(a) { assert b == a + [47]; }
    }
  }

  // How `findUrl` compares: the check sum first, then as much as the sought URL has.
  predicate Matches(hash: url -> int, e: UrlScan, u: url) {
    e.crc == hash(Strip(u)) && Strip(u) <= e.url
  }

  // The first entry from i on that matches, or -1.
  function FindFrom(hash: url -> int, es: seq<UrlScan>, u: url, i: nat): (ui: int)
    requires i <= |es|
    ensures ui == -1 || i <= ui < |es|
    decreases |es| - i
  {
    if i == |es| then -1 else if Matches(hash, es[i], u) then i else FindFrom(hash, es, u, i + 1)
  }

  lemma FindStep(hash: url -> int, es: seq<UrlScan>, u: url, i: nat)
    requires i <= |es|
    ensures FindFrom(hash, es, u, i) ==
            if i == |es| then -1 else if Matches(hash, es[i], u) then i else FindFrom(hash, es, u, i + 1)
  {
    hide Matches;
  }

  lemma {:induction false} FindFirst(hash: url -> int, es: seq<UrlScan>, u: url, i: nat)
    requires i <= |es|
    ensures var ui := FindFrom(hash, es, u, i);
            if ui < 0 then forall k | i <= k < |es| :: !Matches(hash, es[k], u)
            else Matches(hash, es[ui], u) && forall k | i <= k < ui :: !Matches(hash, es[k], u)
    decreases |es| - i
  {
    if i < |es| && !Matches(hash, es[i], u) { FindFirst(hash, es, u, i + 1); }
  }

  lemma SameMatches(hash: url -> int, e: UrlScan, u: url)
    requires e.crc == hash(Strip(e.url)) && Strip(e.url) == Strip(u)
    ensures Matches(hash, e, u)
  {
    assert e.url == Strip(e.url) || e.url == Strip(e.url) + [SLASH];
  }

  // --- what holds of a table ----------------------------------------------------------------

  /** No two URLs are equal up to one trailing slash. */
  ghost predicate Distinct(es: seq<UrlScan>) {
    forall i, j | 0 <= i < j < |es| :: Strip(es[i].url) != Strip(es[j].url)
  }

  ghost predicate EntryOk(hash: url -> int, limit: int, e: UrlScan, n: nat) {
    e.crc == hash(Strip(e.url)) && e.hops <= limit && e.hops < SHORT && 1 <= e.referer <= n
  }

  ghost predicate TableOk(hash: url -> int, limit: int, es: seq<UrlScan>) {
    Distinct(es) && forall i | 0 <= i < |es| :: EntryOk(hash, limit, es[i], |es|)
  }

  /** What any work on the table keeps: entries stay with all but their mark, a mark is never
      set back to not-yet, and an indexed entry stays indexed. */
  ghost predicate Evolves(a: seq<UrlScan>, b: seq<UrlScan>) {
    && |a| <= |b|
    && forall i | 0 <= i < |a| ::
         && b[i] == a[i].(done := b[i].done)
         && (a[i].done != DONE_NOTYET ==> b[i].done != DONE_NOTYET)
         && (a[i].done == DONE_INDEXED ==> b[i].done == DONE_INDEXED)
  }

  lemma EvolvesOn(a: seq<UrlScan>, b: seq<UrlScan>, c: seq<UrlScan>)
    requires Evolves(a, b) && Evolves(b, c)
    ensures Evolves(a, c)
  {
    forall i | 0 <= i < |a|
      ensures c[i] == a[i].(done := c[i].done)
    {
      assert b[i] == a[i].(done := b[i].done) && c[i] == b[i].(done := c[i].done);
    }
  }

  /** In a table that is in order, a URL is found whenever one equal to it up to a trailing
      slash is there, for any check sum; when the check sum tells the URLs apart, only then. */
  lemma FoundIs(hash: url -> int, limit: int, es: seq<UrlScan>, u: url)
    requires TableOk(hash, limit, es)
    ensures (exists i | 0 <= i < |es| :: Strip(es[i].url) == Strip(u)) ==> FindFrom(hash, es, u, 0) >= 0
    ensures (forall i | 0 <= i < |es| :: hash(Strip(es[i].url)) == hash(Strip(u)) ==> Strip(es[i].url) == Strip(u)) ==>
              var ui := FindFrom(hash, es, u, 0);
              if ui < 0 then forall i | 0 <= i < |es| :: Strip(es[i].url) != Strip(u)
              else Strip(es[ui].url) == Strip(u)
  {
    FindFirst(hash, es, u, 0);
    forall i | 0 <= i < |es| && Strip(es[i].url) == Strip(u)
      ensures Matches(hash, es[i], u)
    {
      assert EntryOk(hash, limit, es[i], |es|);
      SameMatches(hash, es[i], u);
    }
    var ui := FindFrom(hash, es, u, 0);
    if ui >= 0 { assert EntryOk(hash, limit, es[ui], |es|); }
  }

  // The entries that have not been handed out.
  function NotYet(es: seq<UrlScan>): (n: nat)
    ensures n <= |es|
  {
    if es == [] then 0 else (if es[0].done == DONE_NOTYET then 1 else 0) + NotYet(es[1..])
  }

  lemma {:induction false} NotYetEvolves(a: seq<UrlScan>, b: seq<UrlScan>)
    requires Evolves(a, b) && |a| == |b|
    ensures NotYet(b) <= NotYet(a)
    ensures (exists i | 0 <= i < |a| :: a[i].done == DONE_NOTYET != b[i].done) ==> NotYet(b) < NotYet(a)
    decreases |a|
  {
    if a != [] {
      assert Evolves(a[1..], b[1..]);
      NotYetEvolves(a[1..], b[1..]);
      if i :| 0 <= i < |a| && a[i].done == DONE_NOTYET != b[i].done {
        if i > 0 { assert a[1..][i - 1].done == DONE_NOTYET != b[1..][i - 1].done; }
      }
    }
  }

  /** URLs of a finite set fill no more entries than the set has, up to trailing slashes. */
  lemma {:induction false} AtMost(es: seq<UrlScan>, all: set<url>)
    requires Distinct(es) && forall i | 0 <= i < |es| :: Strip(es[i].url) in all
    ensures |es| <= |all|
    decreases |es|
  {
    if es != [] {
      var n := |es| - 1;
      var s := Strip(es[n].url);
      AtMost(es[..n], all - {s});
    }
  }

  // The distance that `addUrl` gives to a new entry; the page at index 0 passes on none.
  function HopsOf(es: seq<UrlScan>, bhops: int, basei: int): (hops: nat)
    requires 0 < basei ==> basei < |es|
  {
    if 0 <= bhops then bhops else if basei == 0 then 0
    else if 0 < basei then es[basei].hops + 1 else 2
  }

  /** What `addUrl` does to a table. */
  ghost predicate Added(hash: url -> int, limit: int, es: seq<UrlScan>, admitted: bool, bhops: int, basei: int,
                        u: url, done: byte, uix: int, es': seq<UrlScan>)
    requires 0 < basei ==> basei < |es|
  {
    var i, hops := FindFrom(hash, es, u, 0), HopsOf(es, bhops, basei);
    if !admitted then uix == -1 && es' == es
    else if i >= 0 then
      uix == i && es' == (if es[i].done == DONE_NOTYET then es[i := es[i].(done := done)] else es)
    else if limit < hops then uix == -1 && es' == es
    else
      && uix == |es|
      && es' == es + [UrlScan(u, hash(Strip(u)), done, hops % SHORT, if basei < 0 then 1 else basei + 1)]
  }

  lemma NewEntry(hash: url -> int, limit: int, e: UrlScan, n: nat)
    requires e.crc == hash(Strip(e.url)) && e.hops <= limit && e.hops < SHORT && 1 <= e.referer <= n
    ensures EntryOk(hash, limit, e, n)
  {
  }

  lemma MarkOk(hash: url -> int, limit: int, es: seq<UrlScan>, i: nat, done: byte)
    requires TableOk(hash, limit, es) && i < |es|
    requires es[i].done != DONE_NOTYET ==> done != DONE_NOTYET && es[i].done != DONE_INDEXED
    ensures TableOk(hash, limit, es[i := es[i].(done := done)])
    ensures Evolves(es, es[i := es[i].(done := done)])
  {
    var es' := es[i := es[i].(done := done)];
    assert forall k | 0 <= k < |es| :: es'[k].url == es[k].url;
    forall k | 0 <= k < |es|
      ensures EntryOk(hash, limit, es'[k], |es|)
    {
      assert EntryOk(hash, limit, es[k], |es|);
    }
  }

  lemma ShortOf(hops: nat)
    ensures hops % SHORT <= hops && hops % SHORT < SHORT
  {
  }

  // A URL that was not found is new.
  lemma NewUrl(hash: url -> int, limit: int, es: seq<UrlScan>, u: url)
    requires TableOk(hash, limit, es) && FindFrom(hash, es, u, 0) < 0
    ensures forall k | 0 <= k < |es| :: Strip(es[k].url) != Strip(u)
  {
    hide Strip, Matches;
    FindFirst(hash, es, u, 0);
    forall k | 0 <= k < |es|
      ensures Strip(es[k].url) != Strip(u)
    {
      assert EntryOk(hash, limit, es[k], |es|) && !Matches(hash, es[k], u);
      if Strip(es[k].url) == Strip(u) { SameMatches(hash, es[k], u); }
    }
  }

  lemma {:induction false} AddOk(hash: url -> int, limit: int, es: seq<UrlScan>, e: UrlScan)
    requires TableOk(hash, limit, es) && FindFrom(hash, es, e.url, 0) < 0
    requires EntryOk(hash, limit, e, |es| + 1)
    ensures TableOk(hash, limit, es + [e]) && Evolves(es, es + [e])
  {
    hide Strip, FindFrom;
    var es' := es + [e];
    NewUrl(hash, limit, es, e.url);
    forall k | 0 <= k < |es'|
      ensures EntryOk(hash, limit, es'[k], |es'|)
    {
      if k < |es| { assert EntryOk(hash, limit, es[k], |es|); }
    }
  }

  /** A URL that is not admitted changes nothing, and one that is found at most its mark, when it
      is still to be done. One that is admitted and not found gets the distance that is given, or
      one more than that of its base, and the number of its base as referer, unless it is too far. */
  lemma NewDistance(hash: url -> int, limit: int, es: seq<UrlScan>, admitted: bool, bhops: int, basei: int, u: url,
                    done: byte, uix: int, es': seq<UrlScan>)
    requires 0 < basei ==> basei < |es|
    requires Added(hash, limit, es, admitted, bhops, basei, u, done, uix, es')
    ensures !admitted ==> uix == -1 && es' == es
    ensures var i := FindFrom(hash, es, u, 0);
            admitted && 0 <= i ==>
              uix == i && es' == es[i := es[i].(done := if es[i].done == 0 then done else es[i].done)]
    ensures admitted && FindFrom(hash, es, u, 0) < 0 && bhops < 0 && 0 < basei ==>
              if limit < es[basei].hops + 1 then uix == -1 && es' == es
              else uix == |es| && es' == es + [es'[|es|]] && es'[|es|].url == u && es'[|es|].done == done
                   && es'[|es|].hops == (es[basei].hops + 1) % 0x1_0000 && es'[|es|].referer == basei + 1
    ensures admitted && FindFrom(hash, es, u, 0) < 0 && (0 <= bhops || basei <= 0) ==>
              var d: int := if 0 <= bhops then bhops else if basei == 0 then 0 else 2;
              if limit < d then uix == -1 && es' == es
              else uix == |es| && es' == es + [es'[|es|]] && es'[|es|].url == u && es'[|es|].done == done
                   && es'[|es|].hops == d % 0x1_0000
                   && es'[|es|].referer == if basei < 0 then 1 else basei + 1
  {
    hide FindFrom, Strip;
  }

  // --- distances ------------------------------------------------------------------------------

  /** A counted entry is one link from its referer, which has an entry in front of it. */
  ghost predicate Counted(limit: int, es: seq<UrlScan>, counted: seq<bool>) {
    && |counted| == |es|
    && forall i | 0 <= i < |es| && counted[i] ::
         && 0 < es[i].referer - 1 < i && es[es[i].referer - 1].hops + 1 <= limit
         && es[i].hops == (es[es[i].referer - 1].hops + 1) % 0x1_0000
  }

  lemma CountedMark(limit: int, es: seq<UrlScan>, counted: seq<bool>, i: nat, done: byte)
    requires Counted(limit, es, counted) && i < |es|
    ensures Counted(limit, es[i := es[i].(done := done)], counted)
  {
    var es' := es[i := es[i].(done := done)];
    assert forall k | 0 <= k < |es| :: es'[k].hops == es[k].hops && es'[k].referer == es[k].referer;
  }

  lemma CountedAdd(limit: int, es: seq<UrlScan>, counted: seq<bool>, e: UrlScan, c: bool)
    requires Counted(limit, es, counted)
    requires c ==> 0 < e.referer - 1 < |es| && es[e.referer - 1].hops + 1 <= limit
                   && e.hops == (es[e.referer - 1].hops + 1) % 0x1_0000
    ensures Counted(limit, es + [e], counted + [c])
  {
  }

  /** A chain of referers: from entry i over counted entries to the one where the count began. */
  ghost predicate Chain(es: seq<UrlScan>, counted: seq<bool>, i: nat, chain: seq<nat>) {
    && |counted| == |es| && chain != [] && chain[0] == i && (forall j | 0 <= j < |chain| :: chain[j] < |es|)
    && (forall j | 0 <= j < |chain| - 1 :: counted[chain[j]] && es[chain[j]].referer == chain[j + 1] + 1)
    && !counted[chain[|chain| - 1]]
  }

  /** The distance of an entry is that of the entry where the count began and the number of links
      on the chain of referers from there - modulo 0x10000, or exactly while the limit is less;
      then no chain has more links than the limit. */
  lemma {:induction false} Distance(limit: int, es: seq<UrlScan>, counted: seq<bool>, i: nat, chain: seq<nat>)
    requires Counted(limit, es, counted) && Chain(es, counted, i, chain)
    ensures es[i].hops % 0x1_0000 == (es[chain[|chain| - 1]].hops + (|chain| - 1)) % 0x1_0000
    ensures limit < 0x1_0000 ==> es[i].hops == es[chain[|chain| - 1]].hops + (|chain| - 1)
    ensures limit < 0x1_0000 ==> |chain| == 1 || |chain| - 1 <= limit
    decreases |chain|
  {
    if |chain| > 1 {
      var rest := chain[1..];
      assert counted[chain[0]] && chain[1] < |es|;
      assert Chain(es, counted, chain[1], rest) by {
        assert rest[|rest| - 1] == chain[|chain| - 1];
      }
      Distance(limit, es, counted, chain[1], rest);
      OneMoreLink(es[chain[1]].hops, es[chain[|chain| - 1]].hops, |chain| - 2);
    }
  }

  lemma OneMoreLink(h: nat, from: nat, n: nat)
    requires h % 0x1_0000 == (from + n) % 0x1_0000
    ensures (h + 1) % 0x1_0000 % 0x1_0000 == (from + (n + 1)) % 0x1_0000
  {
  }

  /** Every entry has one such chain. */
  lemma {:induction false} ChainThere(limit: int, es: seq<UrlScan>, counted: seq<bool>, i: nat)
    requires Counted(limit, es, counted) && i < |es|
    ensures exists chain :: Chain(es, counted, i, chain)
    decreases i
  {
    if counted[i] {
      var b: nat := es[i].referer - 1;
      ChainThere(limit, es, counted, b);
      var chain :| Chain(es, counted, b, chain);
      assert Chain(es, counted, i, [i] + chain);
    } else {
      assert Chain(es, counted, i, [i]);
    }
  }

  lemma {:induction false} ChainUnique(es: seq<UrlScan>, counted: seq<bool>, i: nat, a: seq<nat>, b: seq<nat>)
    requires Chain(es, counted, i, a) && Chain(es, counted, i, b)
    ensures a == b
    decreases |a|
  {
    if |a| > 1 && |b| > 1 {
      var c, d := a[1..], b[1..];
      assert Chain(es, counted, a[1], c) by { assert c[|c| - 1] == a[|a| - 1]; }
      assert Chain(es, counted, a[1], d) by { assert d[|d| - 1] == b[|b| - 1]; }
      ChainUnique(es, counted, a[1], c, d);
      assert a == [i] + c && b == [i] + d;
    }
  }

  // --- the table ------------------------------------------------------------------------------

  class Table {
    const hash: url -> int         // strCRC32
    const maxhops: int             // opt_h
    const admitted: url -> bool    // doindextype, VA_url_permitted
    var urls: array<UrlScan>
    var urli: nat
    ghost var handed: seq<nat>     // the entries handed out, in order
    ghost var counted: seq<bool>   // which entries are one link from their referer

    ghost function Entries(): seq<UrlScan>
      reads this, urls
      requires urli <= urls.Length
    {
      urls[..urli]
    }

    ghost predicate Valid()
      reads this, urls
    {
      && urli <= urls.Length && TableOk(hash, maxhops, Entries()) && Counted(maxhops, Entries(), counted)
      && (forall k | 0 <= k < |handed| :: handed[k] < urli && urls[handed[k]].done != DONE_NOTYET)
      && (forall j, k | 0 <= j < k < |handed| :: handed[j] != handed[k])
    }

    constructor (hash: url -> int, maxhops: int, admitted: url -> bool)
      ensures Valid() && fresh(urls) && Entries() == [] && handed == []
      ensures this.hash == hash && this.maxhops == maxhops && this.admitted == admitted
    {
      this.hash, this.maxhops, this.admitted := hash, maxhops, admitted;
      urls := new UrlScan[0];
      urli, handed, counted := 0, [], [];
    }

    /** `findUrl` */
    method FindUrl(u: url) returns (ui: int, crc: int)
      requires Valid()
      ensures ui == FindFrom(hash, Entries(), u, 0) && crc == hash(Strip(u))
    {
      var ulen := if u != [] && u[|u| - 1] == SLASH then |u| - 1 else |u|;
      crc := hash(u[..ulen]);
      assert u[..ulen] == Strip(u);
      hide Strip, TableOk, FindFrom;
      for i := 0 to urli
        invariant FindFrom(hash, Entries(), u, 0) == FindFrom(hash, Entries(), u, i)
      {
        FindStep(hash, Entries(), u, i);
        if urls[i].crc == crc && u[..ulen] <= urls[i].url {
          return i, crc;
        }
      }
      FindStep(hash, Entries(), u, urli);
      return -1, crc;
    }

    // A mark is put on an entry.
    method Mark(i: nat, done: byte)
      requires Valid() && i < urli
      requires urls[i].done != DONE_NOTYET ==> done != DONE_NOTYET && urls[i].done != DONE_INDEXED
      modifies urls
      ensures Valid() && Entries() == old(Entries())[i := old(Entries())[i].(done := done)]
      ensures Evolves(old(Entries()), Entries())
    {
      ghost var es := Entries();
      urls[i] := urls[i].(done := done);
      assert Entries() == es[i := es[i].(done := done)];
      MarkOk(hash, maxhops, es, i, done);
      CountedMark(maxhops, es, counted, i, done);
    }

    /** `setdoneUrl`: whatever the mark is, an indexed entry keeps its own. */
    method SetdoneUrl(uix: int, u: url, done: byte) returns (r: int)
      requires Valid() && done != DONE_NOTYET && uix < urli
      modifies urls
      ensures Valid() && Evolves(old(Entries()), Entries()) && urli == old(urli)
      ensures var i := if uix < 0 then FindFrom(hash, old(Entries()), u, 0) else uix;
              && r == (if i < 0 then -1 else 1)
              && Entries() == (if i < 0 || old(Entries())[i].done == DONE_INDEXED then old(Entries())
                               else old(Entries())[i := old(Entries())[i].(done := done)])
    {
      var i, crc := uix, 0;
      if i < 0 { i, crc := FindUrl(u); }
      if 0 <= i < urli {
        if urls[i].done != DONE_INDEXED { Mark(i, done); }
        return 1;
      }
      return -1;
    }

    // Doubles the array.
    method Grow()
      requires Valid()
      modifies this`urls
      ensures Valid() && Entries() == old(Entries()) && urls.Length > old(urls.Length) && fresh(urls)
    {
      ghost var es := Entries();
      var more := new UrlScan[if urls.Length == 0 then 1024 else urls.Length * 2](_ => UrlScan([], 0, 0, 0, 0));
      forall k | 0 <= k < urli {
        more[k] := urls[k];
      }
      urls := more;
      assert Entries() == es;
    }

    // A new entry at the end.
    method Append(e: UrlScan, ghost c: bool)
      requires Valid() && FindFrom(hash, Entries(), e.url, 0) < 0 && EntryOk(hash, maxhops, e, urli + 1)
      requires c ==> 0 < e.referer - 1 < urli && Entries()[e.referer - 1].hops + 1 <= maxhops
                     && e.hops == (Entries()[e.referer - 1].hops + 1) % 0x1_0000
      modifies this`urls, this`urli, this`counted, urls
      ensures Valid() && Entries() == old(Entries()) + [e] && urli == old(urli) + 1
      ensures counted == old(counted) + [c]
      ensures Evolves(old(Entries()), Entries()) && (urls == old(urls) || fresh(urls))
    {
      hide FindFrom, Strip, EntryOk, TableOk, Counted;
      ghost var es := Entries();
      if urls.Length <= urli { Grow(); }
      AddOk(hash, maxhops, es, e);
      CountedAdd(maxhops, es, counted, e, c);
      urls[urli] := e;
      urli := urli + 1;
      counted := counted + [c];
      assert Entries() == es + [e];
    }

    /** `addUrl`: a URL that is admitted, new, and near enough gets an entry. */
    method AddUrl(bhops: int, basei: int, u: url, done: byte) returns (uix: int)
      requires Valid() && basei < (if urli == 0 then 1 else urli)
      modifies this`urls, this`urli, this`counted, urls
      ensures Valid() && Evolves(old(Entries()), Entries()) && -1 <= uix < urli
      ensures urls == old(urls) || fresh(urls)
      ensures counted == if urli == old(urli) then old(counted) else old(counted) + [bhops < 0 < basei]
      ensures Added(hash, maxhops, old(Entries()), admitted(u), bhops, basei, u, done, uix, Entries())
      ensures admitted(u) && FindFrom(hash, old(Entries()), u, 0) < 0 && bhops < 0 < basei ==>
                var d := old(Entries())[basei].hops + 1;
                if maxhops < d then uix == -1 && Entries() == old(Entries())
                else Entries() == old(Entries()) + [UrlScan(u, hash(Strip(u)), done, d % 0x1_0000, basei + 1)]
    {
      hide FindFrom, Strip, EntryOk, TableOk, Evolves, Counted;
      EvolvesSame(Entries());
      if !admitted(u) { return -1; }
      var i, crc := FindUrl(u);
      if 0 <= i {
        if urls[i].done == DONE_NOTYET { Mark(i, done); }
        return i;
      }
      var hops := if 0 <= bhops then bhops else if basei == 0 then 0
                  else if 0 < basei then urls[basei].hops + 1 else 2;
      if maxhops < hops { return -1; }
      var e := UrlScan(u, crc, done, hops % SHORT, if basei < 0 then 1 else basei + 1);
      ShortOf(hops);
      NewEntry(hash, maxhops, e, urli + 1);
      uix := urli;
      Append(e, bhops < 0 < basei);
    }

    /** `getnextlink`: hands out the first entry that is not done yet, and marks it. */
    method Getnextlink() returns (uix: int, u: url, referer: url)
      requires Valid()
      modifies this`handed, urls
      ensures Valid() && Evolves(old(Entries()), Entries()) && urli == old(urli)
      ensures uix < 0 ==> (forall i | 0 <= i < urli :: Entries()[i].done != DONE_NOTYET)
                          && Entries() == old(Entries()) && handed == old(handed)
      ensures 0 <= uix ==>
                && uix < urli && old(Entries())[uix].done == DONE_NOTYET && u == Entries()[uix].url
                && (forall i | 0 <= i < uix :: old(Entries())[i].done != DONE_NOTYET)
                && Entries() == old(Entries())[uix := old(Entries())[uix].(done := DONE_SCANNED)]
                && handed == old(handed) + [uix]
                && 0 < Entries()[uix].referer <= urli && referer == Entries()[Entries()[uix].referer - 1].url
    {
      for i := 0 to urli
        invariant Valid() && Entries() == old(Entries()) && handed == old(handed)
        invariant forall k | 0 <= k < i :: Entries()[k].done != DONE_NOTYET
      {
        if urls[i].done == DONE_NOTYET {
          assert EntryOk(hash, maxhops, Entries()[i], urli);
          Mark(i, DONE_SCANNED);
          handed := handed + [i];
          assert EntryOk(hash, maxhops, Entries()[i], urli);
          return i, urls[i].url, urls[urls[i].referer - 1].url;
        }
      }
      return -1, [], [];
    }
  }

  // --- the crawl ------------------------------------------------------------------------------

  datatype Option = None | Some(url: url)

  // A link of a page, with the distance it is given (-1: one more than its page).
  datatype Link = Link(url: url, bhops: int)

  /** What fetching a URL yields: where it was redirected to, whether there is a page, and the
      base and the links found in it. */
  datatype Page = Page(redirect: Option, got: bool, base: url, links: seq<Link>)

  // All URLs a page leads to are, up to a trailing slash, in a set.
  ghost predicate Leads(p: Page, norm: url -> url, all: set<url>) {
    && (p.redirect.Some? ==> Strip(norm(p.redirect.url)) in all)
    && Strip(norm(p.base)) in all && forall l | l in p.links :: Strip(l.url) in all
  }

  ghost predicate Within(es: seq<UrlScan>, all: set<url>) {
    forall i | 0 <= i < |es| :: Strip(es[i].url) in all
  }

  // A URL the table has an entry for.
  ghost predicate Found(hash: url -> int, es: seq<UrlScan>, u: url) { FindFrom(hash, es, u, 0) >= 0 }

  /** The links of a page into the realm of the crawl (distance 0) have entries, as far as they
      are admitted. */
  ghost predicate LinksIn(hash: url -> int, limit: int, admitted: url -> bool, p: Page, es: seq<UrlScan>) {
    0 <= limit ==>
      forall l | l in p.links && l.bhops == 0 && admitted(l.url) :: Found(hash, es, l.url)
  }

  // An entry for u, or the entry uix, is marked as indexed.
  ghost predicate Indexed(hash: url -> int, es: seq<UrlScan>, uix: int, u: url) {
    exists i | 0 <= i < |es| :: es[i].done == DONE_INDEXED && (i == uix || Matches(hash, es[i], u))
  }

  lemma FoundStays(hash: url -> int, es: seq<UrlScan>, es': seq<UrlScan>, u: url)
    requires Evolves(es, es') && Found(hash, es, u)
    ensures Found(hash, es', u)
  {
    FindFirst(hash, es, u, 0);
    FindFirst(hash, es', u, 0);
    var i := FindFrom(hash, es, u, 0);
    assert Matches(hash, es'[i], u);
  }

  lemma LinksStay(hash: url -> int, limit: int, admitted: url -> bool, p: Page, es: seq<UrlScan>, es': seq<UrlScan>)
    requires Evolves(es, es') && LinksIn(hash, limit, admitted, p, es)
    ensures LinksIn(hash, limit, admitted, p, es')
  {
    hide Evolves, Found;
    forall l | 0 <= limit && l in p.links && l.bhops == 0 && admitted(l.url)
      ensures Found(hash, es', l.url)
    {
      FoundStays(hash, es, es', l.url);
    }
  }

  lemma IndexedStays(hash: url -> int, es: seq<UrlScan>, es': seq<UrlScan>, uix: int, u: url)
    requires Evolves(es, es') && Indexed(hash, es, uix, u)
    ensures Indexed(hash, es', uix, u)
  {
    var i :| 0 <= i < |es| && es[i].done == DONE_INDEXED && (i == uix || Matches(hash, es[i], u));
    assert es'[i].done == DONE_INDEXED && es'[i].url == es[i].url;
  }

  /** The distance a URL is given: a given one, none behind the entry 0, one more than its base,
      or two without a base. */
  function Distant(es: seq<UrlScan>, bhops: int, basei: int): int
    requires basei < 0 || basei == 0 || basei < |es|
  {
    if 0 <= bhops then bhops else if basei < 0 then 2 else if basei == 0 then 0 else es[basei].hops + 1
  }

  // What is added near enough is found.
  lemma AddedFound(hash: url -> int, limit: int, es: seq<UrlScan>, bhops: int, basei: int, u: url, done: byte,
                   uix: int, es': seq<UrlScan>)
    requires 0 < basei ==> basei < |es|
    requires Added(hash, limit, es, true, bhops, basei, u, done, uix, es') && Evolves(es, es')
    requires Distant(es, bhops, basei) <= limit
    ensures Found(hash, es', u) && 0 <= uix
  {
    if FindFrom(hash, es, u, 0) >= 0 {
      FoundStays(hash, es, es', u);
    } else {
      FindFirst(hash, es', u, 0);
      assert Matches(hash, es'[|es|], u);
    }
  }

  /** Entry i is new: its distance and its referer are those of a URL that its base leads to. */
  ghost predicate NewOf(es: seq<UrlScan>, i: nat, bhops: int, basei: int, u: url)
    requires i < |es| && basei < |es|
  {
    && es[i].url == u && es[i].referer == (if basei < 0 then 1 else basei + 1)
    && es[i].hops == (if 0 <= bhops then bhops else if basei < 0 then 2 else if basei == 0 then 0
                      else es[basei].hops + 1) % 0x1_0000
  }

  // What is added, or found instead.
  lemma AddedNew(hash: url -> int, limit: int, es: seq<UrlScan>, admitted: bool, bhops: int, basei: int, u: url,
                 done: byte, uix: int, es': seq<UrlScan>)
    requires 0 < basei ==> basei < |es|
    requires Added(hash, limit, es, admitted, bhops, basei, u, done, uix, es')
    ensures -1 <= uix < |es'| && (0 <= uix ==> Matches(hash, es'[uix], u))
    ensures (admitted && 0 <= bhops <= limit ==> 0 <= uix) && (uix < 0 ==> es' == es)
    ensures FindFrom(hash, es, u, 0) < 0 && 0 <= uix ==> |es'| == |es| + 1
    ensures |es'| == |es| + 1 ==> es'[..|es|] == es
    ensures |es'| == |es| || (|es'| == |es| + 1 && uix == |es| && basei < |es'| && NewOf(es', uix, bhops, basei, u))
  {
    assert Strip(u) <= u;
    hide Strip, FindFrom;
    FindFirst(hash, es, u, 0);
    NewDistance(hash, limit, es, admitted, bhops, basei, u, done, uix, es');
  }

  /** Entry i is new, for one of the links of the page whose own entry is base. */
  ghost predicate FromPage(es: seq<UrlScan>, i: nat, base: int, links: seq<Link>)
    requires i < |es| && base < |es|
  {
    exists l :: l in links && NewOf(es, i, if l.bhops == 0 then 0 else -1, base, l.url)
  }

  /** Each link that is admitted and near enough has an entry. */
  ghost predicate NearFound(hash: url -> int, limit: int, admitted: url -> bool, es: seq<UrlScan>, base: int,
                            links: seq<Link>)
    requires base < |es|
  {
    forall l | l in links && admitted(l.url) && Distant(es, if l.bhops == 0 then 0 else -1, base) <= limit ::
      Found(hash, es, l.url)
  }

  lemma NoneNear(hash: url -> int, limit: int, admitted: url -> bool, es: seq<UrlScan>, base: int)
    requires base < |es|
    ensures NearFound(hash, limit, admitted, es, base, [])
  {
  }

  lemma NextNear(hash: url -> int, limit: int, admitted: url -> bool, es: seq<UrlScan>, es': seq<UrlScan>, base: int,
                 links: seq<Link>, l: Link)
    requires base < |es| && NearFound(hash, limit, admitted, es, base, links) && Evolves(es, es')
    requires admitted(l.url) && Distant(es, if l.bhops == 0 then 0 else -1, base) <= limit ==> Found(hash, es', l.url)
    ensures NearFound(hash, limit, admitted, es', base, links + [l])
  {
    hide Found;
    assert base > 0 ==> es'[base].hops == es[base].hops;
    forall m | m in links + [l] && admitted(m.url) && Distant(es', if m.bhops == 0 then 0 else -1, base) <= limit
      ensures Found(hash, es', m.url)
    {
      if m in links { FoundStays(hash, es, es', m.url); }
    }
  }

  ghost predicate AllFromPage(es: seq<UrlScan>, from: nat, base: int, links: seq<Link>)
    requires base < |es|
  {
    forall i: nat | from <= i < |es| && i != base :: FromPage(es, i, base, links)
  }

  // The next link is added.
  lemma NextFromPage(es: seq<UrlScan>, es': seq<UrlScan>, from: nat, base: int, links: seq<Link>, l: Link)
    requires base < |es| && AllFromPage(es, from, base, links) && Evolves(es, es')
    requires |es'| == |es| || (|es'| == |es| + 1 && NewOf(es', |es|, if l.bhops == 0 then 0 else -1, base, l.url))
    ensures AllFromPage(es', from, base, links + [l])
  {
    forall i: nat | from <= i < |es'| && i != base
      ensures FromPage(es', i, base, links + [l])
    {
      if i < |es| {
        assert FromPage(es, i, base, links);
        var m :| m in links && NewOf(es, i, if m.bhops == 0 then 0 else -1, base, m.url);
        assert NewOf(es', i, if m.bhops == 0 then 0 else -1, base, m.url) && m in links + [l];
      } else {
        assert l in links + [l];
      }
    }
  }

  lemma NoneFromPage(es: seq<UrlScan>, from: nat, base: int)
    requires base < |es| && (|es| == from || (|es| == from + 1 && base == from))
    ensures AllFromPage(es, from, base, [])
  {
  }

  lemma MatchStays(hash: url -> int, es: seq<UrlScan>, es': seq<UrlScan>, i: int, u: url)
    requires Evolves(es, es') && 0 <= i < |es| && Matches(hash, es[i], u)
    ensures Matches(hash, es'[i], u)
  {
  }

  lemma NewOfStays(es: seq<UrlScan>, es': seq<UrlScan>, i: nat, bhops: int, basei: int, u: url)
    requires Evolves(es, es') && i < |es| && basei < |es| && NewOf(es, i, bhops, basei, u)
    ensures NewOf(es', i, bhops, basei, u)
  {
  }

  // Marks do not change what is found.
  lemma FindSame(hash: url -> int, es: seq<UrlScan>, es': seq<UrlScan>, u: url)
    requires Evolves(es, es') && |es| == |es'|
    ensures FindFrom(hash, es', u, 0) == FindFrom(hash, es, u, 0)
  {
    FindFirst(hash, es, u, 0);
    FindFirst(hash, es', u, 0);
    assert forall k | 0 <= k < |es| :: Matches(hash, es'[k], u) <==> Matches(hash, es[k], u);
  }

  // A URL that was fetched, and when.
  datatype Seen = Seen(u: url, t: nat)

  ghost predicate InLog(log: seq<Seen>, u: url) { exists j | 0 <= j < |log| :: log[j].u == u }

  class Crawler {
    const table: Table
    const fetch: (url, nat) -> Page    // VA_URLget and the links of HTML_scanLinks, at a time
    const norm: url -> url             // normalizeURL
    const verdict: url -> byte         // exclusion by -x, -y and type; 0 for none
    const follow: bool                 // links are followed (0 < optr)
    var visits: nat
    ghost var log: seq<Seen>           // what was fetched, in order

    constructor (table: Table, fetch: (url, nat) -> Page, norm: url -> url, verdict: url -> byte, follow: bool)
      ensures this.table == table && this.fetch == fetch && this.norm == norm
      ensures this.verdict == verdict && this.follow == follow && visits == 0 && log == []
    {
      this.table, this.fetch, this.norm, this.verdict, this.follow := table, fetch, norm, verdict, follow;
      visits, log := 0, [];
    }

    // The links lead nowhere out of a set, at any time.
    ghost predicate Closed(all: set<url>) {
      forall u, t :: Leads(fetch(u, t), norm, all)
    }

    ghost predicate Ready(all: set<url>)
      reads table, table.urls
    {
      table.Valid() && Within(table.Entries(), all)
    }

    // What every step leaves: the table has evolved within the set.
    twostate predicate Kept(all: set<url>)
      reads this, table, table.urls
      requires old(table.urli <= table.urls.Length)
    {
      && Ready(all) && Evolves(old(table.Entries()), table.Entries()) && old(table.urli) <= table.urli
      && table.handed == old(table.handed) && visits == old(visits) && log == old(log)
      && (table.urls == old(table.urls) || fresh(table.urls))
    }

    method Add(bhops: int, basei: int, u: url, done: byte, ghost all: set<url>) returns (uix: int)
      requires Ready(all) && Strip(u) in all && basei < (if table.urli == 0 then 1 else table.urli)
      modifies table`urls, table`urli, table`counted, table.urls
      ensures Kept(all) && -1 <= uix < table.urli
      ensures table.admitted(u) && Distant(old(table.Entries()), bhops, basei) <= table.maxhops ==>
                Found(table.hash, table.Entries(), u) && 0 <= uix
      ensures 0 <= uix ==> Matches(table.hash, table.Entries()[uix], u)
      ensures table.urli == old(table.urli) || (table.urli == old(table.urli) + 1 && uix == old(table.urli)
                && NewOf(table.Entries(), uix, bhops, basei, u))
      ensures uix < 0 ==> table.Entries() == old(table.Entries())
      ensures table.urli == old(table.urli) + 1 ==> table.Entries()[..uix] == old(table.Entries())
      ensures FindFrom(table.hash, old(table.Entries()), u, 0) < 0 && 0 <= uix ==> table.urli == old(table.urli) + 1
    {
      hide Strip, FindFrom, TableOk, Added, Found, Matches, NewOf, Counted;
      ghost var es := table.Entries();
      uix := table.AddUrl(bhops, basei, u, done);
      AddedNew(table.hash, table.maxhops, es, table.admitted(u), bhops, basei, u, done, uix, table.Entries());
      if table.admitted(u) && Distant(es, bhops, basei) <= table.maxhops {
        AddedFound(table.hash, table.maxhops, es, bhops, basei, u, done, uix, table.Entries());
      }
      WithinAdded(table.hash, table.maxhops, es, table.admitted(u), bhops, basei, u, done, uix, table.Entries(), all);
    }

    method Setdone(uix: int, u: url, done: byte, ghost all: set<url>)
      requires Ready(all) && done != DONE_NOTYET && uix < table.urli
      modifies table.urls
      ensures Kept(all) && table.urli == old(table.urli) && table.urls == old(table.urls)
      ensures 0 <= uix && done == DONE_INDEXED ==> table.Entries()[uix].done == DONE_INDEXED
      ensures var es := old(table.Entries());
              var i := if uix < 0 then FindFrom(table.hash, es, u, 0) else uix;
              table.Entries() == if i < 0 || es[i].done == DONE_INDEXED then es else es[i := es[i].(done := done)]
    {
      hide Strip, FindFrom, TableOk;
      var r := table.SetdoneUrl(uix, u, done);
    }

    // The links of a page have entries.
    ghost predicate Linked(p: Page)
      reads table, table.urls
      requires table.urli <= table.urls.Length
    {
      LinksIn(table.hash, table.maxhops, table.admitted, p, table.Entries())
    }

    /** `scanlinks`: the base of a page and its links get entries. */
    method Scanlinks(p: Page, ghost all: set<url>) returns (ghost base: int)
      requires Ready(all) && Leads(p, norm, all)
      modifies table`urls, table`urli, table`counted, table.urls
      ensures Kept(all) && Linked(p)
      ensures -1 <= base < table.urli && (0 <= base ==> Matches(table.hash, table.Entries()[base], norm(p.base)))
      ensures table.admitted(norm(p.base)) && 0 <= table.maxhops ==> 0 <= base
      ensures AllFromPage(table.Entries(), old(table.urli), base, p.links)
      ensures NearFound(table.hash, table.maxhops, table.admitted, table.Entries(), base, p.links)
    {
      hide Strip, TableOk, Found, Evolves, Within, AllFromPage, NearFound, Matches, NewOf, Counted;
      ghost var es := table.Entries();
      var basei := Add(0, -1, norm(p.base), DONE_BASE, all);
      base := basei;
      NoLinks(table.hash, table.maxhops, table.admitted, p, table.Entries());
      NoneFromPage(table.Entries(), |es|, basei);
      NoneNear(table.hash, table.maxhops, table.admitted, table.Entries(), basei);
      assert p.links[..0] == [];
      for i := 0 to |p.links|
        invariant Kept(all) && basei < table.urli && Linked(p.(links := p.links[..i]))
        invariant 0 <= basei ==> Matches(table.hash, table.Entries()[basei], norm(p.base))
        invariant AllFromPage(table.Entries(), |es|, basei, p.links[..i])
        invariant NearFound(table.hash, table.maxhops, table.admitted, table.Entries(), basei, p.links[..i])
      {
        ghost var es1 := table.Entries();
        var l := p.links[i];
        var uix := Add(if l.bhops == 0 then 0 else -1, basei, l.url, DONE_NOTYET, all);
        EvolvesOn(es, es1, table.Entries());
        if 0 <= basei { MatchStays(table.hash, es1, table.Entries(), basei, norm(p.base)); }
        NextNear(table.hash, table.maxhops, table.admitted, es1, table.Entries(), basei, p.links[..i], l);
        NextFromPage(es1, table.Entries(), |es|, basei, p.links[..i], l);
        assert p.links[..i + 1] == p.links[..i] + [l];
        OneLink(table.hash, table.maxhops, table.admitted, p, i, es1, table.Entries());
      }
      assert p.links[..|p.links|] == p.links;
    }

    /** A URL was redirected: both get a mark. */
    method Redirect(uix: int, u: url, x: url, ghost all: set<url>) returns (xuix: int)
      requires Ready(all) && uix < table.urli && Strip(x) in all
      modifies table`urls, table`urli, table`counted, table.urls
      ensures Kept(all) && -1 <= xuix < table.urli
      ensures table.urli == old(table.urli)
              || (table.urli == old(table.urli) + 1 && xuix == old(table.urli)
                  && var i := if uix < 0 then FindFrom(table.hash, old(table.Entries()), u, 0) else uix;
                  NewOf(table.Entries(), xuix, if i < 0 then 0 else old(table.Entries())[i].hops, -1, x))
      ensures 0 <= xuix ==> Matches(table.hash, table.Entries()[xuix], x)
                            && (table.Entries()[xuix].done == 4 || table.Entries()[xuix].done == 16)
      ensures 0 <= uix && uix != xuix ==> table.Entries()[uix].done == 3 || table.Entries()[uix].done == 16
    {
      hide Strip, TableOk, FindFrom, NewOf, Matches, Counted, Evolves, Within;
      ghost var es0 := table.Entries();
      Setdone(uix, u, DONE_REDIRECT, all);
      ghost var es1 := table.Entries();
      var crc;
      xuix, crc := table.FindUrl(x);
      FindFirst(table.hash, es1, x, 0);
      ghost var from := if uix < 0 then FindFrom(table.hash, es0, u, 0) else uix;
      if xuix < 0 {
        var i, hops := uix, 0;
        if i < 0 { i, crc := table.FindUrl(u); }
        if 0 <= i < table.urli { hops := table.urls[i].hops; }
        FindSame(table.hash, es0, es1, u);
        assert hops == if from < 0 then 0 else es0[from].hops;
        xuix := Add(hops, -1, x, DONE_REDIRECTED, all);
        EvolvesOn(es0, es1, table.Entries());
      }
      ghost var es2 := table.Entries();
      assert 0 <= uix ==> es2[uix].done == es1[uix].done by {
        if |es2| == |es1| + 1 { assert es2[..|es1|] == es1; }
      }
      Setdone(xuix, x, DONE_REDIRECTED, all);
      if xuix >= 0 {
        MatchStays(table.hash, es2, table.Entries(), xuix, x);
        if |es1| < |es2| {
          NewOfStays(es2, table.Entries(), xuix, if from < 0 then 0 else es0[from].hops, -1, x);
        }
      }
      EvolvesOn(es0, es2, table.Entries());
    }

    /** One URL: fetched, indexed, and its links added. */
    method Visit(uix0: int, u0: url, ghost all: set<url>)
      requires Ready(all) && Closed(all) && uix0 < table.urli
      modifies table`urls, table`urli, table`counted, table.urls
      ensures Kept(all)
      ensures var p := fetch(norm(u0), visits);
              && (p.got && follow ==> Linked(p))
              && (p.got && p.redirect.None? && 0 <= uix0 ==> Indexed(table.hash, table.Entries(), uix0, norm(u0)))
    {
      hide Strip, TableOk, FindFrom, Evolves, Within, Indexed, Leads, LinksIn;
      ghost var es0 := table.Entries();
      EvolvesSame(es0);
      var u, uix := norm(u0), uix0;
      var p := fetch(u, visits);
      assert Leads(p, norm, all);
      if p.redirect.Some? && norm(p.redirect.url) != u {
        var x := norm(p.redirect.url);
        RedirectIn(p, norm, all);
        uix := Redirect(uix, u, x, all);
        u := x;
      }
      if p.got {
        Index(uix, u, all, es0);
        if follow {
          ghost var es2 := table.Entries();
          ghost var base := Scanlinks(p, all);
          EvolvesOn(es0, es2, table.Entries());
          if 0 <= uix { IndexedStays(table.hash, es2, table.Entries(), uix, u); }
        }
      }
    }

    // The page is indexed, unless an entry for its URL says that it has been.
    method Index(uix: int, u: url, ghost all: set<url>, ghost es0: seq<UrlScan>)
      requires Ready(all) && uix < table.urli && Evolves(es0, table.Entries())
      modifies table.urls
      ensures Kept(all) && Evolves(es0, table.Entries()) && table.urls == old(table.urls)
      ensures 0 <= uix ==> Indexed(table.hash, table.Entries(), uix, u)
    {
      hide Strip, TableOk, FindFrom, Within, Evolves;
      ghost var es1 := table.Entries();
      EvolvesSame(es1);
      var i, crc := table.FindUrl(u);
      if i < 0 || table.urls[i].done != DONE_INDEXED {
        Setdone(uix, u, DONE_INDEXED, all);
        EvolvesOn(es0, es1, table.Entries());
        assert 0 <= uix ==> table.Entries()[uix].done == DONE_INDEXED;
      } else {
        FindFirst(table.hash, es1, u, 0);
        assert es1[i].done == DONE_INDEXED;
      }
    }

    // All that was fetched has its links in the table.
    ghost predicate Complete()
      reads this, table, table.urls
      requires table.urli <= table.urls.Length
    {
      forall j | 0 <= j < |log| ::
        var p := fetch(norm(log[j].u), log[j].t); p.got && follow ==> Linked(p)
    }

    // A URL is excluded or visited.
    method Handle(uix: int, u: url, ghost all: set<url>)
      requires Ready(all) && Closed(all) && uix < table.urli && Complete()
      modifies this, table`urls, table`urli, table`counted, table.urls
      ensures Ready(all) && Evolves(old(table.Entries()), table.Entries()) && Complete()
      ensures table.handed == old(table.handed) && visits == old(visits) + 1
      ensures log == old(log) + (if verdict(u) == DONE_NOTYET then [Seen(u, visits)] else [])
      ensures table.urls == old(table.urls) || fresh(table.urls)
    {
      hide Strip, TableOk, Evolves, Within, Indexed, Leads, LinksIn;
      ghost var es := table.Entries();
      visits := visits + 1;
      var v := verdict(u);
      if v != DONE_NOTYET {
        Setdone(uix, u, v, all);
      } else {
        Visit(uix, u, all);
      }
      LogStays(table.hash, table.maxhops, table.admitted, this.fetch, norm, follow, log, es, table.Entries());
      if v == DONE_NOTYET { log := log + [Seen(u, visits)]; }
    }

    /** The next URL to visit: a link, or else a listed one. */
    method Next(rest: seq<url>, ghost all: set<url>) returns (more: bool, uix: int, u: url, rest': seq<url>)
      requires Ready(all) && forall u | u in rest :: Strip(u) in all
      modifies table, table.urls
      ensures Ready(all) && Evolves(old(table.Entries()), table.Entries()) && uix < table.urli
      ensures table.urls == old(table.urls) || fresh(table.urls)
      ensures |rest'| <= |rest| <= |rest'| + 1 && forall x | x in rest' :: x in rest
      ensures |table.handed| == |old(table.handed)| + (if more && |rest'| == |rest| then 1 else 0)
      ensures !more ==> rest' == rest == [] && Done(table.Entries())
                        && table.Entries() == old(table.Entries()) && table.handed == old(table.handed)
      ensures old(Complete()) ==> Complete()
      ensures more && |rest'| == |rest| ==>
                HandedOut(old(table.Entries()), table.Entries())
                && 0 <= uix && u == table.Entries()[uix].url && table.handed == old(table.handed) + [uix]
      ensures more && |rest'| < |rest| ==> rest == [u] + rest' && table.handed == old(table.handed)
      ensures |rest'| == |rest| ==> rest' == rest
    {
      hide Strip, TableOk, FindFrom, LinksIn;
      var referer;
      rest', more := rest, true;
      ghost var es := table.Entries();
      uix, u, referer := table.Getnextlink();
      if uix < 0 {
        if rest == [] { return false, uix, u, rest'; }
        u, rest' := rest[0], rest[1..];
        uix := Add(0, 0, u, DONE_SCANNED, all);
      } else {
        assert es[uix].done == DONE_NOTYET != table.Entries()[uix].done;
      }
      LogStays(table.hash, table.maxhops, table.admitted, this.fetch, norm, follow, log, es, table.Entries());
    }

    /** The loop of `scanUrls`: links first, then the listed URLs. On a finite link graph it
        ends, after at most as many visits as there are listed URLs and URLs that differ by
        more than a trailing slash; nothing is left to be done; every listed URL and every URL
        handed out was fetched unless it is excluded, and each link of a fetched page into the
        realm of the crawl has an entry. */
    method ScanUrls(flist: seq<url>, ghost all: set<url>)
      requires Ready(all) && Closed(all) && Complete() && forall u | u in flist :: Strip(u) in all
      modifies this, table, table.urls
      ensures Ready(all) && Evolves(old(table.Entries()), table.Entries()) && Done(table.Entries())
      ensures Complete() && Fetched(verdict, log, flist, table.handed, |old(table.handed)|, table.Entries())
      ensures table.urli <= |all|
      ensures visits == old(visits) + |flist| + |table.handed| - |old(table.handed)|
      ensures |table.handed| <= table.urli
    {
      hide Strip, TableOk, FindFrom, NotYet, Evolves, Within, Done, HandedOut, Leads, Matches, LinksIn, Fetched;
      var rest := flist;
      ghost var es0, handed0 := table.Entries(), |table.handed|;
      EvolvesSame(es0);
      FetchedNone(verdict, log, table.handed, es0);
      assert flist[..0] == [];
      while true
        invariant Ready(all) && Evolves(es0, table.Entries()) && Complete() && |rest| <= |flist|
        invariant table.urls == old(table.urls) || fresh(table.urls)
        invariant flist == flist[..|flist| - |rest|] + rest && forall u | u in rest :: Strip(u) in all
        invariant visits == old(visits) + (|flist| - |rest|) + |table.handed| - handed0
        invariant |table.handed| >= handed0
        invariant Fetched(verdict, log, flist[..|flist| - |rest|], table.handed, handed0, table.Entries())
        decreases |all| - table.urli, NotYet(table.Entries()) + |rest|
      {
        ghost var es1, rest1, handed1, log1 := table.Entries(), rest, table.handed, log;
        TableDistinct(table.hash, table.maxhops, es1, all);
        var more, uix, u;
        more, uix, u, rest := Next(rest, all);
        ghost var es2 := table.Entries();
        EvolvesOn(es0, es1, es2);
        if !more { break; }
        Handle(uix, u, all);
        Progress(es0, es1, es2, table.Entries());
        ListedNext(flist, rest1, rest, u);
        EvolvesOn(es1, es2, table.Entries());
        EvolvesUrl(es2, table.Entries(), uix);
        FetchedNext(verdict, log1, log, flist[..|flist| - |rest1|], flist[..|flist| - |rest|], handed1, table.handed,
          handed0, es1, table.Entries(), uix, u, visits);
      }
      assert flist[..|flist|] == flist;
      TableDistinct(table.hash, table.maxhops, table.Entries(), all);
      HandedOnce(table.handed, table.urli);
    }
  }

  /** The listed URLs, and the URLs handed out from some point on, were fetched, unless they are
      excluded. */
  ghost predicate Fetched(verdict: url -> byte, log: seq<Seen>, listed: seq<url>, handed: seq<nat>, from: nat,
                          es: seq<UrlScan>)
  {
    && (forall k | 0 <= k < |handed| :: handed[k] < |es|)
    && (forall u | u in listed && verdict(u) == DONE_NOTYET :: InLog(log, u))
    && (forall k | from <= k < |handed| && verdict(es[handed[k]].url) == DONE_NOTYET :: InLog(log, es[handed[k]].url))
  }

  lemma FetchedNone(verdict: url -> byte, log: seq<Seen>, handed: seq<nat>, es: seq<UrlScan>)
    requires forall k | 0 <= k < |handed| :: handed[k] < |es|
    ensures Fetched(verdict, log, [], handed, |handed|, es)
  {
  }

  lemma InLogMore(log: seq<Seen>, more: seq<Seen>, u: url)
    requires InLog(log, u)
    ensures InLog(log + more, u)
  {
    var j :| 0 <= j < |log| && log[j].u == u;
    assert (log + more)[j].u == u;
  }

  lemma InLogLast(log: seq<Seen>, u: url, t: nat)
    ensures InLog(log + [Seen(u, t)], u)
  {
    assert (log + [Seen(u, t)])[|log|].u == u;
  }

  // The last URL taken is handled.
  lemma FetchedNext(verdict: url -> byte, log: seq<Seen>, log': seq<Seen>, listed: seq<url>, listed': seq<url>,
                    handed: seq<nat>, handed': seq<nat>, from: nat, es: seq<UrlScan>, es': seq<UrlScan>,
                    uix: int, u: url, t: nat)
    requires Fetched(verdict, log, listed, handed, from, es) && Evolves(es, es')
    requires log' == log + (if verdict(u) == DONE_NOTYET then [Seen(u, t)] else [])
    requires || (listed' == listed && 0 <= uix < |es'| && handed' == handed + [uix] && es'[uix].url == u)
             || (listed' == listed + [u] && handed' == handed)
    ensures Fetched(verdict, log', listed', handed', from, es')
  {
    hide InLog;
    if verdict(u) == DONE_NOTYET { InLogLast(log, u, t); }
    forall v | InLog(log, v)
      ensures InLog(log', v)
    {
      InLogMore(log, if verdict(u) == DONE_NOTYET then [Seen(u, t)] else [], v);
    }
    assert forall k | 0 <= k < |handed| :: es'[handed[k]].url == es[handed[k]].url;
  }

  // The part of the list that has been read.
  lemma ListedNext(flist: seq<url>, rest: seq<url>, rest': seq<url>, u: url)
    requires |rest| <= |flist| && flist == flist[..|flist| - |rest|] + rest
    requires rest' == rest || rest == [u] + rest'
    ensures flist == flist[..|flist| - |rest'|] + rest'
    ensures flist[..|flist| - |rest'|] == flist[..|flist| - |rest|] + (if rest' == rest then [] else [u])
  {
    if rest' != rest {
      assert flist == flist[..|flist| - |rest|] + [u] + rest';
    }
  }

  ghost predicate Done(es: seq<UrlScan>) {
    forall i | 0 <= i < |es| :: es[i].done != DONE_NOTYET
  }

  ghost predicate HandedOut(a: seq<UrlScan>, b: seq<UrlScan>) {
    exists i | 0 <= i < |a| <= |b| :: a[i].done == DONE_NOTYET != b[i].done
  }

  lemma EvolvesUrl(a: seq<UrlScan>, b: seq<UrlScan>, i: int)
    requires Evolves(a, b)
    ensures 0 <= i < |a| ==> |a| <= |b| && b[i].url == a[i].url
  {
  }

  lemma EvolvesSame(es: seq<UrlScan>)
    ensures Evolves(es, es)
  {
  }

  lemma WithinAdded(hash: url -> int, limit: int, es: seq<UrlScan>, admitted: bool, bhops: int, basei: int, u: url,
                    done: byte, uix: int, es': seq<UrlScan>, all: set<url>)
    requires 0 < basei ==> basei < |es|
    requires Added(hash, limit, es, admitted, bhops, basei, u, done, uix, es')
    requires Within(es, all) && Strip(u) in all
    ensures Within(es', all)
  {
    hide Strip, FindFrom;
  }

  lemma NoLinks(hash: url -> int, limit: int, admitted: url -> bool, p: Page, es: seq<UrlScan>)
    ensures LinksIn(hash, limit, admitted, p.(links := p.links[..0]), es)
  {
  }

  lemma OneLink(hash: url -> int, limit: int, admitted: url -> bool, p: Page, i: nat, es: seq<UrlScan>,
                es': seq<UrlScan>)
    requires i < |p.links| && LinksIn(hash, limit, admitted, p.(links := p.links[..i]), es) && Evolves(es, es')
    requires 0 <= limit && p.links[i].bhops == 0 && admitted(p.links[i].url) ==> Found(hash, es', p.links[i].url)
    ensures LinksIn(hash, limit, admitted, p.(links := p.links[..i + 1]), es')
  {
    hide Evolves, Found;
    LinksStay(hash, limit, admitted, p.(links := p.links[..i]), es, es');
    assert p.links[..i + 1] == p.links[..i] + [p.links[i]];
  }

  lemma RedirectIn(p: Page, norm: url -> url, all: set<url>)
    requires Leads(p, norm, all) && p.redirect.Some?
    ensures Strip(norm(p.redirect.url)) in all
  {
  }

  lemma LogStays(hash: url -> int, limit: int, admitted: url -> bool, fetch: (url, nat) -> Page, norm: url -> url,
                 follow: bool, log: seq<Seen>, es: seq<UrlScan>, es': seq<UrlScan>)
    requires Evolves(es, es')
    ensures forall j | 0 <= j < |log| ::
              var p := fetch(norm(log[j].u), log[j].t);
              LinksIn(hash, limit, admitted, p, es) ==> LinksIn(hash, limit, admitted, p, es')
  {
    hide Evolves, LinksIn;
    forall j | 0 <= j < |log|
      ensures var p := fetch(norm(log[j].u), log[j].t);
              LinksIn(hash, limit, admitted, p, es) ==> LinksIn(hash, limit, admitted, p, es')
    {
      var p := fetch(norm(log[j].u), log[j].t);
      if LinksIn(hash, limit, admitted, p, es) { LinksStay(hash, limit, admitted, p, es, es'); }
    }
  }

  lemma TableDistinct(hash: url -> int, limit: int, es: seq<UrlScan>, all: set<url>)
    requires TableOk(hash, limit, es) && Within(es, all)
    ensures |es| <= |all|
  {
    AtMost(es, all);
  }

  // A round that adds no entry leaves no more to hand out, and less when one was handed out.
  lemma Progress(a: seq<UrlScan>, b: seq<UrlScan>, c: seq<UrlScan>, d: seq<UrlScan>)
    requires Evolves(a, b) && Evolves(b, c) && Evolves(c, d)
    ensures Evolves(a, d) && |b| <= |d|
    ensures |b| == |d| ==> NotYet(d) <= NotYet(b)
    ensures |b| == |d| && HandedOut(b, c) ==> NotYet(d) < NotYet(b)
  {
    EvolvesOn(b, c, d);
    EvolvesOn(a, b, d);
    if |b| == |d| {
      NotYetEvolves(b, c);
      NotYetEvolves(c, d);
    }
  }

  // Distinct indices below n are no more than n.
  lemma HandedOnce(handed: seq<nat>, n: nat)
    requires forall k | 0 <= k < |handed| :: handed[k] < n
    requires forall j, k | 0 <= j < k < |handed| :: handed[j] != handed[k]
    ensures |handed| <= n
  {
    HandedIn(handed, Below(n));
  }

  lemma {:induction false} HandedIn(handed: seq<nat>, all: set<nat>)
    requires forall k | 0 <= k < |handed| :: handed[k] in all
    requires forall j, k | 0 <= j < k < |handed| :: handed[j] != handed[k]
    ensures |handed| <= |all|
    decreases |handed|
  {
    if handed != [] {
      var n := |handed| - 1;
      HandedIn(handed[..n], all - {handed[n]});
    }
  }
}
