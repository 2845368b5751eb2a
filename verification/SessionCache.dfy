/** The TLS session cache that processes share through one locked file: `loadScache`,
    `loadSessions`, `saveSessionsA` and `clearCache` of delegate/filters/sslway.cpp.

    The file is modelled byte by byte: a header and an index of at most 32 entries at
    SC_BASE, and one record of 2048 bytes for each entry from SC_XBASE on.  Every process
    keeps its own copy of the index, which grows stale when other processes save or clear.  */
module SessionCache {
  import opened Bytes
  import opened SharedFile

  const SC_MAX: nat := 32
  const SC_ESIZE: nat := 2048
  const SESSION: nat := 52
  const SC_BSIZE: nat := 1996
  const SC_BASE: nat := 0x4000
  const SC_XBASE: nat := 0x1_0000
  const HEADER: nat := 12
  const SID: nat := 32

  // --- the structures in the file -----------------------------------------------------

  type Word16 = v: nat | v < 0x1_0000
  type Word32 = v: nat | v < 0x1_0000_0000

  datatype SessionFields = Session(
    what: byte, flags: byte, leng: Word16, date: Word32,
    svaddr: Word32, claddr: Word32, ver: Word32, sid: bytes)

  type Session = s: SessionFields | |s.sid| == SID
    witness Session(0, 0, 0, 0, 0, 0, 0, Zeros(SID))

  const NO_SESSION: Session := Session(0, 0, 0, 0, 0, 0, 0, Zeros(SID))

  function Encode(s: Session): (b: bytes)
    ensures |b| == SESSION
  {
    [s.what, s.flags] + (Le(s.leng, 2) + (Le(s.date, 4) + (Le(s.svaddr, 4)
      + (Le(s.claddr, 4) + (Le(s.ver, 4) + s.sid)))))
  }

  function Decode(b: bytes): (s: Session)
    requires |b| == SESSION
  {
    WordSizes();
    Session(b[0], b[1], FromLe(b[2..4]), FromLe(b[4..8]), FromLe(b[8..12]), FromLe(b[12..16]),
            FromLe(b[16..20]), b[20..])
  }

  lemma WordSizes()
    ensures Pow256(2) == 0x1_0000 && Pow256(4) == 0x1_0000_0000
  {
    assert Pow256(3) == 0x100_0000;
  }

  lemma DecodeEncode(s: Session)
    ensures Decode(Encode(s)) == s
  {
    WordSizes();
    LeRoundTrip(s.leng, 2);
    LeRoundTrip(s.date, 4);
    LeRoundTrip(s.svaddr, 4);
    LeRoundTrip(s.claddr, 4);
    LeRoundTrip(s.ver, 4);
    var t5 := Le(s.ver, 4) + s.sid;
    var t4 := Le(s.claddr, 4) + t5;
    var t3 := Le(s.svaddr, 4) + t4;
    var t2 := Le(s.date, 4) + t3;
    var t1 := Le(s.leng, 2) + t2;
    var b := Encode(s);
    Cut([s.what, s.flags], t1, b, 2, Le(s.leng, 2), t2);
    Cut(b[..4], t2, b, 4, Le(s.date, 4), t3);
    Cut(b[..8], t3, b, 8, Le(s.svaddr, 4), t4);
    Cut(b[..12], t4, b, 12, Le(s.claddr, 4), t5);
    Cut(b[..16], t5, b, 16, Le(s.ver, 4), s.sid);
  }

  // Cuts the next field off what follows position k.
  lemma Cut(a: bytes, t: bytes, b: bytes, k: nat, field: bytes, rest: bytes)
    requires b == a + t && k == |a| && t == field + rest
    ensures b[k..k + |field|] == field && b[k + |field|..] == rest
    ensures b == b[..k + |field|] + rest
  {
  }

  function Flatten(idx: seq<Session>): (b: bytes)
    ensures |b| == SESSION * |idx|
  {
    if idx == [] then [] else Encode(idx[0]) + Flatten(idx[1..])
  }

  // The header: size of the index in bytes, number of entries, process id.
  function Header(n: nat, pid: Word32): (b: bytes)
    requires n <= SC_MAX
    ensures |b| == HEADER
  {
    Le(n * SESSION, 4) + Le(n, 4) + Le(pid, 4)
  }

  // A signed 32-bit word.
  function Int32(b: bytes): int
    requires |b| == 4
  {
    var v := FromLe(b);
    if v < 0x8000_0000 then v else v - 0x1_0000_0000
  }

  // --- a process and its steps ----------------------------------------------------------

  // The private copy of the index: an array of 32 entries, of which `cached` are in use.
  datatype ProcFields = Proc(cache: seq<Session>, cached: nat)

  type Proc = p: ProcFields | |p.cache| == SC_MAX && p.cached <= SC_MAX
    witness Proc(seq(SC_MAX, i => NO_SESSION), 0)

  function Private(p: Proc): seq<Session> { p.cache[..p.cached] }

  // Reading bytes over an array of entries; the last entry may be overwritten in part.
  function Overlay(cache: seq<Session>, d: bytes): (r: seq<Session>)
    ensures |r| == |cache|
  {
    if d == [] || cache == [] then cache
    else if |d| < SESSION then [Decode(d + Encode(cache[0])[|d|..])] + cache[1..]
    else [Decode(d[..SESSION])] + Overlay(cache[1..], d[SESSION..])
  }

  /** `loadScache`: the private index after an attempt to read the index of file f, and
      whether the attempt succeeded. */
  function LoadIndex(f: bytes, p: Proc): (r: (bool, Proc)) {
    var h := ReadAt(f, SC_BASE, HEADER);
    if |h| != HEADER then (false, p)
    else
      var size := Int32(h[..4]);
      if size <= 0 || SESSION * SC_MAX < size then (false, p)
      else
        var d := ReadAt(f, SC_BASE + HEADER, size);
        var cache := Overlay(p.cache, d);
        if |d| < SESSION || |d| % SESSION != 0 then (false, p.(cache := cache))
        else (true, Proc(cache, |d| / SESSION))
  }

  // What a caller wants to save.
  datatype Request = Request(sid: bytes, content: bytes, what: byte, date: Word32,
                             svaddr: Word32, claddr: Word32, ver: Word32)

  predicate Acceptable(q: Request) {
    0 < |q.sid| <= SID && 0 < |q.content| < SC_BSIZE
  }

  function PadSid(sid: bytes): (r: bytes)
    requires |sid| <= SID
    ensures |r| == SID
  {
    sid + Zeros(SID - |sid|)
  }

  // The new id is compared with an entry over its own length only.
  predicate Hit(e: Session, sid: bytes)
    requires |sid| <= SID
  {
    e.sid[..|sid|] == sid
  }

  predicate HasHit(idx: seq<Session>, sid: bytes)
    requires |sid| <= SID
  {
    exists i | 0 <= i < |idx| :: Hit(idx[i], sid)
  }

  // The first entry of the least date below 0xFFFFFFFF, or 0.
  function Oldest(idx: seq<Session>): (oi: nat)
    ensures idx != [] ==> oi < |idx|
  {
    if |idx| <= 1 then 0
    else
      var o := Oldest(idx[..|idx| - 1]);
      if idx[|idx| - 1].date < idx[o].date then |idx| - 1 else o
  }

  // One more entry for the search to look at.
  lemma SearchStep(idx: seq<Session>, n: nat, sid: bytes)
    requires n < |idx| && |sid| <= SID
    ensures HasHit(idx[..n + 1], sid) <==> HasHit(idx[..n], sid) || Hit(idx[n], sid)
    ensures Hit(idx[n], sid) ==> HasHit(idx, sid)
    ensures var o := Oldest(idx[..n]);
            Oldest(idx[..n + 1]) == if n == 0 then 0 else if idx[n].date < idx[o].date then n else o
  {
    var a, b := idx[..n + 1], idx[..n];
    assert a[..n] == b;
    assert forall i | 0 <= i < n :: a[i] == b[i];
  }

  lemma SearchNone(idx: seq<Session>, sid: bytes)
    requires |sid| <= SID
    ensures !HasHit(idx[..0], sid)
  {
  }

  function NewEntry(q: Request, flags: byte): Session
    requires Acceptable(q)
  {
    Session(q.what, flags, |q.content|, q.date, q.svaddr, q.claddr, q.ver, PadSid(q.sid))
  }

  // The slot a new entry takes, given the private index.
  function SlotFor(p: Proc): (nsi: nat)
    ensures nsi < SC_MAX
  {
    if p.cached == SC_MAX then Oldest(p.cache) else p.cached
  }

  function WriteEntry(f: bytes, cache: seq<Session>, n: nat, pid: Word32, nsi: nat, content: bytes): bytes
    requires |cache| == SC_MAX && nsi < n <= SC_MAX
  {
    ThreeWrites(f, Header(n, pid), Flatten(cache[..n]),
                SC_XBASE + nsi * SC_ESIZE, Encode(cache[nsi]) + content)
  }

  function ThreeWrites(f: bytes, head: bytes, index: bytes, slot: nat, record: bytes): bytes {
    var g := WriteAt(f, SC_BASE, head);
    var h := WriteAt(g, SC_BASE + HEADER, index);
    WriteAt(h, slot, record)
  }

  // The array and the number of entries after the new entry has taken its slot.
  function Slotted(p: Proc, q: Request): (r: (seq<Session>, nat))
    requires Acceptable(q)
    ensures |r.0| == SC_MAX && SlotFor(p) < r.1 <= SC_MAX
  {
    var nsi := SlotFor(p);
    (p.cache[nsi := NewEntry(q, p.cache[nsi].flags)],
     if p.cached == SC_MAX then SC_MAX else p.cached + 1)
  }

  /** `saveSessionsA`: reload the index, and unless the id is there already, put the entry
      and its record. */
  function Save(f: bytes, p: Proc, pid: Word32, q: Request): (r: (bytes, Proc)) {
    var p1 := LoadIndex(f, p).1;
    if !Acceptable(q) || HasHit(Private(p1), q.sid) then (f, p1)
    else
      var (cache, n) := Slotted(p1, q);
      (WriteEntry(f, cache, n, pid, SlotFor(p1), q.content), p1.(cache := cache))
  }

  // The record of entry i, if the file has one that matches the entry.
  datatype Record = NoRecord | Found(content: bytes)

  function ReadRecord(f: bytes, e: Session, i: nat): Record {
    if e.leng == 0 || SESSION + SC_BSIZE < SESSION + e.leng then NoRecord
    else
      var b := ReadAt(f, SC_XBASE + i * SC_ESIZE, SESSION + e.leng);
      if |b| != SESSION + e.leng then NoRecord
      else
        var x := Decode(b[..SESSION]);
        if x.leng != e.leng || x.sid != e.sid then NoRecord else Found(b[SESSION..])
  }

  // --- what a file holds ------------------------------------------------------------------

  /** What the file means: nothing, or an index with a record or none for each entry. */
  datatype Cache = Nothing | Stored(index: seq<Session>, records: seq<Record>)

  function RecordAt(i: nat): nat { SC_XBASE + i * SC_ESIZE }

  ghost predicate HoldsRecord(f: bytes, i: nat, e: Session, r: Record) {
    match r
    case NoRecord => Blank(f, RecordAt(i), SC_ESIZE)
    case Found(c) => |c| == e.leng <= SC_BSIZE && Carries(f, RecordAt(i), Encode(e) + c)
  }

  ghost predicate Represents(f: bytes, c: Cache) {
    match c
    case Nothing => |f| <= SC_BASE
    case Stored(idx, rec) =>
      && 0 < |idx| == |rec| <= SC_MAX
      && SC_BASE + HEADER <= |f|
      && Carries(f, SC_BASE, Le(|idx| * SESSION, 4))
      && Carries(f, SC_BASE + HEADER, Flatten(idx))
      && (forall i: nat | i < |idx| :: HoldsRecord(f, i, idx[i], rec[i]))
      && (forall i: nat | |idx| <= i < SC_MAX :: Blank(f, RecordAt(i), SC_ESIZE))
  }

  /** At most 32 entries with distinct ids, each of a length that can be stored. */
  ghost predicate IndexOk(idx: seq<Session>) {
    && |idx| <= SC_MAX
    && (forall i | 0 <= i < |idx| :: 0 < idx[i].leng < SC_BSIZE)
    && (forall i, j | 0 <= i < j < |idx| :: idx[i].sid != idx[j].sid)
  }

  // --- reading back -------------------------------------------------------------------------

  lemma OverlayNone(cache: seq<Session>)
    ensures Overlay(cache, []) == cache
  {
  }

  lemma OverlayStep(cache: seq<Session>, s: Session, rest: bytes)
    requires cache != []
    ensures Overlay(cache, Encode(s) + rest) == [s] + Overlay(cache[1..], rest)
  {
    var d := Encode(s) + rest;
    DecodeEncode(s);
    assert d[..SESSION] == Encode(s) && d[SESSION..] == rest;
  }

  lemma {:induction false} OverlayFlat(cache: seq<Session>, idx: seq<Session>)
    requires |idx| <= |cache|
    ensures Overlay(cache, Flatten(idx)) == idx + cache[|idx|..]
    decreases |idx|
  {
    hide Overlay, Encode, Decode;
    if idx == [] {
      OverlayNone(cache);
    } else {
      OverlayStep(cache, idx[0], Flatten(idx[1..]));
      OverlayFlat(cache[1..], idx[1..]);
      assert cache[1..][|idx| - 1..] == cache[|idx|..];
    }
  }

  lemma LoadNothing(f: bytes, p: Proc)
    requires |f| <= SC_BASE
    ensures LoadIndex(f, p) == (false, p)
  {
  }

  lemma SizeWord(n: nat)
    requires 0 < n <= SC_MAX
    ensures Int32(Le(n * SESSION, 4)) == n * SESSION
  {
    WordSizes();
    LeRoundTrip(n * SESSION, 4);
  }

  lemma LoadHeader(f: bytes, n: nat)
    requires 0 < n <= SC_MAX && SC_BASE + HEADER <= |f| && Carries(f, SC_BASE, Le(n * SESSION, 4))
    ensures var h := ReadAt(f, SC_BASE, HEADER); |h| == HEADER && Int32(h[..4]) == n * SESSION
  {
    var h, d := ReadAt(f, SC_BASE, HEADER), Le(n * SESSION, 4);
    CarriesRead(f, SC_BASE, d, 4);
    assert |h| == HEADER && ReadAt(f, SC_BASE, 4) == h[..4] && d[..4] == d;
    SizeWord(n);
  }

  /** Every process that reads a file that represents an index gets that index. */
  lemma LoadStored(f: bytes, c: Cache, p: Proc)
    requires c.Stored? && Represents(f, c)
    ensures LoadIndex(f, p) == (true, Proc(c.index + p.cache[|c.index|..], |c.index|))
  {
    hide Represents, Carries, Flatten, Overlay, ReadAt, Le, Int32;
    var n, d := |c.index|, Flatten(c.index);
    StoredFile(f, c);
    LoadHeader(f, n);
    CarriesRead(f, SC_BASE + HEADER, d, |d|);
    assert d[..|d|] == d;
    OverlayFlat(p.cache, c.index);
    Entries(n);
  }

  lemma StoredFile(f: bytes, c: Cache)
    requires c.Stored? && Represents(f, c)
    ensures 0 < |c.index| <= SC_MAX && SC_BASE + HEADER <= |f|
    ensures Carries(f, SC_BASE, Le(|c.index| * SESSION, 4)) && Carries(f, SC_BASE + HEADER, Flatten(c.index))
  {
    hide Carries, Flatten, Le, HoldsRecord, Blank;
  }

  lemma Entries(n: nat)
    requires 0 < n <= SC_MAX
    ensures 0 < n * SESSION <= SESSION * SC_MAX && n * SESSION >= SESSION
    ensures (n * SESSION) % SESSION == 0 && (n * SESSION) / SESSION == n
  {
  }

  lemma ReadFound(f: bytes, i: nat, e: Session, content: bytes)
    requires HoldsRecord(f, i, e, Found(content)) && 0 < e.leng < SC_BSIZE
    ensures ReadRecord(f, e, i) == Found(content)
  {
    var d := Encode(e) + content;
    CarriesRead(f, RecordAt(i), d, |d|);
    assert d[..|d|] == d && d[..SESSION] == Encode(e) && d[SESSION..] == content;
    DecodeEncode(e);
  }

  lemma ReadBlank(f: bytes, i: nat, e: Session)
    requires Blank(f, RecordAt(i), SC_ESIZE)
    ensures ReadRecord(f, e, i) == NoRecord
  {
    if 0 < e.leng <= SC_BSIZE {
      var b := ReadAt(f, RecordAt(i), SESSION + e.leng);
      BlankRead(f, RecordAt(i), SC_ESIZE, SESSION + e.leng);
      if |b| == SESSION + e.leng {
        assert b[..SESSION][2] == 0 && b[..SESSION][3] == 0;
        assert b[..SESSION][2..4] == Zeros(2);
        assert FromLe(Zeros(2)[1..]) == 0;
      }
    }
  }

  /** A load of entry i gives exactly the record the file holds for it. */
  lemma ReadRecordIs(f: bytes, c: Cache, i: nat)
    requires c.Stored? && Represents(f, c) && IndexOk(c.index) && i < |c.index|
    ensures ReadRecord(f, c.index[i], i) == c.records[i]
  {
    assert HoldsRecord(f, i, c.index[i], c.records[i]);
    match c.records[i]
    case NoRecord => ReadBlank(f, i, c.index[i]);
    case Found(content) => ReadFound(f, i, c.index[i], content);
  }

  // --- writing ------------------------------------------------------------------------------

  // The record of slot i before a write.
  function OldRecord(c: Cache, i: nat): Record {
    if c.Stored? && i < |c.records| then c.records[i] else NoRecord
  }

  // What a file means after entry nsi of the n entries of `cache` has been written.
  function Put(c: Cache, cache: seq<Session>, n: nat, nsi: nat, content: bytes): (r: Cache)
    requires nsi < n <= |cache|
    ensures r.Stored? && |r.records| == n
  {
    Stored(cache[..n], seq(n, i requires 0 <= i < n => if i == nsi then Found(content) else OldRecord(c, i)))
  }

  // The private index agrees with the index in the file, if there is one.
  ghost predicate Agrees(c: Cache, cache: seq<Session>, n: nat, nsi: nat) {
    && nsi < n <= |cache| == SC_MAX
    && (c.Stored? ==>
          && |c.index| <= n
          && forall i | 0 <= i < |c.index| && i != nsi :: cache[i] == c.index[i])
  }

  // What lies beyond the index and outside the slot passes through the three writes.
  lemma ThreeWritesKeep(f: bytes, head: bytes, index: bytes, slot: nat, record: bytes, o: nat, e: bytes)
    requires |head| == HEADER && |index| <= SC_MAX * SESSION && |record| <= SC_ESIZE && |e| <= SC_ESIZE
    requires SC_XBASE <= o && (o + SC_ESIZE <= slot || slot + SC_ESIZE <= o)
    ensures Carries(f, o, e) ==> Carries(ThreeWrites(f, head, index, slot, record), o, e)
    ensures Blank(f, o, SC_ESIZE) ==> Blank(ThreeWrites(f, head, index, slot, record), o, SC_ESIZE)
  {
    var g := WriteAt(f, SC_BASE, head);
    var h := WriteAt(g, SC_BASE + HEADER, index);
    var k := WriteAt(h, slot, record);
    WriteAtWrote(f, SC_BASE, head);
    WriteAtWrote(g, SC_BASE + HEADER, index);
    WriteAtWrote(h, slot, record);
    if Carries(f, o, e) {
      WriteKeepsCarries(f, SC_BASE, head, g, o, e);
      WriteKeepsCarries(g, SC_BASE + HEADER, index, h, o, e);
      WriteKeepsCarries(h, slot, record, k, o, e);
    }
    if Blank(f, o, SC_ESIZE) {
      WriteKeepsBlank(f, SC_BASE, head, g, o, SC_ESIZE);
      WriteKeepsBlank(g, SC_BASE + HEADER, index, h, o, SC_ESIZE);
      WriteKeepsBlank(h, slot, record, k, o, SC_ESIZE);
    }
  }

  // What the three writes put stands afterwards: header, index and record do not overlap.
  lemma ThreeWritesPut(f: bytes, head: bytes, index: bytes, slot: nat, record: bytes)
    requires |head| == HEADER && |index| <= SC_MAX * SESSION && SC_XBASE <= slot
    ensures var k := ThreeWrites(f, head, index, slot, record);
            && SC_BASE + HEADER <= |k| && Carries(k, SC_BASE, head)
            && Carries(k, SC_BASE + HEADER, index) && Carries(k, slot, record)
  {
    var g := WriteAt(f, SC_BASE, head);
    var h := WriteAt(g, SC_BASE + HEADER, index);
    var k := WriteAt(h, slot, record);
    WriteAtWrote(f, SC_BASE, head);
    WriteAtWrote(g, SC_BASE + HEADER, index);
    WriteAtWrote(h, slot, record);
    WriteCarries(f, SC_BASE, head, g);
    WriteKeepsCarries(g, SC_BASE + HEADER, index, h, SC_BASE, head);
    WriteKeepsCarries(h, slot, record, k, SC_BASE, head);
    WriteCarries(g, SC_BASE + HEADER, index, h);
    WriteKeepsCarries(h, slot, record, k, SC_BASE + HEADER, index);
    WriteCarries(h, slot, record, k);
  }

  // The record a file holds for slot i, whatever entry is asked for if there is none.
  lemma OldRecordHeld(f: bytes, c: Cache, i: nat, e: Session)
    requires Represents(f, c) && i < SC_MAX
    requires c.Stored? && i < |c.index| ==> e == c.index[i]
    ensures HoldsRecord(f, i, e, OldRecord(c, i))
  {
    if c.Stored? && i < |c.index| {
      assert HoldsRecord(f, i, c.index[i], c.records[i]);
    }
  }

  // Every other slot keeps its record through the three writes.
  lemma KeepsRecord(f: bytes, head: bytes, index: bytes, slot: nat, record: bytes,
                    i: nat, e: Session, r: Record)
    requires |head| == HEADER && |index| <= SC_MAX * SESSION && |record| <= SC_ESIZE
    requires RecordAt(i) + SC_ESIZE <= slot || slot + SC_ESIZE <= RecordAt(i)
    requires HoldsRecord(f, i, e, r)
    ensures HoldsRecord(ThreeWrites(f, head, index, slot, record), i, e, r)
  {
    match r
    case NoRecord => ThreeWritesKeep(f, head, index, slot, record, RecordAt(i), []);
    case Found(c) => ThreeWritesKeep(f, head, index, slot, record, RecordAt(i), Encode(e) + c);
  }

  // Records never overlap.
  lemma Apart(i: nat, j: nat)
    requires i != j
    ensures RecordAt(i) + SC_ESIZE <= RecordAt(j) || RecordAt(j) + SC_ESIZE <= RecordAt(i)
  {
  }

  lemma CarriesFront(f: bytes, at: nat, a: bytes, b: bytes)
    requires Carries(f, at, a + b)
    ensures Carries(f, at, a)
  {
    assert forall i | 0 <= i < |a| :: (a + b)[i] == a[i];
  }

  lemma WriteHeader(f: bytes, cache: seq<Session>, n: nat, pid: Word32, nsi: nat, content: bytes)
    requires |cache| == SC_MAX && nsi < n <= SC_MAX
    ensures var k := WriteEntry(f, cache, n, pid, nsi, content);
            && SC_BASE + HEADER <= |k|
            && Carries(k, SC_BASE, Le(n * SESSION, 4))
            && Carries(k, SC_BASE + HEADER, Flatten(cache[..n]))
            && Carries(k, RecordAt(nsi), Encode(cache[nsi]) + content)
  {
    hide ThreeWrites, Flatten, Encode, Le;
    ThreeWritesPut(f, Header(n, pid), Flatten(cache[..n]), RecordAt(nsi), Encode(cache[nsi]) + content);
    var head, size := Header(n, pid), Le(n * SESSION, 4);
    assert head == size + (Le(n, 4) + Le(pid, 4));
    CarriesFront(WriteEntry(f, cache, n, pid, nsi, content), SC_BASE, size, Le(n, 4) + Le(pid, 4));
  }

  /** The three writes of a save turn a file that means c into one that means c with the entry
      and its record put - the writes never touch anything else. */
  lemma WriteRepresents(f: bytes, c: Cache, cache: seq<Session>, n: nat, pid: Word32, nsi: nat, content: bytes)
    requires Represents(f, c) && Agrees(c, cache, n, nsi)
    requires |content| == cache[nsi].leng && SESSION + |content| <= SC_ESIZE
    ensures Represents(WriteEntry(f, cache, n, pid, nsi, content), Put(c, cache, n, nsi, content))
  {
    var k := WriteEntry(f, cache, n, pid, nsi, content);
    var r := Put(c, cache, n, nsi, content);
    var head, index, record := Header(n, pid), Flatten(cache[..n]), Encode(cache[nsi]) + content;
    WriteHeader(f, cache, n, pid, nsi, content);
    forall i: nat | i < n ensures HoldsRecord(k, i, r.index[i], r.records[i]) {
      if i != nsi {
        OldRecordHeld(f, c, i, cache[i]);
        Apart(i, nsi);
        KeepsRecord(f, head, index, RecordAt(nsi), record, i, cache[i], OldRecord(c, i));
      }
    }
    forall i: nat | n <= i < SC_MAX ensures Blank(k, RecordAt(i), SC_ESIZE) {
      OldRecordHeld(f, c, i, NO_SESSION);
      Apart(i, nsi);
      KeepsRecord(f, head, index, RecordAt(nsi), record, i, NO_SESSION, NoRecord);
    }
  }

  // --- one save ---------------------------------------------------------------------------

  // The private copy after an attempt to load: the index of the file, or what it was.
  function Loaded(c: Cache, p: Proc): Proc
    requires c.Stored? ==> |c.index| <= SC_MAX
  {
    if c.Stored? then Proc(c.index + p.cache[|c.index|..], |c.index|) else p
  }

  lemma LoadIs(f: bytes, c: Cache, p: Proc)
    requires Represents(f, c)
    ensures LoadIndex(f, p) == (c.Stored?, Loaded(c, p))
  {
    if c.Stored? { LoadStored(f, c, p); } else { LoadNothing(f, p); }
  }

  /** Whether a save puts an entry. */
  predicate Puts(c: Cache, p: Proc, q: Request)
    requires c.Stored? ==> |c.index| <= SC_MAX
  {
    Acceptable(q) && !HasHit(Private(Loaded(c, p)), q.sid)
  }

  // What the file means after a save that puts.
  function AfterPut(c: Cache, p: Proc, q: Request): (r: Cache)
    requires c.Stored? ==> |c.index| <= SC_MAX
    requires Puts(c, p, q)
    ensures r.Stored? && |r.records| == |r.index|
  {
    var (cache, n) := Slotted(Loaded(c, p), q);
    Put(c, cache, n, SlotFor(Loaded(c, p)), q.content)
  }

  lemma SlottedAgrees(c: Cache, p: Proc, q: Request)
    requires Acceptable(q) && (c.Stored? ==> Private(p) == c.index)
    ensures Agrees(c, Slotted(p, q).0, Slotted(p, q).1, SlotFor(p))
    ensures Slotted(p, q).0[SlotFor(p)].leng == |q.content|
  {
    if c.Stored? {
      forall i | 0 <= i < |c.index| && i != SlotFor(p) ensures Slotted(p, q).0[i] == c.index[i] {
        assert Private(p)[i] == p.cache[i];
      }
    }
  }

  /** A save refines the abstract put: over any file, and from any private index however stale,
      the file afterwards means the loaded index with the new entry in its slot. */
  lemma SaveRefines(f: bytes, c: Cache, p: Proc, pid: Word32, q: Request)
    requires Represents(f, c)
    ensures !Puts(c, p, q) ==> Save(f, p, pid, q) == (f, Loaded(c, p))
    ensures Puts(c, p, q) ==>
              Represents(Save(f, p, pid, q).0, AfterPut(c, p, q))
              && Private(Save(f, p, pid, q).1) == AfterPut(c, p, q).index[..Loaded(c, p).cached]
  {
    LoadIs(f, c, p);
    if Puts(c, p, q) {
      PutRefines(f, c, Loaded(c, p), pid, q);
    }
  }

  lemma PutRefines(f: bytes, c: Cache, p: Proc, pid: Word32, q: Request)
    requires Represents(f, c) && Acceptable(q) && (c.Stored? ==> Private(p) == c.index)
    ensures var (cache, n) := Slotted(p, q);
            && Represents(WriteEntry(f, cache, n, pid, SlotFor(p), q.content),
                          Put(c, cache, n, SlotFor(p), q.content))
            && cache[..p.cached] == cache[..n][..p.cached]
  {
    var (cache, n) := Slotted(p, q);
    assert cache[..p.cached] == cache[..n][..p.cached];
    SlottedAgrees(c, p, q);
    hide Represents, WriteEntry, Slotted, Put, Private;
    WriteRepresents(f, c, cache, n, pid, SlotFor(p), q.content);
  }

  lemma PadDiffers(e: Session, sid: bytes)
    requires |sid| <= SID && !Hit(e, sid)
    ensures e.sid != PadSid(sid)
  {
    assert PadSid(sid)[..|sid|] == sid;
  }

  /** The new id differs from every other one, so the index stays in order. */
  lemma PutIndexOk(c: Cache, p: Proc, q: Request)
    requires c.Stored? ==> IndexOk(c.index)
    requires IndexOk(Private(p)) && Puts(c, p, q)
    ensures IndexOk(AfterPut(c, p, q).index)
  {
    var p1 := Loaded(c, p);
    var r := AfterPut(c, p, q).index;
    var nsi := SlotFor(p1);
    assert IndexOk(Private(p1));
    forall i | 0 <= i < |r| && i != nsi
      ensures r[i] == Private(p1)[i] && r[i].sid != r[nsi].sid
    {
      assert !Hit(Private(p1)[i], q.sid);
      PadDiffers(r[i], q.sid);
    }
  }

  // --- many processes -----------------------------------------------------------------------

  /** The shared file, the processes, and what has been saved so far: pairs of id and bytes. */
  datatype World = World(file: bytes, procs: seq<Proc>, saved: set<(bytes, bytes)>)

  /** Under the lock a process tries to load the index, saves, or clears the cache. */
  datatype Event =
    | Load(c: nat)
    | Store(c: nat, pid: Word32, q: Request)
    | Clear

  // Whether a save stores: the request can be stored and its id is not in the loaded index.
  predicate Stores(f: bytes, p: Proc, q: Request) {
    Acceptable(q) && !HasHit(Private(LoadIndex(f, p).1), q.sid)
  }

  predicate Enabled(w: World, e: Event) {
    e.Clear? || e.c < |w.procs|
  }

  function Step(w: World, e: Event): World
    requires Enabled(w, e)
  {
    match e
    case Load(c) => w.(procs := w.procs[c := LoadIndex(w.file, w.procs[c]).1])
    case Store(c, pid, q) =>
      var (f, p) := Save(w.file, w.procs[c], pid, q);
      World(f, w.procs[c := p],
            if Stores(w.file, w.procs[c], q) then w.saved + {(PadSid(q.sid), q.content)} else w.saved)
    case Clear => w.(file := [])
  }

  ghost predicate Run(w: World, trace: seq<Event>, v: World)
    decreases |trace|
  {
    if trace == [] then w == v
    else Enabled(w, trace[0]) && Run(Step(w, trace[0]), trace[1..], v)
  }

  /** The records are what was saved under the ids of their entries. */
  ghost predicate CacheOk(c: Cache, saved: set<(bytes, bytes)>) {
    c.Stored? ==>
      && IndexOk(c.index) && |c.records| == |c.index|
      && forall i | 0 <= i < |c.records| && c.records[i].Found? ::
           (c.index[i].sid, c.records[i].content) in saved
  }

  ghost predicate FileOk(w: World, c: Cache) {
    Represents(w.file, c) && CacheOk(c, w.saved)
  }

  ghost predicate Inv(w: World) {
    && (exists c :: FileOk(w, c))
    && forall k | 0 <= k < |w.procs| :: IndexOk(Private(w.procs[k]))
  }

  lemma PutCacheOk(c: Cache, p: Proc, q: Request, saved: set<(bytes, bytes)>)
    requires CacheOk(c, saved) && IndexOk(Private(p))
    requires c.Stored? ==> |c.index| <= SC_MAX
    requires Puts(c, p, q)
    ensures CacheOk(AfterPut(c, p, q), saved + {(PadSid(q.sid), q.content)})
  {
    PutIndexOk(c, p, q);
    var p1, r := Loaded(c, p), AfterPut(c, p, q);
    var nsi := SlotFor(p1);
    forall i | 0 <= i < |r.records| && r.records[i].Found?
      ensures (r.index[i].sid, r.records[i].content) in saved + {(PadSid(q.sid), q.content)}
    {
      if i != nsi {
        assert r.records[i] == OldRecord(c, i);
        assert r.index[i] == c.index[i];
      }
    }
  }

  lemma StoreInv(w: World, k: nat, pid: Word32, q: Request, c: Cache)
    requires Inv(w) && k < |w.procs| && FileOk(w, c)
    ensures Inv(Step(w, Store(k, pid, q)))
  {
    hide Represents, Save, Puts, AfterPut, Loaded, Acceptable;
    var p, v := w.procs[k], Step(w, Store(k, pid, q));
    StoresIs(w.file, c, p, q);
    SaveRefines(w.file, c, p, pid, q);
    if Puts(c, p, q) {
      PutCacheOk(c, p, q, w.saved);
      PutIndexOk(c, p, q);
      assert FileOk(v, AfterPut(c, p, q));
      AfterLonger(c, p, q);
      IndexOkPrefix(AfterPut(c, p, q).index, Loaded(c, p).cached);
    } else {
      assert FileOk(v, c);
      LoadedOk(c, p);
    }
  }

  // A save keeps what it stores just when it puts.
  lemma StoresIs(f: bytes, c: Cache, p: Proc, q: Request)
    requires Represents(f, c)
    ensures Stores(f, p, q) <==> Puts(c, p, q)
  {
    hide Represents, LoadIndex;
    LoadIs(f, c, p);
  }

  lemma AfterLonger(c: Cache, p: Proc, q: Request)
    requires (c.Stored? ==> |c.index| <= SC_MAX) && Puts(c, p, q)
    ensures Loaded(c, p).cached <= |AfterPut(c, p, q).index|
  {
    hide Puts, Encode;
  }

  lemma LoadedOk(c: Cache, p: Proc)
    requires (c.Stored? ==> IndexOk(c.index)) && IndexOk(Private(p))
    ensures IndexOk(Private(Loaded(c, p)))
  {
  }

  lemma IndexOkPrefix(idx: seq<Session>, n: nat)
    requires IndexOk(idx) && n <= |idx|
    ensures IndexOk(idx[..n])
  {
  }

  lemma {:induction false} StepInv(w: World, e: Event)
    requires Inv(w) && Enabled(w, e)
    ensures Inv(Step(w, e))
  {
    match e
    case Store(k, pid, q) =>
      var c :| FileOk(w, c);
      StoreInv(w, k, pid, q, c);
    case Load(k) =>
      var c :| FileOk(w, c);
      LoadIs(w.file, c, w.procs[k]);
      assert FileOk(Step(w, e), c);
      assert IndexOk(Private(Loaded(c, w.procs[k])));
    case Clear =>
      assert FileOk(Step(w, e), Nothing);
  }

  /** The invariant holds over every run of locked steps by any number of processes. */
  lemma {:induction false} RunInv(w: World, trace: seq<Event>, v: World)
    requires Inv(w) && Run(w, trace, v)
    ensures Inv(v)
    decreases |trace|
  {
    if trace != [] {
      StepInv(w, trace[0]);
      RunInv(Step(w, trace[0]), trace[1..], v);
    }
  }

  /** An empty cache file and processes that have loaded nothing. */
  ghost predicate Start(w: World) {
    |w.file| <= SC_BASE && w.saved == {} && forall k | 0 <= k < |w.procs| :: w.procs[k].cached == 0
  }

  ghost predicate Reachable(v: World) {
    exists w, trace :: Start(w) && Run(w, trace, v)
  }

  lemma ReachableInv(v: World)
    requires Reachable(v)
    ensures Inv(v)
  {
    var w, trace :| Start(w) && Run(w, trace, v);
    assert FileOk(w, Nothing);
    RunInv(w, trace, v);
  }

  // --- results ------------------------------------------------------------------------------

  /** Whatever a process loads, at any point of any run: at most 32 entries with distinct ids;
      and each record read back is bytes that some save stored under that entry's id. */
  lemma LoadsOnlyWhatWasSaved(v: World, p: Proc)
    requires Reachable(v)
    ensures var (ok, p') := LoadIndex(v.file, p);
            ok ==>
              && IndexOk(Private(p'))
              && forall i | 0 <= i < p'.cached ::
                   var r := ReadRecord(v.file, p'.cache[i], i);
                   r.Found? ==> |r.content| == p'.cache[i].leng && (p'.cache[i].sid, r.content) in v.saved
  {
    ReachableInv(v);
    var c :| FileOk(v, c);
    LoadIs(v.file, c, p);
    if c.Stored? {
      var p' := Loaded(c, p);
      assert Private(p') == c.index;
      forall i | 0 <= i < p'.cached
        ensures var r := ReadRecord(v.file, p'.cache[i], i);
                r.Found? ==> |r.content| == p'.cache[i].leng && (p'.cache[i].sid, r.content) in v.saved
      {
        assert p'.cache[i] == c.index[i];
        ReadRecordIs(v.file, c, i);
        assert HoldsRecord(v.file, i, c.index[i], c.records[i]);
      }
    }
  }

  /** A saved session is found by the next load of any process. */
  lemma SaveThenLoad(v: World, k: nat, pid: Word32, q: Request, p: Proc)
    requires Reachable(v) && k < |v.procs| && Stores(v.file, v.procs[k], q)
    ensures var w := Step(v, Store(k, pid, q));
            var (ok, p') := LoadIndex(w.file, p);
            && ok
            && exists i :: 0 <= i < p'.cached && p'.cache[i].sid == PadSid(q.sid)
                           && p'.cache[i].what == q.what && p'.cache[i].date == q.date
                           && p'.cache[i].svaddr == q.svaddr && p'.cache[i].claddr == q.claddr
                           && p'.cache[i].ver == q.ver
                           && ReadRecord(w.file, p'.cache[i], i) == Found(q.content)
  {
    ReachableInv(v);
    var c :| FileOk(v, c);
    var o, w := v.procs[k], Step(v, Store(k, pid, q));
    LoadIs(v.file, c, o);
    SaveRefines(v.file, c, o, pid, q);
    PutCacheOk(c, o, q, v.saved);
    var r, nsi := AfterPut(c, o, q), SlotFor(Loaded(c, o));
    LoadIs(w.file, r, p);
    ReadRecordIs(w.file, r, nsi);
    var p' := Loaded(r, p);
    assert p'.cache[nsi] == r.index[nsi];
  }

  lemma {:induction false} OldestIsOldest(idx: seq<Session>)
    requires idx != []
    ensures forall i | 0 <= i < |idx| :: idx[Oldest(idx)].date <= idx[i].date
    ensures forall i | 0 <= i < Oldest(idx) :: idx[Oldest(idx)].date < idx[i].date
    decreases |idx|
  {
    if |idx| > 1 {
      var front := idx[..|idx| - 1];
      OldestIsOldest(front);
      forall i | 0 <= i < |idx| ensures idx[Oldest(idx)].date <= idx[i].date {
        if i < |front| { assert front[i] == idx[i]; }
      }
    }
  }

  /** A save adds its entry and loses none, unless the loaded index is full: then it loses
      exactly one, no entry is older than that one, and those in front of it are younger. */
  lemma OnlyOldestLost(c: Cache, p: Proc, q: Request)
    requires c.Stored? ==> |c.index| <= SC_MAX
    requires Puts(c, p, q)
    ensures var old', new' := Private(Loaded(c, p)), AfterPut(c, p, q).index;
            exists nsi: nat | nsi < |new'| ::
              && new'[nsi] == Session(q.what, Loaded(c, p).cache[nsi].flags, |q.content|, q.date,
                                      q.svaddr, q.claddr, q.ver, new'[nsi].sid)
              && q.sid <= new'[nsi].sid && (forall i | |q.sid| <= i < 32 :: new'[nsi].sid[i] == 0)
              && (|old'| < 32 ==> new' == old' + [new'[nsi]])
              && (|old'| == 32 ==>
                    && new' == old'[nsi := new'[nsi]]
                    && (forall i | 0 <= i < |old'| :: old'[nsi].date <= old'[i].date)
                    && (forall i | 0 <= i < nsi :: old'[nsi].date < old'[i].date))
  {
    var p1 := Loaded(c, p);
    var old', new', nsi := Private(p1), AfterPut(c, p, q).index, SlotFor(p1);
    if p1.cached == SC_MAX {
      assert old' == p1.cache;
      OldestIsOldest(p1.cache);
      assert new' == old'[nsi := new'[nsi]];
    } else {
      assert new' == old' + [new'[nsi]];
    }
  }

  // --- the program --------------------------------------------------------------------------

  const XACC: byte := 0
  const XCON: byte := 1

  // What a load looks for: as a client the first session of this server and client, as a
  // server every session of this client.  `parses` says which bytes the library accepts.
  datatype Want = Want(what: byte, svaddr: Word32, claddr: Word32, parses: bytes -> bool)

  predicate Wanted(e: Session, w: Want) {
    if w.what == XCON then e.what == XCON && e.svaddr == w.svaddr && e.claddr == w.claddr
    else w.what == XACC && e.what == XACC && (e.svaddr == 0 || e.svaddr == w.svaddr) && e.claddr == w.claddr
  }

  // What a load hands to the library for entry i: its record, or nothing.
  function Offer(f: bytes, e: Session, i: nat, w: Want): (o: seq<bytes>)
    ensures |o| <= 1
  {
    var r := ReadRecord(f, e, i);
    if r.Found? && w.parses(r.content) && Wanted(e, w) then [r.content] else []
  }

  // The sessions a load hands to the library, from entry i on.
  function Offers(f: bytes, idx: seq<Session>, i: nat, w: Want): seq<bytes>
    requires i <= |idx|
    decreases |idx| - i
  {
    if i == |idx| then []
    else
      var o := Offer(f, idx[i], i, w);
      o + (if o != [] && w.what == XCON then [] else Offers(f, idx, i + 1, w))
  }

  // --- the bytes of the file ------------------------------------------------------------------

  lemma WordBytes(v: nat)
    ensures Le(v, 2) == [v % 256, v / 256 % 256]
    ensures Le(v, 4) == [v % 256, v / 256 % 256, v / 256 / 256 % 256, v / 256 / 256 / 256 % 256]
  {
    LeTwo(v);
    LeTwo(v / 256 / 256);
    assert Le(v, 4) == [v % 256] + ([v / 256 % 256] + Le(v / 256 / 256, 2));
  }

  lemma LeTwo(v: nat)
    ensures Le(v, 2) == [v % 256, v / 256 % 256]
  {
    assert Le(v / 256, 1) == [v / 256 % 256] + Le(v / 256 / 256, 0);
  }

  /** Where the fields of an entry stand. */
  lemma EntryBytes(e: Session)
    ensures var b := Encode(e);
            && b[0] == e.what && b[1] == e.flags && b[2..4] == Le(e.leng, 2) && b[4..8] == Le(e.date, 4)
            && b[8..12] == Le(e.svaddr, 4) && b[12..16] == Le(e.claddr, 4) && b[16..20] == Le(e.ver, 4)
            && b[20..52] == e.sid
  {
    hide Le;
  }

  lemma {:induction false} FlattenAt(idx: seq<Session>, i: nat)
    requires i < |idx|
    ensures |Flatten(idx)| == 52 * |idx| && Flatten(idx)[52 * i..52 * i + 52] == Encode(idx[i])
    decreases i
  {
    hide Encode;
    var a, rest := Encode(idx[0]), Flatten(idx[1..]);
    assert Flatten(idx) == a + rest;
    if i > 0 {
      FlattenAt(idx[1..], i - 1);
      assert (a + rest)[52 * i..52 * i + 52] == rest[52 * (i - 1)..52 * (i - 1) + 52];
    }
  }

  lemma CarriesPart(f: bytes, at: nat, d: bytes, i: nat, j: nat)
    requires Carries(f, at, d) && i <= j <= |d|
    ensures Carries(f, at + i, d[i..j])
  {
    forall k: nat | k < j - i ensures At(f, at + i + k) == d[i..j][k] {
      assert At(f, at + (i + k)) == d[i + k];
    }
  }

  // What three writes leave alone.
  lemma ThreeWritesElse(f: bytes, head: bytes, index: bytes, slot: nat, record: bytes, x: nat)
    requires !(SC_BASE <= x < SC_BASE + |head|) && !(SC_BASE + HEADER <= x < SC_BASE + HEADER + |index|)
    requires !(slot <= x < slot + |record|)
    ensures At(ThreeWrites(f, head, index, slot, record), x) == At(f, x)
  {
    var g := WriteAt(f, SC_BASE, head);
    var h := WriteAt(g, SC_BASE + HEADER, index);
    WriteAtWrote(f, SC_BASE, head);
    WriteAtWrote(g, SC_BASE + HEADER, index);
    WriteAtWrote(h, slot, record);
  }

  /** What a save writes, byte by byte: the sizes and the process id at 0x4000, the entries of 52
      bytes behind them, the entry with its content in its slot of 2048 bytes from 0x10000 on, and
      nothing else. */
  lemma SavedBytes(f: bytes, cache: seq<Session>, n: nat, pid: Word32, nsi: nat, content: bytes)
    requires |cache| == 32 && nsi < n <= 32
    ensures var k := WriteEntry(f, cache, n, pid, nsi, content);
            && Carries(k, 0x4000, Le(52 * n, 4)) && Carries(k, 0x4004, Le(n, 4)) && Carries(k, 0x4008, Le(pid, 4))
            && (forall i: nat | i < n :: Carries(k, 0x400C + 52 * i, Encode(cache[i])))
            && Carries(k, 0x1_0000 + 2048 * nsi, Encode(cache[nsi]) + content)
            && (forall x: nat | !(0x4000 <= x < 0x400C + 52 * n)
                                && !(0x1_0000 + 2048 * nsi <= x < 0x1_0000 + 2048 * nsi + 52 + |content|) ::
                  At(k, x) == At(f, x))
  {
    hide ThreeWrites, Flatten, Encode, Le, Carries, WriteAt, At;
    var k := WriteEntry(f, cache, n, pid, nsi, content);
    var head, index, record := Header(n, pid), Flatten(cache[..n]), Encode(cache[nsi]) + content;
    ThreeWritesPut(f, head, index, RecordAt(nsi), record);
    CarriesPart(k, 0x4000, head, 0, 4);
    CarriesPart(k, 0x4000, head, 4, 8);
    CarriesPart(k, 0x4000, head, 8, 12);
    HeaderParts(n, pid);
    forall i: nat | i < n ensures Carries(k, 0x400C + 52 * i, Encode(cache[i])) {
      FlattenAt(cache[..n], i);
      CarriesPart(k, 0x400C, index, 52 * i, 52 * i + 52);
    }
    forall x: nat | !(0x4000 <= x < 0x400C + 52 * n)
                    && !(0x1_0000 + 2048 * nsi <= x < 0x1_0000 + 2048 * nsi + 52 + |content|)
      ensures At(k, x) == At(f, x)
    {
      ThreeWritesElse(f, head, index, RecordAt(nsi), record, x);
    }
  }

  lemma HeaderParts(n: nat, pid: Word32)
    requires n <= 32
    ensures var h := Header(n, pid); h[0..4] == Le(52 * n, 4) && h[4..8] == Le(n, 4) && h[8..12] == Le(pid, 4)
  {
    hide Le;
  }

  // --- what is offered ------------------------------------------------------------------------

  predicate Ascending(ks: seq<nat>) { forall j, k | 0 <= j < k < |ks| :: ks[j] < ks[k] }

  /** What a server takes: a session it accepted (0) from this client, at this address or at
      none, with a record that the library parses. */
  predicate ServerTakes(e: Session, r: Record, w: Want) {
    && e.what == 0 && (e.svaddr == 0 || e.svaddr == w.svaddr) && e.claddr == w.claddr
    && r.Found? && w.parses(r.content)
  }

  /** What a client takes: a session it made (1) to this server, as this client, with a record
      that the library parses. */
  predicate ClientTakes(e: Session, r: Record, w: Want) {
    && e.what == 1 && e.svaddr == w.svaddr && e.claddr == w.claddr
    && r.Found? && w.parses(r.content)
  }

  /** The records of all sessions a server takes, in the order of the index from entry i on. */
  ghost predicate ServerOffers(c: Cache, i: nat, w: Want, offers: seq<bytes>)
    requires c.Stored? && |c.index| == |c.records|
  {
    exists ks :: OffersOf(c, i, w, ks, offers)
  }

  /** The numbers ks are those of the sessions taken, and the offers their records. */
  ghost predicate OffersOf(c: Cache, i: nat, w: Want, ks: seq<nat>, offers: seq<bytes>)
    requires c.Stored? && |c.index| == |c.records|
  {
    && Ascending(ks) && |ks| == |offers|
    && (forall j | 0 <= j < |ks| :: i <= ks[j] < |c.index| && ServerTakes(c.index[ks[j]], c.records[ks[j]], w))
    && (forall j | 0 <= j < |ks| :: c.records[ks[j]] == Found(offers[j]))
    && (forall k: nat | i <= k < |c.index| && ServerTakes(c.index[k], c.records[k], w) :: k in ks)
  }

  /** The record of the first session a client takes from entry i on, or nothing. */
  ghost predicate ClientOffers(c: Cache, i: nat, w: Want, offers: seq<bytes>)
    requires c.Stored? && |c.index| == |c.records|
  {
    || (offers == [] && forall k: nat | i <= k < |c.index| :: !ClientTakes(c.index[k], c.records[k], w))
    || (exists k: nat | i <= k < |c.index| ::
          && ClientTakes(c.index[k], c.records[k], w) && offers == [c.records[k].content]
          && forall j: nat | i <= j < k :: !ClientTakes(c.index[j], c.records[j], w))
  }

  // What is handed out for one entry.
  lemma OfferIs(f: bytes, c: Cache, i: nat, w: Want)
    requires c.Stored? && Represents(f, c) && IndexOk(c.index) && i < |c.index|
    ensures |c.index| == |c.records|
    ensures var e, r, o := c.index[i], c.records[i], Offer(f, c.index[i], i, w);
            && (w.what == 0 ==> if ServerTakes(e, r, w) then o == [r.content] else o == [])
            && (w.what == 1 ==> if ClientTakes(e, r, w) then o == [r.content] else o == [])
            && (w.what > 1 ==> o == [])
  {
    hide ReadRecord, IndexOk;
    ReadRecordIs(f, c, i);
  }

  // What is handed out from entry i on.
  lemma OffersStep(f: bytes, idx: seq<Session>, i: nat, w: Want)
    requires i <= |idx|
    ensures i == |idx| ==> Offers(f, idx, i, w) == []
    ensures i < |idx| ==>
              var o, more := Offer(f, idx[i], i, w), Offers(f, idx, i + 1, w);
              Offers(f, idx, i, w) == if o != [] && w.what == 1 then o else o + more
  {
    hide Offer;
    if i < |idx| {
      var o := Offer(f, idx[i], i, w);
      assert o + [] == o;
    }
  }

  lemma ServerStep(c: Cache, i: nat, w: Want, more: seq<bytes>)
    requires c.Stored? && |c.index| == |c.records| && i < |c.index| && ServerOffers(c, i + 1, w, more)
    ensures !ServerTakes(c.index[i], c.records[i], w) ==> ServerOffers(c, i, w, more)
    ensures ServerTakes(c.index[i], c.records[i], w) ==> ServerOffers(c, i, w, [c.records[i].content] + more)
  {
    hide ServerTakes, OffersOf;
    var ks :| OffersOf(c, i + 1, w, ks, more);
    if ServerTakes(c.index[i], c.records[i], w) {
      OneMore(c, i, w, ks, more);
    } else {
      SameFrom(c, i, w, ks, more);
    }
  }

  lemma OneMore(c: Cache, i: nat, w: Want, ks: seq<nat>, more: seq<bytes>)
    requires c.Stored? && |c.index| == |c.records| && i < |c.index| && OffersOf(c, i + 1, w, ks, more)
    requires ServerTakes(c.index[i], c.records[i], w)
    ensures c.records[i].Found? && OffersOf(c, i, w, [i] + ks, [c.records[i].content] + more)
  {
    assert c.records[i].Found?;
    hide ServerTakes;
    var ls := [i] + ks;
    forall k: nat | i <= k < |c.index| && ServerTakes(c.index[k], c.records[k], w) ensures k in ls {
      assert k == ls[0] || k in ks;
    }
  }

  lemma SameFrom(c: Cache, i: nat, w: Want, ks: seq<nat>, more: seq<bytes>)
    requires c.Stored? && |c.index| == |c.records| && i < |c.index| && OffersOf(c, i + 1, w, ks, more)
    requires !ServerTakes(c.index[i], c.records[i], w)
    ensures OffersOf(c, i, w, ks, more)
  {
    hide ServerTakes;
  }

  lemma ClientStep(c: Cache, i: nat, w: Want, more: seq<bytes>)
    requires c.Stored? && |c.index| == |c.records| && i < |c.index| && ClientOffers(c, i + 1, w, more)
    requires !ClientTakes(c.index[i], c.records[i], w)
    ensures ClientOffers(c, i, w, more)
  {
    hide ClientTakes;
  }

  /** A server is offered the record of every session it takes, in the order of the index; a
      client that of the first session it takes, or nothing; any other caller nothing. */
  lemma {:induction false} OffersAre(f: bytes, c: Cache, i: nat, w: Want)
    requires c.Stored? && Represents(f, c) && IndexOk(c.index) && i <= |c.index|
    ensures |c.index| == |c.records|
    ensures w.what == 0 ==> ServerOffers(c, i, w, Offers(f, c.index, i, w))
    ensures w.what == 1 ==> ClientOffers(c, i, w, Offers(f, c.index, i, w))
    ensures w.what > 1 ==> Offers(f, c.index, i, w) == []
    decreases |c.index| - i
  {
    hide Represents, IndexOk, Offer, Offers, ServerTakes, ClientTakes, ServerOffers, ClientOffers;
    OffersStep(f, c.index, i, w);
    if i == |c.index| {
      SameLength(f, c);
      NoneLeft(c, w);
    } else {
      OfferIs(f, c, i, w);
      var more := Offers(f, c.index, i + 1, w);
      assert [] + more == more;
      OffersAre(f, c, i + 1, w);
      if w.what == 0 {
        ServerStep(c, i, w, more);
      } else if w.what == 1 {
        if ClientTakes(c.index[i], c.records[i], w) { FirstTaken(c, i, w); } else { ClientStep(c, i, w, more); }
      }
    }
  }

  lemma SameLength(f: bytes, c: Cache)
    requires c.Stored? && Represents(f, c)
    ensures |c.index| == |c.records|
  {
    hide Carries, Flatten, Le, HoldsRecord, Blank;
  }

  lemma NoneLeft(c: Cache, w: Want)
    requires c.Stored? && |c.index| == |c.records|
    ensures ServerOffers(c, |c.index|, w, []) && ClientOffers(c, |c.index|, w, [])
  {
    assert OffersOf(c, |c.index|, w, [], []);
  }

  lemma FirstTaken(c: Cache, i: nat, w: Want)
    requires c.Stored? && |c.index| == |c.records| && i < |c.index|
    requires ClientTakes(c.index[i], c.records[i], w)
    ensures c.records[i].Found? && ClientOffers(c, i, w, [c.records[i].content])
  {
  }

  /** What a load hands out of what a file holds. */
  ghost predicate OffersFrom(c: Cache, w: Want, offers: seq<bytes>) {
    match c
    case Nothing => offers == []
    case Stored(idx, rec) =>
      && |idx| == |rec|
      && (w.what == 0 ==> ServerOffers(c, 0, w, offers))
      && (w.what == 1 ==> ClientOffers(c, 0, w, offers))
      && (w.what > 1 ==> offers == [])
  }

  lemma LoadOffers(f: bytes, p: Proc, w: Want)
    ensures var (ok, p') := LoadIndex(f, p);
            forall c | Represents(f, c) && (c.Stored? ==> IndexOk(c.index)) ::
              OffersFrom(c, w, if ok then Offers(f, Private(p'), 0, w) else [])
  {
    hide Represents, IndexOk, LoadIndex, Offers, ServerOffers, ClientOffers;
    var (ok, p') := LoadIndex(f, p);
    forall c | Represents(f, c) && (c.Stored? ==> IndexOk(c.index))
      ensures OffersFrom(c, w, if ok then Offers(f, Private(p'), 0, w) else [])
    {
      LoadIs(f, c, p);
      if c.Stored? {
        StoredFile(f, c);
        assert Private(p') == c.index;
        OffersAre(f, c, 0, w);
      }
    }
  }

  // --- what is saved --------------------------------------------------------------------------

  lemma HitIs(e: Session, sid: bytes)
    requires |sid| <= 32
    ensures Hit(e, sid) <==> sid <= e.sid
  {
    assert |e.sid| == 32;
    if sid <= e.sid { assert e.sid[..|sid|] == sid; }
  }

  /** A session is saved just when it has an id of at most 32 bytes and a content of less than
      1996, and its id is not the beginning of the id of an entry that has been loaded. */
  predicate ToSave(idx: seq<Session>, q: Request) {
    0 < |q.sid| <= 32 && 0 < |q.content| < 1996 && forall e | e in idx :: !(q.sid <= e.sid)
  }

  lemma ToSaveIs(idx: seq<Session>, q: Request)
    ensures ToSave(idx, q) <==> Acceptable(q) && !HasHit(idx, q.sid)
  {
    if Acceptable(q) {
      forall i | 0 <= i < |idx| ensures Hit(idx[i], q.sid) <==> q.sid <= idx[i].sid {
        HitIs(idx[i], q.sid);
      }
    }
  }

  /** The same of the entries that a file holds, or that are left of an earlier load when it holds
      none. */
  lemma PutsIff(f: bytes, c: Cache, p: Proc, q: Request)
    requires Represents(f, c)
    ensures (c.Stored? ==> |c.index| <= 32)
    ensures Puts(c, p, q) <==>
              0 < |q.sid| <= 32 && 0 < |q.content| < 1996
              && forall e | e in (if c.Stored? then c.index else p.cache[..p.cached]) :: !(q.sid <= e.sid)
    ensures Stores(f, p, q) <==> Puts(c, p, q)
  {
    hide Represents, LoadIndex, HasHit, Acceptable;
    if c.Stored? { StoredFile(f, c); }
    StoresIs(f, c, p, q);
    var idx := if c.Stored? then c.index else p.cache[..p.cached];
    assert Private(Loaded(c, p)) == idx;
    ToSaveIs(idx, q);
  }

  /** The shared file; every method below runs under its lock. */
  class Shared {
    var data: bytes

    constructor ()
      ensures data == []
    {
      data := [];
    }

    // Header, index and record, each at its place.
    method WriteThree(head: bytes, index: bytes, slot: nat, record: bytes)
      modifies this
      ensures data == ThreeWrites(old(data), head, index, slot, record)
    {
      data := WriteAt(data, SC_BASE, head);
      data := WriteAt(data, SC_BASE + HEADER, index);
      data := WriteAt(data, slot, record);
    }

    method ClearCache()
      modifies this
      ensures data == [] && Represents(data, Nothing)
    {
      data := [];
    }
  }

  class Process {
    const pid: Word32
    const cache: array<Session>
    var cached: nat

    ghost predicate Valid() reads this { cache.Length == SC_MAX && cached <= SC_MAX }

    ghost function Value(): (p: Proc)
      reads this, cache
      requires Valid()
    {
      Proc(cache[..], cached)
    }

    constructor (pid: Word32)
      ensures Valid() && fresh(cache) && this.pid == pid && cached == 0
    {
      this.pid := pid;
      cache := new Session[SC_MAX](_ => NO_SESSION);
      cached := 0;
    }

    // `fread` into the array.
    method ReadInto(d: bytes)
      requires Valid()
      modifies cache
      ensures cache[..] == Overlay(old(cache[..]), d)
    {
      var r := Overlay(cache[..], d);
      forall i | 0 <= i < SC_MAX { cache[i] := r[i]; }
    }

    method LoadScache(s: Shared) returns (n: int)
      requires Valid()
      modifies this, cache
      ensures Valid() && s.data == old(s.data)
      ensures (n >= 0, Value()) == LoadIndex(s.data, old(Value()))
      ensures n >= 0 ==> n == cached
    {
      var h := ReadAt(s.data, SC_BASE, HEADER);
      if |h| != HEADER { return -1; }
      var size := Int32(h[..4]);
      if size <= 0 || SESSION * SC_MAX < size { return -1; }
      var d := ReadAt(s.data, SC_BASE + HEADER, size);
      ReadInto(d);
      if |d| < SESSION || |d| % SESSION != 0 { return -1; }
      cached := |d| / SESSION;
      n := cached;
    }

    method LoadSessions(s: Shared, w: Want) returns (offers: seq<bytes>)
      requires Valid()
      modifies this, cache
      ensures Valid() && s.data == old(s.data)
      ensures Value() == LoadIndex(s.data, old(Value())).1
      ensures offers == if LoadIndex(s.data, old(Value())).0
                        then Offers(s.data, Private(Value()), 0, w) else []
      ensures forall c | Represents(s.data, c) && (c.Stored? ==> IndexOk(c.index)) :: OffersFrom(c, w, offers)
    {
      LoadOffers(s.data, Value(), w);
      hide Represents, IndexOk, OffersFrom, LoadIndex, Offers;
      var nsess := LoadScache(s);
      if nsess <= 0 { return []; }
      offers := Collect(s, w);
    }

    // The loop over the loaded index.
    method Collect(s: Shared, w: Want) returns (offers: seq<bytes>)
      requires Valid()
      ensures offers == Offers(s.data, Private(Value()), 0, w)
    {
      hide Offer, ReadRecord;
      offers := [];
      ghost var idx := Private(Value());
      ghost var whole := Offers(s.data, idx, 0, w);
      var si := 0;
      while si < cached
        invariant 0 <= si <= cached
        invariant offers + Offers(s.data, idx, si, w) == whole
      {
        var e := cache[si];
        assert idx[si] == e;
        var o := Offer(s.data, e, si, w);
        ghost var more := if o != [] && w.what == XCON then [] else Offers(s.data, idx, si + 1, w);
        assert Offers(s.data, idx, si, w) == o + more;
        assert (offers + o) + more == offers + (o + more);
        offers := offers + o;
        if o != [] && w.what == XCON { return; }
        si := si + 1;
      }
    }

    method SaveSessions(s: Shared, q: Request)
      requires Valid()
      modifies this, cache, s
      ensures Valid()
      ensures (s.data, Value()) == Save(old(s.data), old(Value()), pid, q)
      ensures var p := LoadIndex(old(s.data), old(Value())).1;
              if 0 < |q.sid| <= 32 && 0 < |q.content| < 1996 && forall e | e in p.cache[..p.cached] :: !(q.sid <= e.sid)
              then s.data == WriteEntry(old(s.data), Slotted(p, q).0, Slotted(p, q).1, pid, SlotFor(p), q.content)
              else s.data == old(s.data)
    {
      ToSaveIs(Private(LoadIndex(s.data, Value()).1), q);
      var _ := LoadScache(s);
      if !Acceptable(q) { return; }
      var hit, oi := Search(q.sid);
      if hit { return; }
      PutEntry(s, q, oi);
    }

    // Looks for the id and for the entry of the least date.
    method Search(sid: bytes) returns (hit: bool, oi: nat)
      requires Valid() && |sid| <= SID
      ensures hit <==> HasHit(Private(Value()), sid)
      ensures !hit && cached == SC_MAX ==> oi == SlotFor(Value())
    {
      hide Hit, HasHit, Oldest;
      ghost var idx := Private(Value());
      SearchNone(idx, sid);
      var oldest: nat, si := 0xFFFF_FFFF, 0;
      hit, oi := false, 0;
      while si < cached
        invariant si <= cached && (si == 0 ==> oi == 0 && oldest == 0xFFFF_FFFF)
        invariant !HasHit(idx[..si], sid)
        invariant si > 0 ==> oi == Oldest(idx[..si]) < si && oldest == idx[oi].date
      {
        SearchStep(idx, si, sid);
        var e := cache[si];
        assert idx[si] == e;
        if Hit(e, sid) {
          return true, oi;
        }
        if e.date < oldest {
          oldest := e.date;
          oi := si;
        }
        si := si + 1;
      }
      assert idx[..si] == idx;
      assert cached == SC_MAX ==> idx == cache[..];
    }

    // Puts the entry in the array, and header, index and record in the file.
    method PutEntry(s: Shared, q: Request, oi: nat)
      requires Valid() && Acceptable(q) && (cached == SC_MAX ==> oi == SlotFor(Value()))
      modifies cache, s
      ensures Value() == old(Value()).(cache := Slotted(old(Value()), q).0)
      ensures s.data == WriteEntry(old(s.data), Slotted(old(Value()), q).0, Slotted(old(Value()), q).1,
                                   pid, SlotFor(old(Value())), q.content)
    {
      hide Encode, Le, Header, Flatten, WriteAt;
      ghost var p := Value();
      var nsess, nsi := cached, oi;
      if nsess != SC_MAX {
        nsi := nsess;
        nsess := nsess + 1;
      }
      cache[nsi] := NewEntry(q, cache[nsi].flags);
      assert cache[..] == Slotted(p, q).0;
      assert cache[..nsess] == cache[..][..nsess];
      s.WriteThree(Header(nsess, pid), Flatten(cache[..nsess]), SC_XBASE + nsi * SC_ESIZE,
                   Encode(cache[nsi]) + q.content);
    }
  }
}