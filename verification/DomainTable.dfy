/** The table of levels of delegate/mimekit/gendom.cpp: every level is at least the number of
    labels, so that generalising a domain twice is generalising it once. */
module DomainTable {
  import opened DomainLevel

  type AtLeast1 = n: nat | n >= 1 witness 1
  type AtLeast2 = n: nat | n >= 2 witness 2
  type AtLeast3 = n: nat | n >= 3 witness 3

  type Word = s: string | forall i | 0 <= i < |s| :: 'a' <= s[i] <= 'z' witness ""

  /** The patterns of the table: "a", "a.b", "=.b" with an attribute in front, and "a.*.b" with
      any label between. */
  datatype Row =
    | One(lev1: AtLeast1, a: Word)
    | Two(lev2: AtLeast2, a: Word, b: Word)
    | Attr(lev2: AtLeast2, b: Word)
    | Mid(lev3: AtLeast3, a: Word, b: Word)

  function LevelIn(row: Row): nat {
    match row
    case One(lev, _) => lev
    case Two(lev, _, _) => lev
    case Attr(lev, _) => lev
    case Mid(lev, _, _) => lev
  }

  function LabelsOf(row: Row): seq<string> {
    match row
    case One(_, a) => [a]
    case Two(_, a, b) => [a, b]
    case Attr(_, b) => ["=", b]
    case Mid(_, a, b) => [a, "*", b]
  }

  function Joined(labels: seq<string>): string {
    if labels == [] then "" else if |labels| == 1 then labels[0] else labels[0] + (['.'] + Joined(labels[1..]))
  }

  // A label without special characters, or "*" alone.
  predicate PlainLabel(l: string) { l == "*" || ('.' !in l && '?' !in l && '*' !in l) }

  // The entry that the program makes of a row.
  function EntryOf(row: Row): Entry { Entry(LevelIn(row), Reversed(Joined(LabelsOf(row)))) }

  // No "?", and each "*" begins a label.
  predicate Proper(s: string) {
    forall i | 0 <= i < |s| :: s[i] != '?' && (s[i] == '*' ==> i == 0 || s[i - 1] == '.')
  }

  lemma {:induction false} WellFormedIs(h: string)
    ensures WellFormed(h) <==>
              forall i | 0 <= i < |h| :: h[i] != '?' && (h[i] == '*' ==> i + 1 == |h| || h[i + 1] == '.')
  {
    if h != [] {
      WellFormedIs(h[1..]);
      assert forall i | 0 < i < |h| :: h[1..][i - 1] == h[i];
    }
  }

  lemma ProperReversed(s: string)
    requires Proper(s)
    ensures WellFormed(Reversed(s))
  {
    hide Reversed, WellFormed;
    var h := Reversed(s);
    WellFormedIs(h);
    assert forall i | 0 <= i < |h| :: h[i] == s[|s| - 1 - i];
  }

  lemma {:induction false} DotsReversed(s: string)
    ensures Dots(Reversed(s)) == Dots(s)
  {
    if s != [] {
      DotsReversed(s[1..]);
      DotsConcat(Reversed(s[1..]), [s[0]]);
      assert [s[0]][1..] == [];
    }
  }

  lemma {:induction false} JoinedFits(labels: seq<string>)
    requires labels != [] && forall l | l in labels :: PlainLabel(l)
    ensures Proper(Joined(labels)) && Dots(Joined(labels)) < |labels|
  {
    var l := labels[0];
    assert PlainLabel(l);
    LabelFits(l);
    if |labels| > 1 {
      JoinedFits(labels[1..]);
      LabelInFront(l, Joined(labels[1..]));
    }
  }

  lemma LabelFits(l: string)
    requires PlainLabel(l)
    ensures Proper(l) && Dots(l) == 0
  {
    NoDots(l);
  }

  lemma LabelInFront(l: string, s: string)
    requires Proper(l) && Dots(l) == 0 && Proper(s)
    ensures Proper(l + (['.'] + s)) && Dots(l + (['.'] + s)) == 1 + Dots(s)
  {
    var d := ['.'] + s;
    DotsConcat(l, d);
    assert d[1..] == s;
    assert forall i | 0 <= i < |s| :: (l + d)[|l| + 1 + i] == s[i];
    assert (l + d)[|l|] == '.';
  }

  /** Every pattern of these shapes has at least as many levels as labels, and a "*" only as a
      whole label. */
  lemma RowEnough(row: Row)
    ensures EnoughLevels(EntryOf(row))
  {
    hide Joined, Proper, WellFormed, Reversed, Dots;
    var labels := LabelsOf(row);
    forall l | l in labels
      ensures PlainLabel(l)
    {
    }
    assert |labels| <= LevelIn(row);
    JoinedFits(labels);
    ProperReversed(Joined(labels));
    DotsReversed(Joined(labels));
  }

  function EntriesOf(rows: seq<Row>): seq<Entry> {
    seq(|rows|, i requires 0 <= i < |rows| => EntryOf(rows[i]))
  }

  /** With any table of such patterns, generalising a host twice is generalising it once. */
  lemma TableIdempotent(rattrs: seq<string>, rows: seq<Row>, host: string)
    ensures var g := Generic(rattrs, EntriesOf(rows), host); Generic(rattrs, EntriesOf(rows), g) == g
  {
    hide EnoughLevels, Generic, EntryOf;
    forall e | e in EntriesOf(rows)
      ensures EnoughLevels(e)
    {
      var i :| 0 <= i < |rows| && e == EntryOf(rows[i]);
      RowEnough(rows[i]);
    }
    Idempotent(rattrs, EntriesOf(rows), host);
  }

  // --- the table of the program --------------------------------------------------------------

  const ROWS_1: seq<Row> := [
    One(3, "arin"), One(3, "apnic"), One(3, "afrinic"), One(3, "jpnic"), One(3, "lacnic"), One(3, "ripe"),
    Two(2, "kek", "jp"), Two(2, "ntt", "jp"), Two(2, "nttdata", "jp"), Attr(3, "jp"), Two(3, "lg", "jp"),
    Mid(3, "city", "jp"), Mid(3, "pref", "jp"), Two(4, "aichi", "jp"), Two(4, "akita", "jp"), Two(4, "aomori", "jp"),
    Two(4, "chiba", "jp"), Two(4, "ehime", "jp"), Two(4, "fukui", "jp")]

  const ROWS_2: seq<Row> := [
    Two(4, "fukuoka", "jp"), Two(4, "fukushima", "jp"), Two(4, "gifu", "jp"), Two(4, "gunma", "jp"),
    Two(4, "hiroshima", "jp"), Two(4, "hokkaido", "jp"), Two(4, "hyogo", "jp"), Two(4, "ibaraki", "jp"),
    Two(4, "ishikawa", "jp"), Two(4, "iwate", "jp"), Two(4, "kagawa", "jp"), Two(4, "kagoshima", "jp"),
    Two(4, "kanagawa", "jp"), Two(4, "kochi", "jp")]

  const ROWS_3: seq<Row> := [
    Two(4, "kumamoto", "jp"), Two(4, "kyoto", "jp"), Two(4, "mie", "jp"), Two(4, "miyagi", "jp"),
    Two(4, "miyazaki", "jp"), Two(4, "nagano", "jp"), Two(4, "nagasaki", "jp"), Two(4, "nara", "jp"),
    Two(4, "niigata", "jp"), Two(4, "oita", "jp"), Two(4, "okayama", "jp"), Two(4, "okinawa", "jp"),
    Two(4, "osaka", "jp"), Two(4, "saga", "jp"), Two(4, "saitama", "jp")]

  const ROWS_4: seq<Row> := [
    Two(4, "shimane", "jp"), Two(4, "shizuoka", "jp"), Two(4, "shiga", "jp"), Two(4, "tochigi", "jp"),
    Two(4, "tokushima", "jp"), Two(4, "tokyo", "jp"), Two(4, "tottori", "jp"), Two(4, "toyama", "jp"),
    Two(4, "wakayama", "jp"), Two(4, "yamagata", "jp"), Two(4, "yamaguchi", "jp"), Two(4, "yamanashi", "jp"),
    Two(4, "kawasaki", "jp")]

  const ROWS_5: seq<Row> := [
    Two(4, "kitakyushu", "jp"), Two(4, "kobe", "jp"), Two(4, "nagoya", "jp"), Two(4, "sapporo", "jp"),
    Two(4, "sendai", "jp"), Two(4, "yokohama", "jp"), One(2, "jp"), Attr(3, "ae"), Attr(3, "al"), Attr(3, "ao"),
    Attr(3, "ar"), Two(3, "gv", "at"), Attr(3, "at"), Attr(3, "au"), Two(3, "oz", "au"), Attr(3, "ba"), Attr(3, "bb"),
    Attr(3, "bd"), Attr(3, "be"), Attr(3, "bh"), Attr(3, "bo"), Attr(3, "bt"), Attr(3, "by"), Two(3, "minsk", "by"),
    Attr(3, "ca")]

  const ROWS_6: seq<Row> := [
    Two(3, "ab", "ca"), Two(3, "bc", "ca"), Two(3, "mb", "ca"), Two(3, "nb", "ca"), Two(3, "ns", "ca"),
    Two(3, "nt", "ca"), Two(3, "on", "ca"), Two(3, "qc", "ca"), Two(3, "sk", "ca"), Attr(3, "ci"), Attr(3, "ck"),
    Attr(3, "cl"), Attr(3, "co"), Attr(3, "cn"), Two(3, "cq", "cn"), Two(3, "gd", "cn"), Two(3, "gx", "cn"),
    Two(3, "fj", "cn"), Two(3, "hb", "cn"), Two(3, "js", "cn"), Two(3, "jx", "cn"), Two(3, "ln", "cn")]

  const ROWS_7: seq<Row> := [
    Two(3, "sh", "cn"), Two(3, "sn", "cn"), Two(3, "sx", "cn"), Two(3, "zj", "cn"), Attr(3, "cr"), Attr(3, "cu"),
    Attr(3, "cy"), Attr(3, "do"), Attr(3, "ec"), Attr(3, "ee"), Attr(3, "eg"), Attr(3, "er"), Attr(3, "fj"),
    Two(3, "asso", "fr"), Two(3, "gouv", "fr"), Two(3, "tm", "fr"), Attr(3, "ga"), Attr(3, "ge"), Attr(3, "gh"),
    Attr(3, "gn"), Attr(3, "gr"), Attr(3, "gt"), Attr(3, "gy"), Attr(3, "hk"), Attr(3, "hn"), Attr(3, "hu"),
    Attr(3, "id"), Attr(3, "ie"), Attr(3, "il"), Attr(3, "in")]

  const ROWS_8: seq<Row> := [
    Two(3, "ernet", "in"), Attr(3, "ir"), Two(3, "fe", "it"), Attr(3, "jo"), Attr(3, "ke"), Attr(3, "kh"),
    Attr(3, "kr"), Two(3, "nm", "kr"), Two(3, "re", "kr"), Attr(3, "kw"), Attr(3, "lb"), Attr(3, "lk"), Attr(3, "lv"),
    Attr(3, "ma"), Attr(3, "mg"), Attr(3, "mm"), Attr(3, "mo"), Attr(3, "mw"), Attr(3, "mz"), Two(3, "af", "mil"),
    Two(3, "army", "mil"), Two(3, "navy", "mil"), Two(3, "disa", "mil"), Attr(3, "mk"), Attr(3, "mt"), Attr(3, "mv"),
    Two(2, "jaring", "my"), Attr(3, "my")]

  const ROWS_9: seq<Row> := [
    Attr(3, "mx"), Two(3, "uu", "net"), Attr(3, "na"), Attr(3, "ng"), Attr(3, "ni"), Attr(3, "np"), Attr(3, "nz"),
    Attr(3, "om"), Attr(3, "pa"), Attr(3, "pe"), Attr(3, "pf"), Attr(3, "pg"), Attr(3, "pk"), Attr(3, "pl"),
    Attr(3, "ph"), Attr(3, "py"), Attr(3, "qa"), Attr(3, "ro"), Two(2, "co", "ru"), Attr(3, "ru"),
    Two(3, "irk", "ru"), Two(3, "khv", "ru"), Two(3, "msk", "ru"), Two(3, "msk", "su"), Two(3, "nov", "ru"),
    Two(3, "nsc", "ru"), Two(3, "nsk", "ru"), Two(3, "nsk", "su")]

  const ROWS_10: seq<Row> := [
    Two(3, "spb", "ru"), Two(3, "spb", "su"), Two(3, "udm", "ru"), Two(3, "tomsk", "ru"), Attr(3, "rw"),
    Attr(3, "sa"), Attr(3, "sb"), Attr(3, "sg"), Attr(3, "si"), Attr(3, "sk"), Attr(3, "sv"), Attr(3, "sy"),
    Attr(3, "tg"), Attr(3, "th"), Attr(3, "tr"), Attr(3, "tt"), Attr(3, "tw"), Attr(3, "uk"), Attr(3, "ua"),
    Two(3, "cn", "ua"), Two(3, "cv", "ua"), Two(3, "dp", "ua"), Two(3, "km", "ua"), Two(3, "lg", "ua"),
    Two(3, "te", "ua"), Two(3, "zp", "ua")]

  const ROWS_11: seq<Row> := [
    Two(3, "kiev", "ua"), Two(3, "uzhgorod", "ua"), Attr(3, "ug"), Attr(3, "us"), Two(3, "al", "us"),
    Two(3, "ar", "us"), Two(3, "az", "us"), Two(3, "ca", "us"), Two(3, "de", "us"), Two(3, "fl", "us"),
    Two(3, "ga", "us"), Two(3, "hi", "us"), Two(3, "ia", "us"), Two(3, "il", "us"), Two(3, "in", "us"),
    Two(3, "la", "us"), Two(3, "ks", "us"), Two(3, "ma", "us"), Two(3, "md", "us"), Two(3, "me", "us")]

  const ROWS_12: seq<Row> := [
    Two(3, "mi", "us"), Two(3, "mn", "us"), Two(3, "mo", "us"), Two(3, "ms", "us"), Two(3, "mt", "us"),
    Two(3, "nc", "us"), Two(3, "nj", "us"), Two(3, "nv", "us"), Two(3, "ny", "us"), Two(3, "oh", "us"),
    Two(3, "pa", "us"), Two(3, "tn", "us"), Two(3, "tx", "us"), Two(3, "ut", "us"), Two(3, "va", "us"),
    Two(3, "vt", "us"), Two(3, "wa", "us"), Two(3, "wi", "us"), Attr(3, "uy"), Attr(3, "uz"), Attr(3, "ve"),
    Attr(3, "vn")]

  const ROWS_13: seq<Row> := [
    Attr(3, "ws"), Attr(3, "ye"), Attr(3, "yu"), Attr(3, "za"), Attr(3, "zw"), Attr(3, "br")]

  /** The table of the program. */
  const LEVELS: seq<Row> :=
    ROWS_1 + ROWS_2 + ROWS_3 + ROWS_4 + ROWS_5 + ROWS_6 + ROWS_7
    + ROWS_8 + ROWS_9 + ROWS_10 + ROWS_11 + ROWS_12 + ROWS_13

  /** With the table of the program, generalising any host twice is generalising it once. */
  lemma ProgramIdempotent(rattrs: seq<string>, host: string)
    ensures var g := Generic(rattrs, EntriesOf(LEVELS), host); Generic(rattrs, EntriesOf(LEVELS), g) == g
  {
    hide *;
    TableIdempotent(rattrs, LEVELS, host);
  }
}
