/** A shared file as the session cache sees it: bytes that are read at an offset, possibly
    short, and written at an offset, with zeros filling a gap. */
module SharedFile {
  import opened Bytes

  function Zeros(n: nat): (z: bytes)
    ensures |z| == n && forall i | 0 <= i < n :: z[i] == 0
  {
    seq(n, i => 0)
  }

  /** `fseek` and `fread`: the bytes present among the n bytes at off. */
  function ReadAt(f: bytes, off: nat, n: nat): (r: bytes)
    ensures |r| <= n
  {
    if |f| <= off then [] else if |f| <= off + n then f[off..] else f[off..off + n]
  }

  // The byte at i, zero beyond the end.
  function At(f: bytes, i: nat): byte {
    if i < |f| then f[i] else 0
  }

  /** `fseek` and `fwrite`: writing past the end fills the gap with zeros. */
  function WriteAt(f: bytes, off: nat, d: bytes): (g: bytes)
  {
    var n := if |f| < off + |d| then off + |d| else |f|;
    seq(n, i requires 0 <= i < n => if off <= i < off + |d| then d[i - off] else At(f, i))
  }

  /** g is f with the bytes d written at off. */
  ghost predicate Wrote(f: bytes, off: nat, d: bytes, g: bytes) {
    && |g| == (if |f| < off + |d| then off + |d| else |f|)
    && forall i: nat :: At(g, i) == if off <= i < off + |d| then d[i - off] else At(f, i)
  }

  lemma WriteAtWrote(f: bytes, off: nat, d: bytes)
    ensures Wrote(f, off, d, WriteAt(f, off, d))
  {
  }

  /** The bytes d stand at off. */
  ghost predicate Carries(f: bytes, off: nat, d: bytes) {
    off + |d| <= |f| && forall i: nat | i < |d| :: At(f, off + i) == d[i]
  }

  // The n bytes at off are zero or beyond the end.
  ghost predicate Blank(f: bytes, off: nat, n: nat) {
    forall j: nat | off <= j < off + n :: At(f, j) == 0
  }

  lemma CarriesRead(f: bytes, off: nat, d: bytes, n: nat)
    requires Carries(f, off, d) && n <= |d|
    ensures ReadAt(f, off, n) == d[..n]
  {
    var r := ReadAt(f, off, n);
    if n > 0 {
      forall i: nat | i < n ensures r[i] == d[i] {
        assert At(f, off + i) == d[i];
      }
    }
  }

  lemma BlankRead(f: bytes, off: nat, n: nat, m: nat)
    requires Blank(f, off, n) && m <= n
    ensures forall i | 0 <= i < |ReadAt(f, off, m)| :: ReadAt(f, off, m)[i] == 0
  {
    forall i: nat | i < |ReadAt(f, off, m)| ensures ReadAt(f, off, m)[i] == 0 {
      assert At(f, off + i) == 0;
    }
  }

  lemma WriteCarries(f: bytes, off: nat, d: bytes, g: bytes)
    requires Wrote(f, off, d, g)
    ensures Carries(g, off, d)
  {
  }

  /** A write leaves what stands elsewhere. */
  lemma WriteKeepsCarries(f: bytes, off: nat, d: bytes, g: bytes, o: nat, e: bytes)
    requires Wrote(f, off, d, g) && Carries(f, o, e) && (o + |e| <= off || off + |d| <= o)
    ensures Carries(g, o, e)
  {
    forall i: nat | i < |e| ensures At(g, o + i) == e[i] {
      assert At(f, o + i) == e[i];
    }
  }

  lemma WriteKeepsBlank(f: bytes, off: nat, d: bytes, g: bytes, o: nat, n: nat)
    requires Wrote(f, off, d, g) && Blank(f, o, n) && (o + n <= off || off + |d| <= o)
    ensures Blank(g, o, n)
  {
    forall j: nat | o <= j < o + n ensures At(g, j) == 0 {
      assert At(f, j) == 0;
    }
  }

  // Little-endian words of k bytes.
  function Pow256(k: nat): nat {
    if k == 0 then 1 else 256 * Pow256(k - 1)
  }

  function Le(v: nat, k: nat): (b: bytes)
    ensures |b| == k
  {
    if k == 0 then [] else [v % 256] + Le(v / 256, k - 1)
  }

  function FromLe(b: bytes): (v: nat)
    ensures v < Pow256(|b|)
  {
    if b == [] then 0 else var lo: nat, hi: nat := b[0], FromLe(b[1..]); lo + 256 * hi
  }

  lemma {:induction false} LeRoundTrip(v: nat, k: nat)
    requires v < Pow256(k)
    ensures FromLe(Le(v, k)) == v
  {
    if k > 0 {
      assert v / 256 < Pow256(k - 1);
      LeRoundTrip(v / 256, k - 1);
    }
  }
}
