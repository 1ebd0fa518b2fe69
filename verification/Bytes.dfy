/** Bytes, little-endian words and in-place replacement of a stretch of a sequence. */
module Bytes {

  type byte = b: int | 0 <= b < 256

  /** `s` with the stretch starting at `pos` replaced by `t`. */
  function Splice<T>(s: seq<T>, pos: nat, t: seq<T>): (r: seq<T>)
    requires pos + |t| <= |s|
    ensures |r| == |s|
    ensures r[pos..pos + |t|] == t
    ensures forall i :: 0 <= i < |s| && !(pos <= i < pos + |t|) ==> r[i] == s[i]
  {
    s[..pos] + t + s[pos + |t|..]
  }

  function Zeros(n: nat): (z: seq<byte>)
    ensures |z| == n && forall i :: 0 <= i < n ==> z[i] == 0
  {
    seq(n, _ => 0 as byte)
  }

  function Rle16(s: seq<byte>, at: nat): (v: nat)
    requires at + 2 <= |s|
    ensures v < 0x1_0000
  {
    s[at] as nat + s[at + 1] as nat * 0x100
  }

  function Rle32(s: seq<byte>, at: nat): (v: nat)
    requires at + 4 <= |s|
    ensures v < 0x1_0000_0000
  {
    s[at] as nat + s[at + 1] as nat * 0x100 + s[at + 2] as nat * 0x1_0000 + s[at + 3] as nat * 0x100_0000
  }

  /** The two low bytes of `v`, low byte first; higher bits are cut off as in the C macro. */
  function Wle16(v: nat): (w: seq<byte>)
    ensures |w| == 2 && Rle16(w, 0) == v % 0x1_0000
  {
    [v % 0x100, v / 0x100 % 0x100]
  }

  /** The four low bytes of `v`, low byte first; higher bits are cut off as in the C macro. */
  function Wle32(v: nat): (w: seq<byte>)
    ensures |w| == 4 && Rle32(w, 0) == v % 0x1_0000_0000
  {
    var v1 := v / 0x100;
    var v2 := v1 / 0x100;
    var v3 := v2 / 0x100;
    assert v == v3 / 0x100 * 0x1_0000_0000
             + (v % 0x100 + v1 % 0x100 * 0x100 + v2 % 0x100 * 0x1_0000 + v3 % 0x100 * 0x100_0000);
    [v % 0x100, v1 % 0x100, v2 % 0x100, v3 % 0x100]
  }

  /** Bit `k` of a byte, for the attribute and sequence masks. */
  predicate Bit(b: byte, mask: nat)
    requires mask > 0
  {
    b / mask % 2 == 1
  }

  lemma Rle32Same(s: seq<byte>, at: nat, s': seq<byte>, at': nat)
    requires at + 4 <= |s| && at' + 4 <= |s'|
    requires s[at..at + 4] == s'[at'..at' + 4]
    ensures Rle32(s, at) == Rle32(s', at')
  {
    assert s[at] == s[at..at + 4][0] == s'[at'..at' + 4][0];
    assert s[at + 1] == s[at..at + 4][1] == s'[at'..at' + 4][1];
    assert s[at + 2] == s[at..at + 4][2] == s'[at'..at' + 4][2];
    assert s[at + 3] == s[at..at + 4][3] == s'[at'..at' + 4][3];
  }

  /** Changing a buffer that was cut out of `d` and putting it back changes only that part of `d`. */
  lemma SpliceWithin<T>(d: seq<T>, pos: nat, len: nat, off: nat, w: seq<T>)
    requires pos + len <= |d| && off + |w| <= len
    ensures Splice(d, pos, Splice(d[pos..pos + len], off, w)) == Splice(d, pos + off, w)
  {
    var inner := Splice(d[pos..pos + len], off, w);
    var r, r' := Splice(d, pos, inner), Splice(d, pos + off, w);
    forall i | 0 <= i < |d|
      ensures r[i] == r'[i]
    {
      if pos <= i < pos + len {
        assert r[i] == r[pos..pos + len][i - pos] == inner[i - pos];
        if off <= i - pos < off + |w| {
          assert inner[i - pos] == inner[off..off + |w|][i - pos - off];
          assert r'[i] == r'[pos + off..pos + off + |w|][i - pos - off];
        }
      }
    }
  }

  lemma SpliceElsewhere<T>(s: seq<T>, pos: nat, t: seq<T>, lo: nat, hi: nat)
    requires pos + |t| <= |s| && lo <= hi <= |s|
    requires hi <= pos || pos + |t| <= lo
    ensures Splice(s, pos, t)[lo..hi] == s[lo..hi]
  {
  }

  lemma SliceOfSlice<T>(s: seq<T>, pos: nat, len: nat, off: nat, n: nat)
    requires pos + len <= |s| && off + n <= len
    ensures s[pos..pos + len][off..off + n] == s[pos + off..pos + off + n]
  {
    var a, b := s[pos..pos + len][off..off + n], s[pos + off..pos + off + n];
    assert |a| == |b| == n;
    forall i | 0 <= i < n
      ensures a[i] == b[i]
    {
      assert a[i] == s[pos..pos + len][off + i];
    }
  }

  lemma SliceAppend<T>(s: seq<T>, lo: nat, mid: nat, hi: nat)
    requires lo <= mid <= hi <= |s|
    ensures s[lo..mid] + s[mid..hi] == s[lo..hi]
  {
  }

  /** A suffix that begins with `a` has `a` at its place and the rest behind it. */
  lemma SplitSuffix<T>(s: seq<T>, k: nat, a: seq<T>, b: seq<T>)
    requires k <= |s| && s[k..] == a + b
    ensures k + |a| <= |s| && s[k..k + |a|] == a && s[k + |a|..] == b
    ensures a != [] ==> s[k] == a[0]
  {
    assert s[k..k + |a|] == s[k..][..|a|];
    assert s[k + |a|..] == s[k..][|a|..];
    assert a != [] ==> s[k] == s[k..][0];
  }
}
