/** Bytes, little-endian words and small sequence facts shared by the kernel models. */
module Bytes {

  datatype Option<+T> = None | Some(value: T)

  type byte = b: int | 0 <= b < 256

  const SECTOR: nat := 512

  /** A disk is read and written in sectors of 512 bytes. */
  type Sector = s: seq<byte> | |s| == SECTOR witness Zeros(SECTOR)
  type Disk = seq<Sector>

  const DOT: byte := 46

  /** A C string without its terminating NUL. */
  type CString = s: seq<byte> | 0 !in s

  const TWO32: int := 0x1_0000_0000
  const TWO64: int := 0x1_0000_0000_0000_0000

  function Min(a: int, b: int): (r: int) {
    if a < b then a else b
  }

  /** The bytes of a 32-bit word, least significant first. */
  function Le32(v: nat): (r: seq<byte>)
    requires v < TWO32
    ensures |r| == 4
  {
    [v % 256, v / 256 % 256, v / 65536 % 256, v / 16777216]
  }

  function Word32(b: seq<byte>): (v: nat)
    requires |b| == 4
    ensures v < TWO32
  {
    b[0] as int + 256 * (b[1] as int) + 65536 * (b[2] as int) + 16777216 * (b[3] as int)
  }

  lemma Word32OfLe32(v: nat)
    requires v < TWO32
    ensures Word32(Le32(v)) == v
  {
    assert v / 65536 == v / 256 / 256;
    assert v / 16777216 == v / 65536 / 256;
  }

  /** The number that bytes denote, least significant first. */
  function LittleEndian(b: seq<byte>): (v: nat) {
    if b == [] then 0 else b[0] as int + 256 * LittleEndian(b[1..])
  }

  /** Four bytes, then the rest. */
  lemma LittleEndian32(b: seq<byte>)
    requires |b| >= 4
    ensures LittleEndian(b) == Word32(b[..4]) + TWO32 * LittleEndian(b[4..])
  {
    var c := b[1..];
    var d := c[1..];
    var e := d[1..];
    assert LittleEndian(c) == c[0] as int + 256 * LittleEndian(d);
    assert LittleEndian(d) == d[0] as int + 256 * LittleEndian(e);
    assert LittleEndian(e) == e[0] as int + 256 * LittleEndian(e[1..]);
    assert e[1..] == b[4..] && c[0] == b[1] && d[0] == b[2] && e[0] == b[3];
  }

  lemma LittleEndianWords(b: seq<byte>)
    ensures |b| == 2 ==> LittleEndian(b) == b[0] as int + 256 * (b[1] as int)
    ensures |b| == 4 ==> LittleEndian(b) == Word32(b)
  {
    if |b| == 2 {
      assert b[1..] == [b[1]] && [b[1]][1..] == [];
      assert LittleEndian([b[1]]) == b[1] as int + 256 * LittleEndian([]);
    } else if |b| == 4 {
      LittleEndian32(b);
      assert b[..4] == b && b[4..] == [];
    }
  }

  lemma LittleEndianOfLe32(v: nat)
    requires v < TWO32
    ensures LittleEndian(Le32(v)) == v
  {
    Word32OfLe32(v);
    LittleEndian32(Le32(v));
    assert Le32(v)[..4] == Le32(v) && Le32(v)[4..] == [];
  }

  /** `s` with the bytes from `off` on overwritten by `w`: the memcpy into a sector buffer. */
  function Patch(s: seq<byte>, off: nat, w: seq<byte>): (r: seq<byte>)
    requires off + |w| <= |s|
    ensures |r| == |s|
    ensures r[off..off + |w|] == w
    ensures forall i :: 0 <= i < |s| && !(off <= i < off + |w|) ==> r[i] == s[i]
  {
    s[..off] + w + s[off + |w|..]
  }

  /** A slice that does not overlap the patch is untouched. */
  lemma PatchElsewhere(s: seq<byte>, off: nat, w: seq<byte>, lo: nat, hi: nat)
    requires off + |w| <= |s|
    requires lo <= hi <= |s|
    requires hi <= off || off + |w| <= lo
    ensures Patch(s, off, w)[lo..hi] == s[lo..hi]
  {
    var r := Patch(s, off, w);
    forall i | 0 <= i < hi - lo
      ensures r[lo..hi][i] == s[lo..hi][i]
    {
      assert r[lo + i] == s[lo + i];
    }
  }

  /** The part of a buffer before its first byte equal to `stop`: the whole buffer if there is none. */
  function UpTo(s: seq<byte>, stop: byte): (r: seq<byte>)
    ensures r <= s && stop !in r
    ensures |r| < |s| ==> s[|r|] == stop
  {
    if s == [] || s[0] == stop then [] else [s[0]] + UpTo(s[1..], stop)
  }

  lemma {:induction false} UpToAll(s: seq<byte>, rest: seq<byte>, stop: byte)
    requires stop !in s
    requires rest == [] || rest[0] == stop
    ensures UpTo(s + rest, stop) == s
  {
    if s != [] {
      assert (s + rest)[1..] == s[1..] + rest;
      UpToAll(s[1..], rest, stop);
    }
  }

  /** A slice of a slice. */
  lemma SubSlice<T>(s: seq<T>, a: nat, b: nat, lo: nat, hi: nat)
    requires a <= b <= |s| && lo <= hi <= b - a
    ensures s[a..b][lo..hi] == s[a + lo..a + hi]
  {
    var t := s[a..b];
    forall i | 0 <= i < hi - lo
      ensures t[lo..hi][i] == s[a + lo..a + hi][i]
    {
      assert t[lo + i] == s[a + (lo + i)];
    }
  }

  /** At most the first `n` bytes. */
  function Cut(s: seq<byte>, n: nat): (r: seq<byte>)
    ensures |r| == Min(|s|, n) && r <= s
  {
    s[..Min(|s|, n)]
  }

  /** `n` zero bytes. */
  function Zeros(n: nat): (r: seq<byte>)
    ensures |r| == n
    ensures forall i :: 0 <= i < n ==> r[i] == 0
  {
    seq(n, _ => 0)
  }

  function Reversed<T>(s: seq<T>): (r: seq<T>)
    ensures |r| == |s|
  {
    if s == [] then [] else Reversed(s[1..]) + [s[0]]
  }

  lemma {:induction false} ReversedAt<T>(s: seq<T>, i: nat)
    requires i < |s|
    ensures Reversed(s)[i] == s[|s| - 1 - i]
  {
    if i < |s| - 1 {
      ReversedAt(s[1..], i);
    }
  }

  lemma {:induction false} ReversedLast<T>(s: seq<T>)
    requires s != []
    ensures Reversed(s) == [s[|s| - 1]] + Reversed(s[..|s| - 1])
  {
    if |s| > 1 {
      ReversedLast(s[1..]);
      assert s[1..][..|s| - 2] == s[..|s| - 1][1..];
    }
  }

  ghost predicate NoDup<T>(s: seq<T>) {
    forall i, j :: 0 <= i < j < |s| ==> s[i] != s[j]
  }

  /** Euclidean division pinned down by its quotient. */
  lemma DivUnique(d: nat, q: nat, r: nat)
    requires r < d
    ensures (q * d + r) / d == q
    ensures (q * d + r) % d == r
  {
    var x := q * d + r;
    var k := x / d - q;
    assert d * k == r - x % d;
    if k >= 1 {
      MulMonotone(1, k, d);
      assert false;
    }
    if k <= -1 {
      MulMonotone(k, -1, d);
      assert false;
    }
  }

  lemma MulMonotone(a: int, b: int, d: nat)
    requires a <= b
    ensures a * d <= b * d
    ensures d * a <= d * b
  {
    assert (b - a) * d >= 0;
  }

  lemma MulStep(a: int, b: int, d: nat)
    requires a < b
    ensures a * d + d <= b * d
  {
    MulMonotone(a + 1, b, d);
  }

  /** A two-digit position in base `z` determines its digits. */
  lemma DigitsUnique(z: nat, k: nat, i: nat, k': nat, i': nat)
    requires i < z && i' < z && k * z + i == k' * z + i'
    ensures k == k' && i == i'
  {
    DivUnique(z, k, i);
    DivUnique(z, k', i');
  }
}
