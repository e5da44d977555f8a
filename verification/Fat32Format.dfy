/** Formatting: the size iteration for the FAT and the empty volume that formatting leaves. */
module Fat32Format {
  import opened Bytes
  import opened Fat32Layout
  import opened Fat32Chain
  import opened Fat32File
  import opened Fat32Name
  import opened Fat32Dir
  import opened Fat32Owner
  import opened Fat32Volume
  import opened Fat32Files

  const RSVD: nat := 32
  const NUM_FATS: nat := 2

  /** FAT sectors needed for the clusters that fit beside two FATs of `f` sectors, where `n` sectors
      follow the reserved area. */
  function Needed(n: int, f: int): (r: int) {
    (4 * (n - 2 * f) + 511) / 512
  }

  /** The sizes the iteration settles on: the one size that is exactly what its own formula asks
      for, or, when there is none, the two sizes that ask for each other. */
  function SizeLow(n: nat): (r: nat) {
    if n % 130 >= 3 then n / 130 + 1 else n / 130
  }

  function SizeHigh(n: nat): (r: nat) {
    if n % 130 == 0 then n / 130 else n / 130 + 1
  }

  function Distance(n: nat, f: int): (r: nat) {
    if f < SizeLow(n) then SizeLow(n) - f else if f > SizeHigh(n) then f - SizeHigh(n) else 0
  }

  /** There is a size that is its own requirement exactly when the remainder by 130 is not 1 or 2,
      and it is unique. */
  lemma FixedSize(n: nat, f: int)
    ensures Needed(n, f) == f <==> n % 130 != 1 && n % 130 != 2 && f == SizeLow(n)
    ensures Needed(n, f) == f ==> Distance(n, f) == 0
  {
    var a, r := n / 130, n % 130;
    var x := n + 127 - 130 * f;
    assert n == 130 * a + r && 0 <= r < 130;
    assert Needed(n, f) == (x + 128 * f) / 128;
    QuotientIs(x, f);
    if f < a {
      assert x >= 128;
    } else if f == a {
      assert x == r + 127;
    } else if f == a + 1 {
      assert x == r - 3;
    } else {
      assert x < 0;
    }
  }

  lemma QuotientIs(x: int, f: int)
    ensures (x + 128 * f) / 128 == f <==> 0 <= x < 128
  {
  }

  /** One round shrinks the distance to the settled sizes 64-fold. */
  lemma RoundShrinks(n: nat, f: int)
    ensures Distance(n, Needed(n, f)) <= (Distance(n, f) + 63) / 64
  {
    var a, r := n / 130, n % 130;
    assert n == 130 * a + r;
    assert Needed(n, f) == (n - 2 * f + 127) / 128;
  }

  /** From distance 1 two rounds suffice. */
  lemma TwoRoundsSettle(n: nat, f: int)
    requires Distance(n, f) <= 1
    ensures Distance(n, Needed(n, Needed(n, f))) == 0
  {
    var a, r := n / 130, n % 130;
    assert n == 130 * a + r;
    var f1 := Needed(n, f);
    assert f1 == (n - 2 * f + 127) / 128;
    assert Needed(n, f1) == (n - 2 * f1 + 127) / 128;
  }

  /** The distance left after `k` rounds on a device below 2^28 sectors. */
  ghost function Bound(k: nat): (r: nat) {
    if k == 0 then 2097152 else if k == 1 then 32768 else if k == 2 then 512 else if k == 3 then 8
    else if k <= 5 then 1 else 0
  }

  /** The loop's state after `k` rounds, reached from size `before`. */
  ghost predicate Round(n: nat, before: int, f: int, k: nat) {
    && 1 <= f && 2 * f < n && Distance(n, f) <= Bound(k)
    && (k > 0 ==> f == Needed(n, before) && Distance(n, before) <= Bound(k - 1))
  }

  lemma FirstRound(n: nat)
    requires 3 <= n < 0x1000_0000
    ensures Round(n, 1, 1, 0)
  {
  }

  lemma NextRound(n: nat, before: int, f: int, k: nat)
    requires 3 <= n && Round(n, before, f, k)
    ensures Round(n, f, Needed(n, f), k + 1)
  {
    RoundShrinks(n, f);
    if k >= 5 {
      TwoRoundsSettle(n, before);
    }
    assert Needed(n, f) == (n - 2 * f + 127) / 128;
  }

  /** What the settled sizes ask for. */
  lemma Settled(n: nat, f: int)
    requires Distance(n, f) == 0
    ensures -1 <= Needed(n, f) - f <= 1
    ensures Needed(n, f) == f <==> n % 130 != 1 && n % 130 != 2
  {
    FixedSize(n, f);
    var a, r := n / 130, n % 130;
    assert n == 130 * a + r;
    assert Needed(n, f) == (n - 2 * f + 127) / 128;
  }

  /** The rejected devices, and the size the 32-round loop ends with: after at most six rounds it is
      the size its own formula asks for; when none is, it is within one sector of that. */
  method FatSize(total: int) returns (r: Option<nat>)
    requires total < 0x1000_0000
    ensures r.None? <==> total < 35
    ensures r.Some? ==> SizeLow(total - 32) <= r.value <= SizeHigh(total - 32) && r.value >= 1 && 2 * r.value < total - 32
    ensures r.Some? ==> -1 <= Needed(total - 32, r.value) - r.value <= 1
    ensures r.Some? ==> (Needed(total - 32, r.value) == r.value <==> (total - 32) % 130 !in {1, 2})
  {
    hide SizeLow, SizeHigh, Round;
    ghost var n := total - 32;
    ghost var before := 1;
    if total >= 35 {
      FirstRound(n);
    }
    var f := 1;
    var k := 0;
    while k < 32
      invariant 0 <= k <= 32
      invariant if total >= 35 then Round(n, before, f, k) else k == 0 && f == 1
      decreases 32 - k
    {
      var dataSectors := total - RSVD - NUM_FATS * f;
      RoundBasics(n, before, f, k, total);
      if dataSectors <= 0 {
        return None;
      }
      var needed := (dataSectors * 4 + 511) / 512;
      assert needed == Needed(n, f);
      if needed == f {
        FixedSize(n, f);
        break;
      }
      NextRound(n, before, f, k);
      before := f;
      f := needed;
      k := k + 1;
    }
    RoundBasics(n, before, f, k, total);
    Settled(n, f);
    r := Some(f);
  }

  lemma RoundBasics(n: int, before: int, f: int, k: nat, total: int)
    requires n == total - 32 && if total >= 35 then Round(n, before, f, k) else f == 1
    ensures total >= 35 <==> total - RSVD - NUM_FATS * f > 0
    ensures 1 <= f && (total >= 35 && k >= 6 ==> Distance(n, f) == 0)
  {
  }

  // --- The formatted volume -------------------------------------------------------------------

  function Le16(v: nat): (r: seq<byte>)
    requires v < 65536
    ensures |r| == 2
  {
    [v % 256, v / 256]
  }

  /** The fields of the boot sector that are the same on every device: jump, system name, media,
      information and backup sectors, drive, volume identification, labels and signature. */
  function BootFrame(): (r: Sector) {
    var s1 := Patch(Zeros(SECTOR), 0, [0xEB, 0x58, 0x90, 72, 97, 110, 97, 67, 111, 114]);
    var s2 := Patch(s1, 21, [0xF8]);
    var s3 := Patch(s2, 48, [1, 0, 6, 0]);
    var s4 := Patch(s3, 64, [0x80, 0, 0x29, 0x12, 0x34, 0x56, 0x78]);
    var s5 := Patch(s4, 71, [78, 79, 32, 78, 65, 77, 69, 32, 32, 32, 32, 70, 65, 84, 51, 50, 32, 32, 32]);
    Patch(s5, 510, [0x55, 0xAA])
  }

  /** The boot sector: the frame, and the fields that mounting reads. */
  function BootSector(total: nat, f: nat): (r: Sector)
    requires total < TWO32 && f < TWO32
  {
    var s1 := Patch(BootFrame(), 11, Le16(512) + [1] + Le16(RSVD) + [NUM_FATS]);
    var s2 := Patch(s1, 32, Le32(total) + Le32(f));
    Patch(s2, 44, Le32(2))
  }

  /** The information sector: its signatures, with the counts marked unknown. */
  function InfoSector(): (r: Sector) {
    var s1 := Patch(Zeros(SECTOR), 0, [0x52, 0x52, 0x61, 0x41]);
    var s2 := Patch(s1, 484, [0x72, 0x72, 0x41, 0x61, 0xFF, 0xFF, 0xFF, 0xFF, 0xFF, 0xFF, 0xFF, 0xFF]);
    Patch(s2, 508, [0x55, 0xAA])
  }

  // "NO NAME    FAT32   "
  const LABELS: seq<byte> := [78, 79, 32, 78, 65, 77, 69, 32, 32, 32, 32, 70, 65, 84, 51, 50, 32, 32, 32]

  /** The fields of the boot sector at the offsets that FAT32 gives them. */
  lemma BootFields(total: nat, f: nat)
    requires total < TWO32 && f < TWO32
    ensures var s := BootSector(total, f);
            && s[0..10] == [0xEB, 0x58, 0x90, 72, 97, 110, 97, 67, 111, 114] && LittleEndian(s[11..13]) == 512 && s[13] == 1 && LittleEndian(s[14..16]) == 32
            && s[16] == 2 && s[21] == 0xF8 && LittleEndian(s[32..36]) == total && LittleEndian(s[36..40]) == f
            && LittleEndian(s[44..48]) == 2 && LittleEndian(s[48..50]) == 1 && LittleEndian(s[50..52]) == 6
            && s[64] == 0x80 && s[66..71] == [0x29, 0x12, 0x34, 0x56, 0x78] && s[71..90] == LABELS
            && s[510] == 0x55 && s[511] == 0xAA
  {
    var b := BootFrame();
    BootFrameFields();
    hide BootFrame, Le32, LittleEndian;
    var w := Le16(512) + [1] + Le16(RSVD) + [NUM_FATS];
    var s1 := Patch(b, 11, w);
    var s2 := Patch(s1, 32, Le32(total) + Le32(f));
    var s := Patch(s2, 44, Le32(2));
    assert s[0..10] == b[0..10] && s[48..52] == b[48..52] && s[66..71] == b[66..71] && s[71..90] == b[71..90];
    assert s[11..17] == s2[11..17] == s1[11..17] == w;
    assert s[11..13] == s[11..17][..2] == [0, 2] && s[14..16] == s[11..17][3..5] == [32, 0];
    assert s[13] == s[11..17][2] && s[16] == s[11..17][5];
    assert s[32..40] == s2[32..40] == Le32(total) + Le32(f);
    assert s[32..36] == s[32..40][..4] && s[36..40] == s[32..40][4..];
    assert s[44..48] == Le32(2);
    assert s[48..50] == s[48..52][..2] == [1, 0] && s[50..52] == s[48..52][2..] == [6, 0];
    LittleEndianOfLe32(total);
    LittleEndianOfLe32(f);
    LittleEndianOfLe32(2);
    LittleEndianWords([0, 2]);
    LittleEndianWords([32, 0]);
    LittleEndianWords([1, 0]);
    LittleEndianWords([6, 0]);
  }

  lemma BootFrameFields()
    ensures var s := BootFrame();
            && s[0..10] == [0xEB, 0x58, 0x90, 72, 97, 110, 97, 67, 111, 114] && s[21] == 0xF8 && s[48..52] == [1, 0, 6, 0]
            && s[64] == 0x80 && s[66..71] == [0x29, 0x12, 0x34, 0x56, 0x78] && s[71..90] == LABELS
            && s[510] == 0x55 && s[511] == 0xAA
  {
  }

  /** The signatures of the information sector, and its counts. */
  lemma InfoFields()
    ensures var s := InfoSector();
            && s[0..4] == [0x52, 0x52, 0x61, 0x41] && s[484..488] == [0x72, 0x72, 0x41, 0x61]
            && (forall i :: 488 <= i < 496 ==> s[i] == 0xFF) && s[508] == 0x55 && s[509] == 0xAA
            && (forall i :: 4 <= i < 484 || 496 <= i < 508 ==> s[i] == 0)
  {
  }

  /** Mounting from ATA: the geometry read from the boot sector, for 512-byte sectors. */
  function Mount(s: Sector): (r: Option<Geometry>) {
    var bytesPerSec := s[11] as int + 256 * (s[12] as int);
    var secPerClus := s[13];
    if bytesPerSec != 512 || secPerClus == 0 || secPerClus > 128 then None
    else Some(Geometry(s[14] as int + 256 * (s[15] as int), s[16], Word32(s[36..40]), secPerClus, Word32(s[44..48])))
  }

  /** Which boot sectors mount with 512-byte sectors, and the offsets from which the geometry is read. */
  lemma MountReads(s: Sector)
    ensures Mount(s).Some? <==> LittleEndian(s[11..13]) == 512 && 1 <= s[13] <= 128
    ensures Mount(s).Some? ==> Mount(s).value == Geometry(LittleEndian(s[14..16]), s[16], LittleEndian(s[36..40]), s[13], LittleEndian(s[44..48]))
  {
    LittleEndianWords(s[11..13]);
    LittleEndianWords(s[14..16]);
    LittleEndianWords(s[36..40]);
    LittleEndianWords(s[44..48]);
  }

  function FormatGeometry(f: nat): (g: Geometry) {
    Geometry(RSVD, NUM_FATS, f, 1, 2)
  }

  /** Mounting the boot sector that formatting writes recovers the layout. */
  lemma MountFormatted(total: nat, f: nat)
    requires total < TWO32 && f < TWO32
    ensures Mount(BootSector(total, f)) == Some(FormatGeometry(f))
  {
    hide BootFrame, Le32;
    var w := Le16(512) + [1] + Le16(RSVD) + [NUM_FATS];
    var s1 := Patch(BootFrame(), 11, w);
    var s2 := Patch(s1, 32, Le32(total) + Le32(f));
    var s3 := Patch(s2, 44, Le32(2));
    assert s3[11..17] == s2[11..17] == s1[11..17] == w;
    assert forall i :: 0 <= i < 6 ==> s3[11 + i] == s3[11..17][i];
    assert s3[36..40] == s2[36..40];
    assert s2[36..40] == s2[32..40][4..8] == Le32(f);
    assert s3[44..48] == Le32(2);
    Word32OfLe32(f);
    Word32OfLe32(2);
  }

  /** First sector of each FAT: the two reserved entries and the end of the root directory. */
  function FirstFatSector(): (r: Sector) {
    Patch(Zeros(SECTOR), 0, Le32(0x0FFF_FFF8) + Le32(0xFFFF_FFFF) + Le32(EOC))
  }

  /** The sectors formatting writes for a FAT of `f` sectors. */
  function Formatted(total: nat, f: nat, d: Disk, lba: nat): (s: Sector)
    requires total < TWO32 && f < TWO32 && lba < |d|
  {
    if lba == 0 then BootSector(total, f)
    else if lba == 1 then InfoSector()
    else if lba == RSVD || lba == RSVD + f then FirstFatSector()
    else if lba <= RSVD + 2 * f then Zeros(SECTOR)
    else d[lba]
  }

  /** Every sector that formatting writes can be written. */
  predicate Formattable(refused: set<nat>, f: nat) {
    forall lba :: 0 <= lba <= RSVD + 2 * f ==> lba !in refused
  }

  /** Write boot sector, information sector, reserved sectors, FATs and root cluster in order. It succeeds
      exactly when the device is large enough and takes every one of these sectors; the data area behind
      them stays. */
  method Format(d: Disk, refused: set<nat>) returns (ok: bool, out: Disk, f: nat)
    requires |d| < 0x1000_0000
    ensures |out| == |d|
    ensures |d| >= 35 ==> 1 <= f && SizeLow(|d| - 32) <= f <= SizeHigh(|d| - 32) && 2 * f < |d| - 32
    ensures ok <==> |d| >= 35 && Formattable(refused, f)
    ensures ok ==> forall lba :: 0 <= lba < |d| ==> out[lba] == Formatted(|d|, f, d, lba)
    ensures ok ==> IsFormatted(out, f) && Mount(out[0]) == Some(FormatGeometry(f))
    ensures if |d| < 35 then out == d else forall lba :: RSVD + 2 * f < lba < |d| ==> out[lba] == d[lba]
  {
    hide FirstFatSector, BootSector, InfoSector, SizeLow, SizeHigh, Needed, Mount;
    out, f := d, 0;
    var size := FatSize(|d|);
    if size.None? {
      return false, out, 0;
    }
    f := size.value;
    var lba := 0;
    while lba <= RSVD + 2 * f
      invariant 0 <= lba <= RSVD + 2 * f + 1 && |out| == |d|
      invariant forall x :: 0 <= x < lba ==> x !in refused && out[x] == Formatted(|d|, f, d, x)
      invariant forall x :: lba <= x < |d| ==> out[x] == d[x]
    {
      if lba in refused {
        return false, out, f;
      }
      if lba == 0 {
        out := out[lba := BootSector(|d|, f)];
      } else if lba == 1 {
        out := out[lba := InfoSector()];
      } else if lba < RSVD {
        out := out[lba := Zeros(SECTOR)];
      } else if lba < RSVD + NUM_FATS * f {
        out := out[lba := if lba == RSVD || lba == RSVD + f then FirstFatSector() else Zeros(SECTOR)];
      } else {
        out := out[lba := Zeros(SECTOR)];
      }
      lba := lba + 1;
    }
    MountFormatted(|d|, f);
    ok := true;
  }

  /** The FATs and the root of a volume that could be formatted can be used. */
  lemma FormattedUsable(refused: set<nat>, bad: set<nat>, f: nat)
    requires Formattable(refused, f) && bad <= refused
    ensures FatsSpared(FormatGeometry(f), bad) && RSVD + 2 * f !in bad
  {
  }

  lemma ZeroLink(i: nat)
    requires i < 128
    ensures Link(Zeros(SECTOR), i) == 0
  {
    var z := Zeros(SECTOR);
    assert z[4 * i] == 0 && z[4 * i + 1] == 0 && z[4 * i + 2] == 0 && z[4 * i + 3] == 0;
    assert z[4 * i..4 * i + 4] == [0, 0, 0, 0];
  }

  lemma ThirdOf(w: seq<byte>, a: seq<byte>, b: seq<byte>, c: seq<byte>, i: nat)
    requires |a| == |b| == |c| == 4 && w == a + b + c && i < 3
    ensures w[4 * i..4 * i + 4] == if i == 0 then a else if i == 1 then b else c
  {
  }

  lemma FirstLinks(i: nat)
    requires i < 128
    ensures Link(FirstFatSector(), i) == if i == 0 then EOC_MIN else if i <= 2 then EOC else 0
    ensures Link(Zeros(SECTOR), i) == 0
  {
    hide Le32, Word32, Zeros;
    ZeroLink(i);
    var s := FirstFatSector();
    var a, b, c := Le32(EOC_MIN), Le32(0xFFFF_FFFF), Le32(EOC);
    var w := a + b + c;
    if i < 3 {
      Word32OfLe32(EOC_MIN);
      Word32OfLe32(0xFFFF_FFFF);
      Word32OfLe32(EOC);
      ThirdOf(s[0..12], a, b, c, i);
      assert s[4 * i..4 * i + 4] == s[0..12][4 * i..4 * i + 4];
    } else {
      PatchElsewhere(Zeros(SECTOR), 0, w, 4 * i, 4 * i + 4);
    }
  }

  ghost predicate IsFormatted(d: Disk, f: nat) {
    && 1 <= f && RSVD + 2 * f < |d| < 0x1000_0000 && f <= SizeHigh(|d| - 32)
    && (forall lba :: RSVD <= lba <= RSVD + 2 * f ==>
                        d[lba] == if lba == RSVD || lba == RSVD + f then FirstFatSector() else Zeros(SECTOR))
  }

  lemma FormatGeometryValid(d: Disk, f: nat)
    requires IsFormatted(d, f)
    ensures HasFats(FormatGeometry(f), d)
  {
  }

  /** The table of a formatted volume: only the reserved entries and the root cluster are in use. */
  lemma FormattedTable(d: Disk, f: nat, c: nat)
    requires IsFormatted(d, f) && c < 128 * f
    ensures HasFats(FormatGeometry(f), d)
    ensures Fat(FormatGeometry(f), d)[c] == if c == 0 then EOC_MIN else if c <= 2 then EOC else 0
  {
    hide FirstFatSector;
    FormatGeometryValid(d, f);
    FirstLinks(c % 128);
    var lba := FormatGeometry(f).FatSector(0, c / 128);
    assert lba == RSVD + c / 128;
  }

  lemma FormattedMirrored(d: Disk, f: nat)
    requires IsFormatted(d, f)
    ensures HasFats(FormatGeometry(f), d) && Mirrored(FormatGeometry(f), d)
  {
    hide FirstFatSector;
    FormatGeometryValid(d, f);
    var g := FormatGeometry(f);
    forall k, i | 0 <= k < g.numFats && 0 <= i < g.fatSz
      ensures g.FatSector(k, i) < |d| && g.FatSector(0, i) < |d| && d[g.FatSector(k, i)] == d[g.FatSector(0, i)]
    {
      assert g.FatSector(k, i) == if k == 0 then RSVD + i else RSVD + f + i;
    }
  }

  /** Formatting establishes the invariant of the file operations: equal FAT copies, in-range links,
      a root directory that is a proper chain, and no entries. */
  lemma FormattedIsEmpty(d: Disk, f: nat, bad: set<nat>)
    requires IsFormatted(d, f) && RSVD + 2 * f !in bad
    ensures var g := FormatGeometry(f);
            && HasFats(g, d) && Mirrored(g, d) && Sound(Fat(g, d)) && IsChain(Fat(g, d), [2])
            && HeadsOf(g, bad, d, [2], map[]) && Apart(Fat(g, d), [2], map[])
            && NoDots(g, bad, d, [2]) && AllAlike(g, bad, d, [2])
            && ScanAll(g, bad, d, [2], FreeSlot) == At(Pos(0, 0, 0))
  {
    hide FatCopy, FirstFatSector, Geometry.DataLba;
    FormatGeometryValid(d, f);
    FormattedMirrored(d, f);
    var g := FormatGeometry(f);
    var t := Fat(g, d);
    forall c | 0 <= c < |t|
      ensures t[c] == if c == 0 then EOC_MIN else if c <= 2 then EOC else 0
    {
      FormattedTable(d, f, c);
    }
    DataLbaExact(g, 2, 0);
    assert g.DataLba(2, 0) == RSVD + 2 * f;
    forall p: Pos | InDir(g, [2], p)
      ensures SlotAt(g, bad, d, [2], p) == Some(Zeros(32))
    {
      assert p.s == 0 && p.i == 0;
      assert Zeros(SECTOR)[32 * p.j..32 * p.j + 32] == Zeros(32);
    }
    ScanStep(g, bad, d, [2], FreeSlot, Pos(0, 0, 0));
  }
}
