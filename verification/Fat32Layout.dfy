/** On-disk layout of a FAT32 volume with 512-byte sectors: where the FAT copies and the
    clusters live, and the table of 28-bit links that a FAT copy denotes. */
module Fat32Layout {
  import opened Bytes

  const BAD_CLUSTER: nat := 0x0FFF_FFF7
  const EOC_MIN: nat := 0x0FFF_FFF8
  const EOC: nat := 0x0FFF_FFFF
  const TWO28: nat := 0x1000_0000

  /** The mounted BPB fields. */
  datatype Geometry = Geometry(rsvd: nat, numFats: nat, fatSz: nat, secPerClus: nat, rootClus: nat) {
    function Entries(): nat { fatSz * 128 }

    function ClusterBegin(): nat { rsvd + numFats * fatSz }

    /** A mount whose cluster numbers fit in 28 bits and whose sector numbers fit in 32 bits. */
    ghost predicate Valid() {
      && 1 <= numFats && 1 <= fatSz && 1 <= secPerClus
      && Entries() <= BAD_CLUSTER
      && ClusterBegin() + Entries() * secPerClus <= TWO32
      && 2 <= rootClus < Entries()
    }

    /** Sector `s` of a cluster, in the 32-bit arithmetic of the source. */
    function DataLba(c: nat, s: nat): nat {
      (ClusterBegin() + (c - 2) * secPerClus + s) % TWO32
    }

    /** Sector `i` of FAT copy `k`. */
    function FatSector(k: nat, i: nat): nat { rsvd + k * fatSz + i }
  }

  /** Distinct positions of the FAT area are distinct sectors, all below the cluster area. */
  lemma FatSectorInjective(g: Geometry, k: nat, i: nat, k': nat, i': nat)
    requires k < g.numFats && i < g.fatSz && k' < g.numFats && i' < g.fatSz
    ensures g.rsvd <= g.FatSector(k, i) < g.ClusterBegin()
    ensures g.FatSector(k, i) == g.FatSector(k', i') ==> k == k' && i == i'
  {
    MulStep(k, g.numFats, g.fatSz);
    if g.FatSector(k, i) == g.FatSector(k', i') {
      DigitsUnique(g.fatSz, k, i, k', i');
    }
  }

  /** The sectors of cluster `c`. */
  ghost predicate InCluster(g: Geometry, c: nat, lba: nat) {
    var first := g.ClusterBegin() + (c - 2) * g.secPerClus;
    first <= lba < first + g.secPerClus
  }

  /** For the cluster numbers of the table the address computation does not wrap. */
  lemma DataLbaExact(g: Geometry, c: nat, s: nat)
    requires g.Valid() && 2 <= c < g.Entries() && s < g.secPerClus
    ensures g.DataLba(c, s) == g.ClusterBegin() + (c - 2) * g.secPerClus + s
    ensures InCluster(g, c, g.DataLba(c, s)) && g.ClusterBegin() <= g.DataLba(c, s)
  {
    MulStep(c - 2, g.Entries(), g.secPerClus);
    MulMonotone(0, c - 2, g.secPerClus);
  }

  /** Different clusters share no sector. */
  lemma ClustersDisjoint(g: Geometry, c: nat, c': nat, lba: nat)
    requires g.Valid() && InCluster(g, c, lba) && InCluster(g, c', lba)
    ensures c == c'
  {
    if c < c' {
      MulStep(c - 2, c' - 2, g.secPerClus);
      assert false;
    } else if c' < c {
      MulStep(c' - 2, c - 2, g.secPerClus);
      assert false;
    }
  }

  lemma ClusterAboveFat(g: Geometry, c: nat, lba: nat)
    requires g.Valid() && 2 <= c && InCluster(g, c, lba)
    ensures g.ClusterBegin() <= lba
  {
    MulMonotone(0, c - 2, g.secPerClus);
  }

  /** The link stored in slot `j` of a FAT sector. */
  function Link(s: Sector, j: nat): (v: nat)
    requires j < 128
    ensures v < TWO28
  {
    Word32(s[4 * j..4 * j + 4]) % TWO28
  }

  /** Where a link stands, and that its four high bits are not part of it. */
  lemma LinkField(s: Sector, j: nat)
    requires j < 128
    ensures Link(s, j) == LittleEndian(s[4 * j..4 * j + 4]) % 0x1000_0000
  {
    LittleEndianWords(s[4 * j..4 * j + 4]);
  }

  /** A FAT sector after storing `v` in slot `j`. */
  function SetLink(s: Sector, j: nat, v: nat): (r: Sector)
    requires j < 128
  {
    Patch(s, 4 * j, Le32(v % TWO28))
  }

  /** The four bytes that are stored: the low 28 bits, with nothing above them. */
  lemma SetLinkField(s: Sector, j: nat, v: nat)
    requires j < 128
    ensures LittleEndian(SetLink(s, j, v)[4 * j..4 * j + 4]) == v % 0x1000_0000
  {
    LittleEndianOfLe32(v % TWO28);
  }

  lemma LinkOfSetLink(s: Sector, j: nat, v: nat, i: nat)
    requires j < 128 && i < 128
    ensures Link(SetLink(s, j, v), i) == if i == j then v % TWO28 else Link(s, i)
  {
    if i == j {
      Word32OfLe32(v % TWO28);
    } else {
      PatchElsewhere(s, 4 * j, Le32(v % TWO28), 4 * i, 4 * i + 4);
    }
  }

  ghost predicate HasFats(g: Geometry, d: Disk) {
    g.Valid() && g.ClusterBegin() <= |d|
  }

  /** The table denoted by FAT copy `k`. */
  ghost function FatCopy(g: Geometry, d: Disk, k: nat): (t: seq<nat>)
    requires HasFats(g, d) && k < g.numFats
    ensures |t| == g.Entries()
    ensures forall c :: 0 <= c < |t| ==> t[c] < TWO28
  {
    FatCopyBound(g, k);
    seq(g.Entries(), c requires 0 <= c < g.Entries() => Link(d[g.FatSector(k, c / 128)], c % 128))
  }

  lemma FatCopyBound(g: Geometry, k: nat)
    requires g.Valid() && k < g.numFats
    ensures forall i :: 0 <= i < g.fatSz ==> g.FatSector(k, i) < g.ClusterBegin()
  {
    forall i | 0 <= i < g.fatSz
      ensures g.FatSector(k, i) < g.ClusterBegin()
    {
      FatSectorInjective(g, k, i, k, i);
    }
  }

  /** The table the volume runs on: the first copy. */
  ghost function Fat(g: Geometry, d: Disk): (t: seq<nat>)
    requires HasFats(g, d)
    ensures |t| == g.Entries()
    ensures forall c :: 0 <= c < |t| ==> t[c] < TWO28
  {
    FatCopy(g, d, 0)
  }

  /** All FAT copies hold the same sectors. */
  ghost predicate Mirrored(g: Geometry, d: Disk)
    requires HasFats(g, d)
  {
    forall k, i :: 0 <= k < g.numFats && 0 <= i < g.fatSz ==>
                     g.FatSector(k, i) < |d| && g.FatSector(0, i) < |d| && d[g.FatSector(k, i)] == d[g.FatSector(0, i)]
  }

  /** Byte-identical copies denote the same table. */
  lemma MirroredTables(g: Geometry, d: Disk, k: nat)
    requires HasFats(g, d) && Mirrored(g, d) && k < g.numFats
    ensures FatCopy(g, d, k) == Fat(g, d)
  {
    forall c | 0 <= c < g.Entries()
      ensures FatCopy(g, d, k)[c] == Fat(g, d)[c]
    {
      assert d[g.FatSector(k, c / 128)] == d[g.FatSector(0, c / 128)];
    }
  }

  /** The two disks agree outside the FAT area. */
  ghost predicate SameOutsideFats(g: Geometry, d: Disk, d': Disk) {
    && |d'| == |d|
    && forall lba :: 0 <= lba < |d| && !(g.rsvd <= lba < g.ClusterBegin()) ==> d'[lba] == d[lba]
  }

  /** Only the FATs differ, and equal copies stayed equal. */
  ghost predicate FatsOnly(g: Geometry, d: Disk, d': Disk) {
    && HasFats(g, d) && HasFats(g, d')
    && SameOutsideFats(g, d, d')
    && (Mirrored(g, d) ==> Mirrored(g, d'))
  }

  lemma FatsOnlySelf(g: Geometry, d: Disk)
    requires HasFats(g, d)
    ensures FatsOnly(g, d, d)
  {
  }

  lemma FatsOnlyChain(g: Geometry, d: Disk, d1: Disk, d2: Disk)
    requires FatsOnly(g, d, d1) && FatsOnly(g, d1, d2)
    ensures FatsOnly(g, d, d2)
  {
  }

  /** The two disks agree on the FAT area. */
  ghost predicate SameFats(g: Geometry, d: Disk, d': Disk) {
    && |d'| == |d|
    && forall lba :: 0 <= lba < |d| && g.rsvd <= lba < g.ClusterBegin() ==> d'[lba] == d[lba]
  }

  lemma SameFatsSameTable(g: Geometry, d: Disk, d': Disk)
    requires HasFats(g, d) && SameFats(g, d, d')
    ensures HasFats(g, d') && Fat(g, d') == Fat(g, d)
    ensures Mirrored(g, d) ==> Mirrored(g, d')
  {
    forall k, i | 0 <= k < g.numFats && 0 <= i < g.fatSz
      ensures g.rsvd <= g.FatSector(k, i) < g.ClusterBegin() && d'[g.FatSector(k, i)] == d[g.FatSector(k, i)]
    {
      FatSectorInjective(g, k, i, k, i);
    }
    forall c | 0 <= c < g.Entries()
      ensures Fat(g, d')[c] == Fat(g, d)[c]
    {
      assert d'[g.FatSector(0, c / 128)] == d[g.FatSector(0, c / 128)];
    }
  }

  /** `d` after the first `n` FAT copies stored `v` for cluster `c`. */
  ghost function StoreLink(g: Geometry, d: Disk, c: nat, v: nat, n: nat): (r: Disk)
    requires HasFats(g, d) && c < g.Entries() && n <= g.numFats
    ensures |r| == |d|
  {
    if n == 0 then d
    else
      var r := StoreLink(g, d, c, v, n - 1);
      FatCopyBound(g, n - 1);
      var lba := g.FatSector(n - 1, c / 128);
      r[lba := SetLink(r[lba], c % 128, v)]
  }

  /** Every sector after `StoreLink`: the addressed one of each updated copy is patched, no other. */
  lemma {:induction false} StoreLinkSectors(g: Geometry, d: Disk, c: nat, v: nat, n: nat, k: nat, i: nat)
    requires HasFats(g, d) && c < g.Entries() && n <= g.numFats
    requires k < g.numFats && i < g.fatSz
    ensures g.FatSector(k, i) < |d|
    ensures StoreLink(g, d, c, v, n)[g.FatSector(k, i)]
         == if k < n && i == c / 128 then SetLink(d[g.FatSector(k, i)], c % 128, v) else d[g.FatSector(k, i)]
  {
    hide SetLink, Geometry.FatSector, Geometry.ClusterBegin;
    FatSectorInjective(g, k, i, k, i);
    if n > 0 {
      StoreLinkSectors(g, d, c, v, n - 1, k, i);
      FatSectorInjective(g, k, i, n - 1, c / 128);
    }
  }

  lemma {:induction false} StoreLinkFrame(g: Geometry, d: Disk, c: nat, v: nat, n: nat)
    requires HasFats(g, d) && c < g.Entries() && n <= g.numFats
    ensures SameOutsideFats(g, d, StoreLink(g, d, c, v, n))
  {
    assert c / 128 < g.fatSz;
    hide Geometry.Valid, Geometry.FatSector, Geometry.ClusterBegin, SetLink;
    if n > 0 {
      StoreLinkFrame(g, d, c, v, n - 1);
      FatSectorInjective(g, n - 1, c / 128, n - 1, c / 128);
    }
  }

  /** Storing a link updates exactly one key of every copy's table and keeps the copies equal. */
  lemma StoreLinkRefines(g: Geometry, d: Disk, c: nat, v: nat)
    requires HasFats(g, d) && c < g.Entries()
    ensures var d' := StoreLink(g, d, c, v, g.numFats);
            && SameOutsideFats(g, d, d')
            && (forall k :: 0 <= k < g.numFats ==> FatCopy(g, d', k) == FatCopy(g, d, k)[c := v % TWO28])
            && (Mirrored(g, d) ==> Mirrored(g, d'))
  {
    var d' := StoreLink(g, d, c, v, g.numFats);
    StoreLinkFrame(g, d, c, v, g.numFats);
    forall k | 0 <= k < g.numFats
      ensures FatCopy(g, d', k) == FatCopy(g, d, k)[c := v % TWO28]
    {
      forall x | 0 <= x < g.Entries()
        ensures FatCopy(g, d', k)[x] == FatCopy(g, d, k)[c := v % TWO28][x]
      {
        StoreLinkSectors(g, d, c, v, g.numFats, k, x / 128);
        LinkOfSetLink(d[g.FatSector(k, x / 128)], c % 128, v, x % 128);
      }
    }
    if Mirrored(g, d) {
      forall k, i | 0 <= k < g.numFats && 0 <= i < g.fatSz
        ensures g.FatSector(k, i) < |d'| && g.FatSector(0, i) < |d'| && d'[g.FatSector(k, i)] == d'[g.FatSector(0, i)]
      {
        StoreLinkSectors(g, d, c, v, g.numFats, k, i);
        StoreLinkSectors(g, d, c, v, g.numFats, 0, i);
      }
    }
  }

  /** The same for the table the volume runs on. */
  lemma StoreLinkTable(g: Geometry, d: Disk, c: nat, v: nat)
    requires HasFats(g, d) && c < g.Entries()
    ensures var d' := StoreLink(g, d, c, v, g.numFats);
            FatsOnly(g, d, d') && Fat(g, d') == Fat(g, d)[c := v % TWO28]
  {
    StoreLinkRefines(g, d, c, v);
  }
}
