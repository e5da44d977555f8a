/** Subdirectories: making one, and seeing the volume from another directory. */
module Fat32Subdir {
  import opened Bytes
  import opened Fat32Layout
  import opened Fat32Chain
  import opened Fat32File
  import opened Fat32Name
  import opened Fat32Dir
  import opened Fat32Owner
  import opened Fat32Volume
  import opened Fat32Files
  import opened Fat32Run
  import opened Fat32Session

  // --- The same volume from another directory -------------------------------------------------

  /** `hs` has the chains of `heads` under other positions, `m`, except that the chain at `f` is left out
      and in its place stands the directory that starts at `dir`. */
  ghost predicate Rekeyed(heads: map<Pos, nat>, f: Pos, dir: nat, hs: map<Pos, nat>, m: map<Pos, Pos>) {
    && m.Keys == hs.Keys
    && (forall q :: q in hs ==> m[q] in heads && hs[q] == if m[q] == f then dir else heads[m[q]])
    && (forall q, r :: q in hs && r in hs && m[q] == m[r] ==> q == r)
  }

  /** The invariant does not depend on the directory from which it is stated. */
  lemma Reroot(g: Geometry, bad: set<nat>, stuck: set<nat>, d: Disk, dirs: seq<nat>, heads: map<Pos, nat>,
               f: Pos, ds: seq<nat>, hs: map<Pos, nat>, m: map<Pos, Pos>)
    requires Orderly(g, bad, stuck, d, dirs, heads) && f in heads && Rekeyed(heads, f, dirs[0], hs, m)
    requires IsChain(Fat(g, d), ds) && heads[f] == ds[0] && HeadsOf(g, bad, d, ds, hs)
    ensures Orderly(g, bad, stuck, d, ds, hs)
  {
    hide FatCopy, Geometry.Valid, HeadsOf, FatsSpared;
    var t := Fat(g, d);
    RerootApart(t, dirs, heads, f, ds, hs, m);
  }

  lemma RerootApart(t: seq<nat>, dirs: seq<nat>, heads: map<Pos, nat>, f: Pos, ds: seq<nat>, hs: map<Pos, nat>, m: map<Pos, Pos>)
    requires Sound(t) && IsChain(t, dirs) && IsChain(t, ds) && Apart(t, dirs, heads)
    requires f in heads && heads[f] == ds[0] && Rekeyed(heads, f, dirs[0], hs, m)
    ensures Apart(t, ds, hs)
  {
    ChainReachable(t, dirs);
    ChainReachable(t, ds);
    forall x | x in dirs
      ensures t[x] != 0
    {
      var i :| 0 <= i < |dirs| && dirs[i] == x;
      ChainLink(t, dirs, i);
    }
    hide Reachable;
    forall q, x: nat | q in hs && Reachable(t, hs[q], x)
      ensures t[x] != 0 && x !in ds
    {
      if m[q] == f {
        assert x in dirs;
      } else {
        assert Reachable(t, heads[m[q]], x);
      }
    }
    forall q, r, x: nat | q in hs && r in hs && q != r && Reachable(t, hs[q], x)
      ensures !Reachable(t, hs[r], x)
    {
      assert m[q] != m[r];
    }
  }

  // --- Making a directory ---------------------------------------------------------------------

  /** The slots of a new directory: itself, its parent, and free ones. */
  function FirstSlot(p: Pos, c: nat, parent: nat): (s: Slot)
    requires c < TWO32 && parent < TWO32
  {
    if p == Pos(0, 0, 0) then MakeEntry(Zeros(32), DOT_NAME, 0x10, c, 0)
    else if p == Pos(0, 0, 1) then MakeEntry(Zeros(32), DOTDOT_NAME, 0x10, parent, 0)
    else Zeros(32)
  }

  ghost predicate NewDir(g: Geometry, bad: set<nat>, d: Disk, c: nat, parent: nat) {
    && c < TWO32 && parent < TWO32
    && forall p: Pos :: InDir(g, [c], p) ==> SlotAt(g, bad, d, [c], p) == Some(FirstSlot(p, c, parent))
  }

  /** What the slots of a new directory say: the first is named "." and records the directory itself, the
      second is named ".." and records its parent, and from the third on the directory has ended. */
  lemma NewDirEntries(g: Geometry, bad: set<nat>, d: Disk, c: nat, parent: nat, p: Pos)
    requires NewDir(g, bad, d, c, parent) && InDir(g, [c], p)
    ensures SlotAt(g, bad, d, [c], p).Some?
    ensures var s := SlotAt(g, bad, d, [c], p).value;
            if p == Pos(0, 0, 0) || p == Pos(0, 0, 1) then
              && s[0] == 46 && s[1] == (if p.j == 0 then 32 else 46) && (forall i :: 2 <= i < 11 ==> s[i] == 32) && s[11] == 0x10
              && SlotCluster(s) == (if p.j == 0 then c else parent) && SlotSize(s) == 0
            else s[0] == 0
  {
    hide SlotAt, SlotCluster, SlotSize, MakeEntry;
    EntryFields(Zeros(32), DOT_NAME, 0x10, c, 0);
    EntryFields(Zeros(32), DOTDOT_NAME, 0x10, parent, 0);
    var s := SlotAt(g, bad, d, [c], p).value;
    assert forall i :: 0 <= i < 11 ==> s[i] == s[..11][i];
  }

  /** No slot of a new directory owns a chain, and both sides read the names alike. */
  lemma FirstSlotOwnsNothing(p: Pos, c: nat, parent: nat)
    requires c < TWO32 && parent < TWO32
    ensures !Owns(FirstSlot(p, c, parent))
    ensures FirstSlot(p, c, parent)[0] == FREE || Alike(FirstSlot(p, c, parent))
  {
    var s := FirstSlot(p, c, parent);
    if p == Pos(0, 0, 0) {
      EntryFields(Zeros(32), DOT_NAME, 0x10, c, 0);
      DotAlike(s);
    } else if p == Pos(0, 0, 1) {
      EntryFields(Zeros(32), DOTDOT_NAME, 0x10, parent, 0);
      DotAlike(s);
    }
  }

  lemma DotAlike(s: Slot)
    requires IsDot(s)
    ensures Alike(s)
  {
    DotDecodes(s);
    var name: seq<byte> := if s[..11] == DOT_NAME then [DOT] else [DOT, DOT];
    assert s[..8] == s[..11][..8] == name + seq(8 - |name|, _ => SPACE);
    assert s[8..11] == s[..11][8..] && s[8] == SPACE;
    hide UpTo, RemoverName;
    UpToAll(name, seq(8 - |name|, _ => SPACE), SPACE);
    UpToAll(name, [], 0);
    assert name + [] == name;
  }

  /** A slot with name, attribute and cluster overwritten; the other bytes stay. */
  function Dotted(was: Slot, name: seq<byte>, c: nat): (s: Slot)
    requires |name| == 11 && c < TWO32
  {
    name + [0x10] + was[12..20] + Le32(c)[2..4] + was[22..26] + Le32(c)[0..2] + was[28..32]
  }

  /** The sector with the two first entries written over its first two slots. */
  function DotSector(sec: Sector, c: nat, parent: nat): (r: Sector)
    requires c < TWO32 && parent < TWO32
  {
    Patch(Patch(sec, 0, Dotted(SlotIn(sec, 0), DOT_NAME, c)), 32, Dotted(SlotIn(sec, 1), DOTDOT_NAME, parent))
  }

  lemma DottedZeros(name: seq<byte>, c: nat)
    requires |name| == 11 && c < TWO32
    ensures Dotted(Zeros(32), name, c) == MakeEntry(Zeros(32), name, 0x10, c, 0)
  {
    var z := Zeros(32);
    assert z[12..20] == Zeros(8);
    assert z[28..32] == Le32(0);
  }

  lemma DotSectorSlots(c: nat, parent: nat, j: nat)
    requires c < TWO32 && parent < TWO32 && j < 16
    ensures SlotIn(DotSector(Zeros(SECTOR), c, parent), j) == FirstSlot(Pos(0, 0, j), c, parent)
  {
    hide Dotted, MakeEntry, Patch;
    var z := Zeros(SECTOR);
    assert SlotIn(z, 0) == Zeros(32) && SlotIn(z, 1) == Zeros(32) && SlotIn(z, j) == Zeros(32);
    DottedZeros(DOT_NAME, c);
    DottedZeros(DOTDOT_NAME, parent);
    var a := Dotted(Zeros(32), DOT_NAME, c);
    var b := Dotted(Zeros(32), DOTDOT_NAME, parent);
    if j != 1 {
      PatchElsewhere(Patch(z, 0, a), 32, b, 32 * j, 32 * j + 32);
    }
    if j != 0 {
      PatchElsewhere(z, 0, a, 32 * j, 32 * j + 32);
    }
  }

  lemma ZeroChunk(n: nat, pos: nat)
    requires pos + SECTOR <= n
    ensures Chunk(Zeros(n), pos) == Zeros(SECTOR)
  {
  }

  /** Every sector of the cluster can be written. */
  ghost predicate Clearable(g: Geometry, refused: set<nat>, n: nat, c: nat) {
    ClusterWritable(g, refused, n, c, ClusterSize(g), 0)
  }

  /** Clear the cluster of a new directory and write its first two entries. */
  method InitDir(v: Volume, c: nat, parent: nat) returns (ok: bool)
    requires v.Valid() && IsCluster(v.Table(), c) && c < TWO32 && parent < TWO32
    modifies v
    ensures v.Valid() && SameFats(v.geo, old(v.disk), v.disk) && OnlyClusters(v.geo, [c], old(v.disk), v.disk)
    ensures ok <==> Clearable(v.geo, v.Refused(), |v.disk|, c)
    ensures ok ==> NewDir(v.geo, v.bad, v.disk, c, parent)
  {
    hide FatCopy, Geometry.Valid, Geometry.DataLba, OnlyClusters, SameFats, NewDir, DotSector, Sound, FatsSpared;
    SomeSectors(v.geo, v.disk);
    ghost var d := v.disk;
    var end;
    ok, end := v.WriteCluster(c, Zeros(v.geo.secPerClus * SECTOR), 0);
    if ok {
      ghost var d1 := v.disk;
      var lba := v.geo.DataLba(c, 0);
      ZeroCluster(v.geo, v.bad, d1, c);
      var sector := v.ReadSector(lba);
      assert sector == Some(Zeros(SECTOR)) && Writable(v.Refused(), |d1|, lba);
      ok := v.WriteSector(lba, DotSector(sector.value, c, parent));
      NewDirIs(v.geo, v.bad, d, d1, c, parent);
      SameFatsSameTable(v.geo, d, v.disk);
    }
  }

  lemma ZeroCluster(g: Geometry, bad: set<nat>, d: Disk, c: nat)
    requires ClusterHolds(g, bad, d, c, Zeros(ClusterSize(g)), 0)
    ensures forall s :: 0 <= s < g.secPerClus ==> SectorAt(bad, d, g.DataLba(c, s)) == Some(Zeros(SECTOR))
  {
    forall s | 0 <= s < g.secPerClus
      ensures SectorAt(bad, d, g.DataLba(c, s)) == Some(Zeros(SECTOR))
    {
      ZeroChunk(ClusterSize(g), SECTOR * s);
    }
  }

  lemma NewDirIs(g: Geometry, bad: set<nat>, d: Disk, d1: Disk, c: nat, parent: nat)
    requires HasFats(g, d) && 2 <= c < g.Entries() && c < TWO32 && parent < TWO32 && g.secPerClus >= 1
    requires SameFats(g, d, d1) && OnlyClusters(g, [c], d, d1)
    requires forall s :: 0 <= s < g.secPerClus ==> SectorAt(bad, d1, g.DataLba(c, s)) == Some(Zeros(SECTOR))
    ensures g.DataLba(c, 0) < |d1|
    ensures var d2 := d1[g.DataLba(c, 0) := DotSector(Zeros(SECTOR), c, parent)];
            SameFats(g, d, d2) && OnlyClusters(g, [c], d, d2) && NewDir(g, bad, d2, c, parent)
  {
    hide Geometry.Valid, Geometry.DataLba, Geometry.ClusterBegin, DotSector, InCluster, MakeEntry, FirstSlot, SlotIn;
    var lba := g.DataLba(c, 0);
    assert SectorAt(bad, d1, lba).Some?;
    DataLbaExact(g, c, 0);
    var d2 := d1[lba := DotSector(Zeros(SECTOR), c, parent)];
    assert InCluster(g, [c][0], lba);
    forall p: Pos | InDir(g, [c], p)
      ensures SlotAt(g, bad, d2, [c], p) == Some(FirstSlot(p, c, parent))
    {
      DataLbaExact(g, c, p.s);
      assert p == Pos(0, p.s, p.j);
      if p.s == 0 {
        DotSectorSlots(c, parent, p.j);
      } else {
        FreeSlots(p, c, parent);
      }
    }
  }

  lemma FreeSlots(p: Pos, c: nat, parent: nat)
    requires p.s != 0 && p.j < 16 && c < TWO32 && parent < TWO32
    ensures SlotIn(Zeros(SECTOR), p.j) == FirstSlot(p, c, parent)
  {
  }

  /** What adding the entry of a new directory does: the lowest free cluster is a chain of its own, and the
      first free slot names it. An entry that is named like a dot entry does not count as its owner. */
  ghost predicate Entered(g: Geometry, bad: set<nat>, d: Disk, d': Disk, dirs: seq<nat>, heads: map<Pos, nat>,
                          name11: seq<byte>, c: nat, e: Slot, now: map<Pos, nat>)
  {
    && HasFats(g, d) && HasFats(g, d') && ScanAll(g, bad, d, dirs, FreeSlot).At?
    && FreeList(Fat(g, d)) != [] && c == FreeList(Fat(g, d))[0] && IsCluster(Fat(g, d'), c) && Fat(g, d') == Fat(g, d)[c := EOC]
    && e[..11] == name11 && e[11] == 0x10 && SlotCluster(e) == c && SlotSize(e) == 0
    && var p := ScanAll(g, bad, d, dirs, FreeSlot).pos;
       && p !in heads && now == HeadsPut(heads, p, e) && SlotsBecome(g, bad, d, d', dirs, p, e)
       && Apart(Fat(g, d'), dirs, heads[p := c])
  }

  ghost predicate CanEnter(g: Geometry, bad: set<nat>, stuck: set<nat>, d: Disk, dirs: seq<nat>)
    requires HasFats(g, d)
  {
    FreeList(Fat(g, d)) != [] && CanAdd(g, bad, stuck, d, dirs)
  }

  /** Take a cluster and add the entry that names it, or give it back. */
  method EnterDir(v: Volume, dir: nat, name11: seq<byte>, ghost dirs: seq<nat>, ghost heads: map<Pos, nat>)
    returns (added: bool, c: nat, ghost e: Slot, ghost now: map<Pos, nat>)
    requires DirOk(v, dirs, heads) && dirs[0] == dir && |name11| == 11
    modifies v
    ensures DirOk(v, dirs, now) && (old(Mirrored(v.geo, v.disk)) ==> Mirrored(v.geo, v.disk))
    ensures SameFiles(v.geo, old(v.disk), v.disk, heads)
    ensures added <==> CanEnter(v.geo, v.bad, v.stuck, old(v.disk), dirs)
    ensures !added ==> now == heads && v.Table() == old(v.Table()) && SameDir(v.geo, old(v.disk), v.disk, dirs)
    ensures added ==> Entered(v.geo, v.bad, old(v.disk), v.disk, dirs, heads, name11, c, e, now)
  {
    hide FatCopy, Geometry.Valid, Mirrored, HeadsOf, Apart, IsChain, Scan, SameFiles, Building, OnlyClusters, SameFats, HeadsPut, MakeEntry,
         PosLba, FatsSpared, Sound, SameDir, SlotsBecome, FreeList, CanAdd, LowestFree, NoneFree, SlotCluster, SlotSize, FatsOnly;
    ghost var d := v.disk;
    ghost var t := v.Table();
    added, e, now := false, Zeros(32), heads;
    c := v.AllocCluster();
    Taken(t, c);
    if c == 0 {
      SameFilesSelf(v.geo, d, heads);
      SameDirSelf(v.geo, d, dirs);
      return;
    }
    ghost var d1 := v.disk;
    AfterAlloc(v.geo, v.bad, v.stuck, d, d1, dirs, heads, c);
    ghost var was;
    added, was := AddEntry(v, dir, name11, 0x10, c, 0, dirs, heads);
    if added {
      e := MakeEntry(was, name11, 0x10, c, 0);
      EntryFields(was, name11, 0x10, c, 0);
      CanAddAt(v.geo, v.bad, v.stuck, d, dirs);
      EntryFacts(v.geo, v.bad, d, d1, v.disk, dirs, heads, [c], e);
      now := HeadsPut(heads, ScanAll(v.geo, v.bad, d, dirs, FreeSlot).pos, e);
    } else {
      v.FreeClusterChain(c);
      BuildUndone(t, [c], Fat(v.geo, d1), v.Table());
      AllocUndone(v.geo, d, d1, v.disk, c);
      AfterChain(v.geo, v.bad, v.stuck, d, v.disk, dirs, heads, [c]);
    }
  }

  lemma Taken(t: seq<nat>, c: nat)
    requires Sound(t)
    ensures NoneFree(t) <==> FreeList(t) == []
    ensures LowestFree(t, c) ==> FreeList(t) != [] && c == FreeList(t)[0] && IsCluster(t, c) && c < TWO32 && Building(t, [c], t[c := EOC])
  {
    hide FreeList;
    BuildNothing(t);
    NextFree(t, [], t);
    if LowestFree(t, c) {
      BuildOneMore(t, [], t, c);
      assert [] + [c] == [c];
    }
  }

  lemma AfterAlloc(g: Geometry, bad: set<nat>, stuck: set<nat>, d: Disk, d1: Disk, dirs: seq<nat>, heads: map<Pos, nat>, c: nat)
    requires Orderly(g, bad, stuck, d, dirs, heads) && FatsOnly(g, d, d1) && Building(Fat(g, d), [c], Fat(g, d1))
    ensures HasFats(g, d1) && SameDir(g, d, d1, dirs) && HeadsOf(g, bad, d1, dirs, heads) && IsChain(Fat(g, d1), dirs)
    ensures SameFiles(g, d, d1, heads) && LinkOk(Fat(g, d1), c) && (Mirrored(g, d) ==> Mirrored(g, d1))
    ensures ScanAll(g, bad, d1, dirs, FreeSlot) == ScanAll(g, bad, d, dirs, FreeSlot)
    ensures CanAdd(g, bad, stuck, d1, dirs) == CanAdd(g, bad, stuck, d, dirs)
  {
    hide FatCopy, Geometry.Valid, Mirrored, HeadsOf, Apart, IsChain, Scan, SameFiles, Building, FatsSpared, Sound, SameDir, CanAdd, OnlyClusters;
    BuildFacts(Fat(g, d), [c], Fat(g, d1));
    AllocOnly(g, d, d1, c);
    AfterChain(g, bad, stuck, d, d1, dirs, heads, [c]);
  }

  lemma AllocOnly(g: Geometry, d: Disk, d1: Disk, c: nat)
    requires FatsOnly(g, d, d1)
    ensures OnlyClusters(g, [c], d, d1)
    ensures HasFats(g, d) && HasFats(g, d1) && (Mirrored(g, d) ==> Mirrored(g, d1))
  {
    hide Mirrored;
    SameFatsSelf(g, d, [c]);
    OnlyClustersThenFats(g, [c], d, d, d1);
  }

  lemma AllocUndone(g: Geometry, d: Disk, d1: Disk, d2: Disk, c: nat)
    requires FatsOnly(g, d, d1) && FatsOnly(g, d1, d2)
    ensures OnlyClusters(g, [c], d, d2)
    ensures HasFats(g, d) && HasFats(g, d2) && (Mirrored(g, d) ==> Mirrored(g, d2))
  {
    hide OnlyClusters, FatsOnly, Mirrored;
    FatsOnlyChain(g, d, d1, d2);
    AllocOnly(g, d, d2, c);
  }

  /** What is written into the new cluster touches nothing else. */
  lemma OutsideWrite(g: Geometry, bad: set<nat>, stuck: set<nat>, d: Disk, d': Disk, dirs: seq<nat>, heads: map<Pos, nat>, now: map<Pos, nat>, p: Pos, c: nat)
    requires Orderly(g, bad, stuck, d, dirs, now) && SameFats(g, d, d') && OnlyClusters(g, [c], d, d')
    requires IsCluster(Fat(g, d), c) && p !in heads && Apart(Fat(g, d), dirs, heads[p := c])
    ensures Orderly(g, bad, stuck, d', dirs, now) && Fat(g, d') == Fat(g, d)
    ensures SameFiles(g, d, d', heads) && SameDir(g, d, d', dirs)
    ensures Mirrored(g, d) ==> Mirrored(g, d')
  {
    SameFatsSameTable(g, d, d');
    ChainIsGoodDir(g, Fat(g, d), dirs);
    hide FatCopy, Geometry.Valid, HeadsOf, Apart, IsChain, SameFile, SameFats, OnlyClusters, FatsSpared, Sound, GoodDir, SameDir, Mirrored;
    NewIsApart(Fat(g, d), dirs, heads, p, c);
    OutsideSameDir(g, d, d', dirs, c);
    SameDirHeads(g, bad, d, d', dirs, now);
    forall q | q in heads
      ensures SameFile(g, d, d', heads[q])
    {
      DirWriteSameFile(g, d, d', [c], heads, 0, q);
    }
  }

  lemma NewIsApart(t: seq<nat>, dirs: seq<nat>, heads: map<Pos, nat>, p: Pos, c: nat)
    requires IsCluster(t, c) && p !in heads && Apart(t, dirs, heads[p := c])
    ensures Apart(t, [c], heads) && c !in dirs
  {
    assert Nth(t, c, 0) == Some(c);
    assert Reachable(t, c, c);
    hide Reachable;
    var hs := heads[p := c];
    assert hs[p] == c;
    assert forall q :: q in heads ==> hs[q] == heads[q];
  }

  lemma OutsideSameDir(g: Geometry, d: Disk, d': Disk, dirs: seq<nat>, c: nat)
    requires GoodDir(g, dirs) && OnlyClusters(g, [c], d, d') && c !in dirs
    ensures SameDir(g, d, d', dirs)
  {
    hide Geometry.Valid, InCluster;
    forall i: nat, lba: nat | i < |dirs| && InCluster(g, dirs[i], lba) && lba < |d|
      ensures d'[lba] == d[lba]
    {
      ClusterAboveFat(g, dirs[i], lba);
      if d'[lba] != d[lba] {
        var k: nat :| k < 1 && InCluster(g, [c][k], lba);
        ClustersDisjoint(g, c, dirs[i], lba);
      }
    }
  }

  lemma EnteredFacts(g: Geometry, bad: set<nat>, stuck: set<nat>, d: Disk, d1: Disk, dirs: seq<nat>, heads: map<Pos, nat>,
                     name11: seq<byte>, c: nat, e: Slot, now: map<Pos, nat>)
    requires Orderly(g, bad, stuck, d1, dirs, now) && Entered(g, bad, d, d1, dirs, heads, name11, c, e, now)
    ensures IsCluster(Fat(g, d1), c) && c < TWO32 && dirs[0] < TWO32
  {
    hide FatCopy, HeadsOf, Apart, Scan, SlotsBecome, FreeList, HeadsPut, FatsSpared, SlotCluster, SlotSize;
  }

  /** Filling the new cluster completes the directory. */
  lemma MadeFacts(g: Geometry, bad: set<nat>, stuck: set<nat>, d: Disk, d1: Disk, d2: Disk, dirs: seq<nat>, heads: map<Pos, nat>,
                  name11: seq<byte>, c: nat, e: Slot, now: map<Pos, nat>)
    requires Orderly(g, bad, stuck, d1, dirs, now) && Entered(g, bad, d, d1, dirs, heads, name11, c, e, now)
    requires SameFiles(g, d, d1, heads) && SameFats(g, d1, d2) && OnlyClusters(g, [c], d1, d2)
    ensures Orderly(g, bad, stuck, d2, dirs, now) && Entered(g, bad, d, d2, dirs, heads, name11, c, e, now)
    ensures SameFiles(g, d, d2, heads) && (Mirrored(g, d1) ==> Mirrored(g, d2))
  {
    OrderlyIsGood(g, bad, stuck, d1, dirs, now);
    hide Orderly, FatCopy, Geometry.Valid, Mirrored, Apart, Scan, SlotsBecome, FreeList, HeadsPut, SlotCluster, SlotSize, SameFiles, SameDir,
         GoodDir, SameFats, OnlyClusters;
    var p := ScanAll(g, bad, d, dirs, FreeSlot).pos;
    OutsideWrite(g, bad, stuck, d1, d2, dirs, heads, now, p, c);
    OrderlyFats(g, bad, stuck, d2, dirs, now);
    SameFilesChain(g, d, d1, d2, heads);
    BecomeThenSame(g, bad, d, d1, d2, dirs, p, e);
  }

  lemma BecomeThenSame(g: Geometry, bad: set<nat>, d: Disk, d1: Disk, d2: Disk, dirs: seq<nat>, p: Pos, e: Slot)
    requires GoodDir(g, dirs) && SlotsBecome(g, bad, d, d1, dirs, p, e) && SameDir(g, d1, d2, dirs)
    ensures SlotsBecome(g, bad, d, d2, dirs, p, e)
  {
    hide GoodDir, SameDir, SlotAt;
    forall x: Pos | InDir(g, dirs, x)
      ensures SlotAt(g, bad, d2, dirs, x) == if x == p then Some(e) else SlotAt(g, bad, d, dirs, x)
    {
      SameDirSlot(g, bad, d1, d2, dirs, x);
    }
  }

  /** Make a directory: take a cluster, add its entry, clear it and write its first two entries. When the
      cluster cannot be written the entry stays, and names a directory without contents. */
  method MakeDir(v: Volume, dir: nat, comp: CString, ghost dirs: seq<nat>, ghost heads: map<Pos, nat>)
    returns (ok: bool, ghost c: nat, ghost e: Slot, ghost now: map<Pos, nat>)
    requires DirOk(v, dirs, heads) && dirs[0] == dir
    modifies v
    ensures DirOk(v, dirs, now) && (old(Mirrored(v.geo, v.disk)) ==> Mirrored(v.geo, v.disk))
    ensures SameFiles(v.geo, old(v.disk), v.disk, heads)
    ensures if ShortName(comp).Some? && CanEnter(v.geo, v.bad, v.stuck, old(v.disk), dirs)
            then Entered(v.geo, v.bad, old(v.disk), v.disk, dirs, heads, ShortName(comp).value, c, e, now)
            else now == heads && v.Table() == old(v.Table()) && SameDir(v.geo, old(v.disk), v.disk, dirs)
    ensures ok <==> && ShortName(comp).Some? && CanEnter(v.geo, v.bad, v.stuck, old(v.disk), dirs)
                    && Clearable(v.geo, v.Refused(), |v.disk|, c)
    ensures ok ==> NewDir(v.geo, v.bad, v.disk, c, dir)
  {
    hide Fat, Geometry.Valid, Mirrored, HeadsOf, Apart, IsChain, SameFiles, Scan, SameFats, OnlyClusters, Entered, CanEnter, Clearable,
         NewDir, FatsSpared, Sound, SameDir, ShortName;
    ok, c, e, now := false, 0, Zeros(32), heads;
    ghost var d := v.disk;
    SameFilesSelf(v.geo, d, heads);
    SameDirSelf(v.geo, d, dirs);
    var out := new byte[11];
    var named := FormatShortName(comp, out);
    if named {
      var added, newc;
      added, newc, e, now := EnterDir(v, dir, out[..], dirs, heads);
      c := newc;
      if added {
        ghost var d1 := v.disk;
        EnteredFacts(v.geo, v.bad, v.stuck, d, d1, dirs, heads, out[..], c, e, now);
        ok := InitDir(v, newc, dir);
        MadeFacts(v.geo, v.bad, v.stuck, d, d1, v.disk, dirs, heads, out[..], c, e, now);
      }
    }
  }

  // --- Inside a new directory -----------------------------------------------------------------

  // Where the parent stands among the positions of a new directory, which has one cluster.
  const PARENT := Pos(1, 0, 0)

  function Aside(q: Pos): (r: Pos) {
    Pos(q.i + 2, q.s, q.j)
  }

  /** The volume seen from a new directory: its parent and all chains known there. */
  ghost function Beside(heads: map<Pos, nat>, parent: nat): (hs: map<Pos, nat>) {
    (map q | q in heads :: Aside(q) := heads[q])[PARENT := parent]
  }

  lemma BesideIs(heads: map<Pos, nat>, parent: nat)
    ensures forall r :: r in Beside(heads, parent) <==> r == PARENT || (r.i >= 2 && Pos(r.i - 2, r.s, r.j) in heads)
    ensures Beside(heads, parent)[PARENT] == parent
    ensures forall q :: q in heads ==> Aside(q) in Beside(heads, parent) && Beside(heads, parent)[Aside(q)] == heads[q]
  {
    forall r: Pos | r.i >= 2 && Pos(r.i - 2, r.s, r.j) in heads
      ensures r in Beside(heads, parent)
    {
      assert r == Aside(Pos(r.i - 2, r.s, r.j));
    }
  }

  /** A new directory meets the invariant: no entry of its own, and everything else on the volume apart from
      it. So all that holds of runs in a directory holds in it. */
  lemma NewDirOrderly(g: Geometry, bad: set<nat>, stuck: set<nat>, d: Disk, dirs: seq<nat>, heads: map<Pos, nat>, p: Pos, c: nat)
    requires Orderly(g, bad, stuck, d, dirs, heads[p := c]) && p !in heads && IsChain(Fat(g, d), [c]) && NewDir(g, bad, d, c, dirs[0])
    ensures Orderly(g, bad, stuck, d, [c], Beside(heads, dirs[0])) && AllAlike(g, bad, d, [c])
  {
    assert dirs != [];
    hide FatCopy, Geometry.Valid, HeadsOf, Apart, IsChain, Sound, FatsSpared, Beside, SlotAt, FirstSlot, Owns, Alike, Rekeyed;
    var hs := Beside(heads, dirs[0]);
    BesideIs(heads, dirs[0]);
    assert HeadsOf(g, bad, d, [c], hs) && AllAlike(g, bad, d, [c]) by {
      NewDirHeads(g, bad, d, c, dirs[0], hs);
    }
    var m := map r | r in hs :: if r == PARENT then p else Pos(r.i - 2, r.s, r.j);
    assert Rekeyed(heads[p := c], p, dirs[0], hs, m) by {
      BesideRekeyed(heads, p, c, dirs[0], m);
    }
    Reroot(g, bad, stuck, d, dirs, heads[p := c], p, [c], hs, m);
  }

  /** What making a directory leaves is ready for runs in it. */
  lemma MadeIsOrderly(g: Geometry, bad: set<nat>, stuck: set<nat>, d: Disk, d': Disk, dirs: seq<nat>, heads: map<Pos, nat>,
                      name11: seq<byte>, c: nat, e: Slot, now: map<Pos, nat>)
    requires Orderly(g, bad, stuck, d', dirs, now) && Entered(g, bad, d, d', dirs, heads, name11, c, e, now)
    requires Owns(e) && NewDir(g, bad, d', c, dirs[0])
    ensures now == heads[ScanAll(g, bad, d, dirs, FreeSlot).pos := c]
    ensures Orderly(g, bad, stuck, d', [c], Beside(heads, dirs[0])) && AllAlike(g, bad, d', [c])
  {
    assert IsChain(Fat(g, d'), [c]) by {
      hide FatCopy, HeadsOf, Apart, Sound, FatsSpared, SlotsBecome, Scan, HeadsPut, FreeList;
    }
    assert now == heads[ScanAll(g, bad, d, dirs, FreeSlot).pos := c] by {
      hide FatCopy, HeadsOf, Apart, Sound, FatsSpared, SlotsBecome, Scan, FreeList, Owns;
    }
    hide Orderly, FatCopy, IsChain, Apart, SlotsBecome, Scan, HeadsPut, FreeList, NewDir, Beside, Owns, AllAlike;
    NewDirOrderly(g, bad, stuck, d', dirs, heads, ScanAll(g, bad, d, dirs, FreeSlot).pos, c);
  }

  lemma NewDirHeads(g: Geometry, bad: set<nat>, d: Disk, c: nat, parent: nat, hs: map<Pos, nat>)
    requires NewDir(g, bad, d, c, parent) && forall r :: r in hs ==> r.i >= 1
    ensures HeadsOf(g, bad, d, [c], hs) && AllAlike(g, bad, d, [c])
  {
    hide SlotAt, FirstSlot, Owns, Alike;
    forall q: Pos | InDir(g, [c], q)
      ensures !Owns(FirstSlot(q, c, parent)) && (FirstSlot(q, c, parent)[0] == FREE || Alike(FirstSlot(q, c, parent)))
    {
      FirstSlotOwnsNothing(q, c, parent);
    }
  }

  lemma BesideRekeyed(heads: map<Pos, nat>, p: Pos, c: nat, parent: nat, m: map<Pos, Pos>)
    requires p !in heads && m.Keys == Beside(heads, parent).Keys
    requires forall r :: r in m ==> (r == PARENT || r.i >= 2) && m[r] == if r == PARENT then p else Pos(r.i - 2, r.s, r.j)
    ensures Rekeyed(heads[p := c], p, parent, Beside(heads, parent), m)
  {
    BesideIs(heads, parent);
    hide Beside;
    var hs := Beside(heads, parent);
    forall r | r in hs
      ensures m[r] in heads[p := c] && hs[r] == if m[r] == p then parent else heads[p := c][m[r]]
    {
      if r != PARENT {
        assert r == Aside(m[r]);
      }
    }
  }

  /** Back in the parent after any run in the new directory: its invariant holds again, its slots are what
      they were, and so are all files known there. */
  lemma BackInParent(g: Geometry, bad: set<nat>, stuck: set<nat>, d: Disk, dirs: seq<nat>, heads: map<Pos, nat>, p: Pos, c: nat,
                     rs: seq<Request>, log: seq<Done>)
    requires Orderly(g, bad, stuck, d, dirs, heads[p := c]) && p !in heads
    requires Ran(g, bad, stuck, [c], d, Beside(heads, dirs[0]), rs, log)
    requires Orderly(g, bad, stuck, DiskAt(d, log, |rs|), [c], HeadsAt(Beside(heads, dirs[0]), log, |rs|))
    ensures var end := DiskAt(d, log, |rs|);
            Orderly(g, bad, stuck, end, dirs, heads[p := c]) && SameDir(g, d, end, dirs) && SameFiles(g, d, end, heads)
  {
    assert |log| == |rs| && dirs != [] && HasFats(g, d) && HasFats(g, DiskAt(d, log, |rs|)) by {
      hide FatCopy, HeadsOf, Apart, Sound, FatsSpared, DiskAt, HeadsAt, Served;
    }
    hide *;
    BesideIs(heads, dirs[0]);
    AllKept(g, bad, stuck, d, c, Beside(heads, dirs[0]), rs, log);
    BackOrderly(g, bad, stuck, d, DiskAt(d, log, |rs|), dirs, heads, p, c, HeadsAt(Beside(heads, dirs[0]), log, |rs|));
  }

  lemma BackOrderly(g: Geometry, bad: set<nat>, stuck: set<nat>, d: Disk, end: Disk, dirs: seq<nat>, heads: map<Pos, nat>, p: Pos, c: nat,
                    now: map<Pos, nat>)
    requires Orderly(g, bad, stuck, d, dirs, heads[p := c]) && p !in heads && Orderly(g, bad, stuck, end, [c], now)
    requires SameFiles(g, d, end, Beside(heads, dirs[0]))
    requires forall q :: q in Beside(heads, dirs[0]) ==> q in now && now[q] == Beside(heads, dirs[0])[q]
    ensures Orderly(g, bad, stuck, end, dirs, heads[p := c]) && SameDir(g, d, end, dirs) && SameFiles(g, d, end, heads)
  {
    OrderlyParts(g, bad, stuck, d, dirs, heads[p := c]);
    OrderlyFats(g, bad, stuck, end, [c], now);
    hide *;
    BesideSame(g, d, end, heads, dirs[0]);
    DirKept(g, d, end, dirs);
    SameDirHeads(g, bad, d, end, dirs, heads[p := c]);
    BackRekeyed(heads, p, c, dirs[0], now);
    assert [c][0] == c;
    Reroot(g, bad, stuck, end, [c], now, PARENT, dirs, heads[p := c], BackKeys(heads, p));
  }

  lemma OrderlyParts(g: Geometry, bad: set<nat>, stuck: set<nat>, d: Disk, dirs: seq<nat>, heads: map<Pos, nat>)
    requires Orderly(g, bad, stuck, d, dirs, heads)
    ensures HasFats(g, d) && |Fat(g, d)| <= BAD_CLUSTER && dirs != [] && IsChain(Fat(g, d), dirs) && GoodDir(g, dirs)
    ensures HeadsOf(g, bad, d, dirs, heads)
  {
    OrderlyIsGood(g, bad, stuck, d, dirs, heads);
    hide FatCopy, HeadsOf, Apart, FatsSpared, GoodDir;
  }

  lemma BesideSame(g: Geometry, d: Disk, d': Disk, heads: map<Pos, nat>, parent: nat)
    requires HasFats(g, d) && HasFats(g, d') && SameFiles(g, d, d', Beside(heads, parent))
    ensures SameFiles(g, d, d', heads) && SameFile(g, d, d', parent)
  {
    hide SameFile, Beside, HasFats;
    BesideIs(heads, parent);
    forall q | q in heads
      ensures SameFile(g, d, d', heads[q])
    {
      assert Aside(q) in Beside(heads, parent);
    }
  }

  lemma AllKept(g: Geometry, bad: set<nat>, stuck: set<nat>, d: Disk, c: nat, hs: map<Pos, nat>, rs: seq<Request>, log: seq<Done>)
    requires Ran(g, bad, stuck, [c], d, hs, rs, log) && HasFats(g, d) && HasFats(g, DiskAt(d, log, |rs|)) && forall q :: q in hs ==> q.i >= 1
    ensures forall q :: q in hs ==> q in HeadsAt(hs, log, |rs|) && HeadsAt(hs, log, |rs|)[q] == hs[q]
    ensures SameFiles(g, d, DiskAt(d, log, |rs|), hs)
  {
    hide HasFats, Fat, SameFile, DiskAt, HeadsAt;
    assert |log| == |rs|;
    forall q | q in hs
      ensures q in HeadsAt(hs, log, |rs|) && HeadsAt(hs, log, |rs|)[q] == hs[q] && SameFile(g, d, DiskAt(d, log, |rs|), hs[q])
    {
      ElsewhereKept(g, bad, stuck, [c], d, hs, rs, log, |rs|, q);
    }
  }

  /** Where the chains known in the parent are seen from the new directory. */
  ghost function BackKeys(heads: map<Pos, nat>, p: Pos): (m: map<Pos, Pos>) {
    map q | q in heads.Keys + {p} :: if q == p then PARENT else Aside(q)
  }

  lemma BackRekeyed(heads: map<Pos, nat>, p: Pos, c: nat, parent: nat, now: map<Pos, nat>)
    requires forall q :: q in Beside(heads, parent) ==> q in now && now[q] == Beside(heads, parent)[q]
    ensures Rekeyed(now, PARENT, c, heads[p := c], BackKeys(heads, p))
    ensures PARENT in now && now[PARENT] == parent
  {
    BesideIs(heads, parent);
    hide Beside;
    var m := BackKeys(heads, p);
    forall q | q in heads[p := c]
      ensures m[q] in now && heads[p := c][q] == if m[q] == PARENT then c else now[m[q]]
    {
      if q != p {
        assert Aside(q) in Beside(heads, parent);
      }
    }
  }

  /** A directory whose chain stays byte for byte is the same directory. */
  lemma DirKept(g: Geometry, d: Disk, d': Disk, dirs: seq<nat>)
    requires HasFats(g, d) && HasFats(g, d') && |Fat(g, d)| <= BAD_CLUSTER && IsChain(Fat(g, d), dirs) && SameFile(g, d, d', dirs[0])
    ensures IsChain(Fat(g, d'), dirs) && SameDir(g, d, d', dirs)
  {
    hide FatCopy, Geometry.Valid, InCluster;
    ChainReachable(Fat(g, d), dirs);
    hide Reachable;
    assert forall i :: 0 <= i < |dirs| ==> dirs[i] in dirs;
    SameLinksSameChain(Fat(g, d), Fat(g, d'), dirs);
  }
}
