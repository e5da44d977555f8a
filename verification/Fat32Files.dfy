/** Operations on the files of one directory: remove, add, write and read. */
module Fat32Files {
  import opened Bytes
  import opened Fat32Layout
  import opened Fat32Chain
  import opened Fat32File
  import opened Fat32Name
  import opened Fat32Dir
  import opened Fat32Owner
  import opened Fat32Volume

  /** The directory `dirs` is a proper chain of a readable volume, `heads` lists the entries that own
      chains, and those chains are in use and pairwise disjoint. */
  ghost predicate Orderly(g: Geometry, bad: set<nat>, stuck: set<nat>, d: Disk, dirs: seq<nat>, heads: map<Pos, nat>) {
    && HasFats(g, d) && FatsSpared(g, bad) && FatsSpared(g, stuck) && Sound(Fat(g, d))
    && IsChain(Fat(g, d), dirs) && HeadsOf(g, bad, d, dirs, heads) && Apart(Fat(g, d), dirs, heads)
  }

  ghost predicate DirOk(v: Volume, dirs: seq<nat>, heads: map<Pos, nat>)
    reads v
  {
    Orderly(v.geo, v.bad, v.stuck, v.disk, dirs, heads)
  }

  /** Walk the directory's clusters, sectors and slots to the first answer. */
  method ScanDirectory(v: Volume, dir: nat, q: Query, ghost dirs: seq<nat>) returns (r: Found, lba: nat, sector: Sector)
    requires v.Valid() && IsChain(v.Table(), dirs) && dirs[0] == dir
    ensures r == ScanAll(v.geo, v.bad, v.disk, dirs, q)
    ensures r.At? ==> lba == PosLba(v.geo, dirs, r.pos) && SectorAt(v.bad, v.disk, lba) == Some(sector)
  {
    hide Fat, Stops, Hits, Geometry.Valid, Geometry.DataLba;
    lba, sector := 0, Zeros(SECTOR);
    var cluster := dir;
    var i: nat := 0;
    while true
      invariant i < |dirs| && cluster == dirs[i]
      invariant ScanAll(v.geo, v.bad, v.disk, dirs, q) == Scan(v.geo, v.bad, v.disk, dirs, q, i, 0, 0)
      decreases |dirs| - i
    {
      ChainLink(v.Table(), dirs, i);
      for s := 0 to v.geo.secPerClus
        invariant ScanAll(v.geo, v.bad, v.disk, dirs, q) == Scan(v.geo, v.bad, v.disk, dirs, q, i, s, 0)
      {
        lba := v.geo.DataLba(cluster, s);
        var read := v.ReadSector(lba);
        match read {
          case None =>
            return IoError, lba, sector;
          case Some(bytes) =>
            sector := bytes;
        }
        for j := 0 to 16
          invariant ScanAll(v.geo, v.bad, v.disk, dirs, q) == Scan(v.geo, v.bad, v.disk, dirs, q, i, s, j)
        {
          var slot := SlotIn(sector, j);
          if Stops(q, slot) {
            return Missing, lba, sector;
          }
          if Hits(q, slot) {
            return At(Pos(i, s, j)), lba, sector;
          }
        }
      }
      var next := v.ReadFatEntry(cluster);
      if EndsChain(next) {
        assert Scan(v.geo, v.bad, v.disk, dirs, q, i + 1, 0, 0) == Missing;
        return Missing, lba, sector;
      }
      cluster := next;
      i := i + 1;
    }
  }

  /** Overwrite a slot through the sector buffer the scan left behind. */
  method StoreSlot(v: Volume, lba: nat, sector: Sector, p: Pos, slot: Slot, ghost dirs: seq<nat>) returns (ok: bool)
    requires v.Valid() && GoodDir(v.geo, dirs)
    requires InDir(v.geo, dirs, p) && lba == PosLba(v.geo, dirs, p) && SectorAt(v.bad, v.disk, lba) == Some(sector)
    modifies v
    ensures v.Valid() && v.Table() == old(v.Table()) && (old(Mirrored(v.geo, v.disk)) ==> Mirrored(v.geo, v.disk))
    ensures SameFats(v.geo, old(v.disk), v.disk) && OnlyClusters(v.geo, [dirs[p.i]], old(v.disk), v.disk)
    ensures ok == (lba !in v.stuck)
    ensures if ok then SlotsBecome(v.geo, v.bad, old(v.disk), v.disk, dirs, p, slot) else v.disk == old(v.disk)
  {
    hide FatCopy, Geometry.Valid, Geometry.DataLba, OnlyClusters, SameFats, Mirrored, GoodDir, PutSlot, SlotsBecome;
    ghost var d := v.disk;
    PutSlotFrame(v.geo, d, dirs, p, slot);
    PutSlotIs(d, v.geo, dirs, p, slot, sector);
    PutSlotBecomes(v.geo, v.bad, d, dirs, p, slot);
    SameFatsSelf(v.geo, d, [dirs[p.i]]);
    ok := v.WriteSector(lba, Patch(sector, 32 * p.j, slot));
    SameFatsSameTable(v.geo, d, v.disk);
  }

  lemma PutSlotIs(d: Disk, g: Geometry, dirs: seq<nat>, p: Pos, s: Slot, sector: Sector)
    requires InDir(g, dirs, p) && PosLba(g, dirs, p) < |d| && d[PosLba(g, dirs, p)] == sector
    ensures PutSlot(g, d, dirs, p, s) == d[PosLba(g, dirs, p) := Patch(sector, 32 * p.j, s)]
  {
  }

  lemma SameFatsSelf(g: Geometry, d: Disk, cs: seq<nat>)
    ensures SameFats(g, d, d) && OnlyClusters(g, cs, d, d)
  {
  }

  lemma PutSlotBecomes(g: Geometry, bad: set<nat>, d: Disk, dirs: seq<nat>, p: Pos, e: Slot)
    requires GoodDir(g, dirs) && InDir(g, dirs, p) && PosLba(g, dirs, p) < |d| && PosLba(g, dirs, p) !in bad
    ensures SlotsBecome(g, bad, d, PutSlot(g, d, dirs, p, e), dirs, p, e)
  {
    hide GoodDir, PutSlot, PosLba, SlotAt;
    forall x: Pos | InDir(g, dirs, x)
      ensures SlotAt(g, bad, PutSlot(g, d, dirs, p, e), dirs, x) == if x == p then Some(e) else SlotAt(g, bad, d, dirs, x)
    {
      PutSlotSlots(g, bad, d, dirs, p, e, x);
    }
  }

  /** A slot changes after a step that left the directory alone. */
  lemma BecomeAfterSame(g: Geometry, bad: set<nat>, d: Disk, d1: Disk, d2: Disk, dirs: seq<nat>, p: Pos, e: Slot)
    requires GoodDir(g, dirs) && SameDir(g, d, d1, dirs) && SlotsBecome(g, bad, d1, d2, dirs, p, e)
    ensures SlotsBecome(g, bad, d, d2, dirs, p, e)
  {
    hide GoodDir, SameDir, SlotAt;
    forall x: Pos | InDir(g, dirs, x)
      ensures SlotAt(g, bad, d2, dirs, x) == if x == p then Some(e) else SlotAt(g, bad, d, dirs, x)
    {
      SameDirSlot(g, bad, d, d1, dirs, x);
    }
  }

  // --- Removing -------------------------------------------------------------------------------

  /** The slot that removing by `comp` takes away. */
  ghost function DoomedSlot(g: Geometry, bad: set<nat>, d: Disk, dirs: seq<nat>, comp: seq<byte>): (r: Option<Slot>) {
    match ScanAll(g, bad, d, dirs, Doomed(comp))
    case At(p) => SlotAt(g, bad, d, dirs, p)
    case _ => None
  }

  /** The slot found is in a sector that can be written. */
  ghost predicate Erasable(g: Geometry, bad: set<nat>, stuck: set<nat>, d: Disk, dirs: seq<nat>, comp: seq<byte>) {
    match ScanAll(g, bad, d, dirs, Doomed(comp))
    case At(p) => PosLba(g, dirs, p) !in stuck
    case _ => true
  }

  /** Find the first entry whose decoded name starts with `comp`, free the chain it records, and mark it
      deleted. When its sector cannot be written, the chain is free and the entry still there. */
  method EraseEntry(v: Volume, dir: nat, comp: seq<byte>, ghost dirs: seq<nat>) returns (ok: bool, ghost freed: Disk)
    requires v.Valid() && IsChain(v.Table(), dirs) && dirs[0] == dir
    requires var s := DoomedSlot(v.geo, v.bad, v.disk, dirs, comp); s.Some? ==> LinkOk(v.Table(), SlotCluster(s.value))
    modifies v
    ensures v.Valid() && (old(Mirrored(v.geo, v.disk)) ==> Mirrored(v.geo, v.disk))
    ensures match old(ScanAll(v.geo, v.bad, v.disk, dirs, Doomed(comp)))
            case At(p) =>
              var s := old(DoomedSlot(v.geo, v.bad, v.disk, dirs, comp));
              && s.Some? && ok == (PosLba(v.geo, dirs, p) !in v.stuck)
              && Freed(old(v.Table()), SlotCluster(s.value), v.Table())
              && (if ok then SlotsBecome(v.geo, v.bad, old(v.disk), v.disk, dirs, p, s.value[0 := DELETED])
                  else SameDir(v.geo, old(v.disk), v.disk, dirs))
              && ErasedVia(v.geo, old(v.disk), freed, v.disk, dirs, p)
            case _ => !ok && v.disk == old(v.disk)
  {
    hide FatCopy, Geometry.Valid, Mirrored, IsChain, Freed, Scan, GoodDir, SameDir, PosLba, OnlyClusters, SameFats, SlotsBecome,
         FatsOnly, Sound, FatsSpared, SlotCluster;
    ghost var d := v.disk;
    var found, lba, sector := ScanDirectory(v, dir, Doomed(comp), dirs);
    ok, freed := false, d;
    if found.At? {
      var p := found.pos;
      var slot := SlotIn(sector, p.j);
      ChainIsGoodDir(v.geo, v.Table(), dirs);
      v.FreeClusterChain(SlotCluster(slot));
      freed := v.disk;
      FatsOnlyMirrored(v.geo, d, freed);
      FatsOnlySameDir(v.geo, d, freed, dirs);
      SameDirSector(v.geo, v.bad, d, freed, dirs, p);
      ok := StoreSlot(v, lba, sector, p, slot[0 := DELETED], dirs);
      if ok {
        BecomeAfterSame(v.geo, v.bad, d, freed, v.disk, dirs, p, slot[0 := DELETED]);
      }
    }
  }

  lemma FatsOnlyMirrored(g: Geometry, d: Disk, d1: Disk)
    requires FatsOnly(g, d, d1)
    ensures Mirrored(g, d) ==> Mirrored(g, d1)
  {
  }

  /** First the FATs change, then at most one directory sector. */
  ghost predicate ErasedVia(g: Geometry, d: Disk, d1: Disk, d2: Disk, dirs: seq<nat>, p: Pos) {
    && FatsOnly(g, d, d1) && HasFats(g, d1) && p.i < |dirs|
    && SameFats(g, d1, d2) && OnlyClusters(g, [dirs[p.i]], d1, d2)
  }

  /** The files of the entries `heads` are the same on both disks. */
  ghost predicate SameFiles(g: Geometry, d: Disk, d': Disk, heads: map<Pos, nat>)
    requires HasFats(g, d) && HasFats(g, d')
  {
    forall q :: q in heads ==> SameFile(g, d, d', heads[q])
  }

  /** What a removal does: nothing when no entry matches; otherwise the first matching entry is marked
      deleted, exactly its chain is freed, and every other slot stays. */
  ghost predicate Removed(g: Geometry, bad: set<nat>, d: Disk, d': Disk, dirs: seq<nat>, comp: seq<byte>,
                          heads: map<Pos, nat>, rest: map<Pos, nat>)
  {
    && HasFats(g, d) && HasFats(g, d')
    && match ScanAll(g, bad, d, dirs, Doomed(comp))
       case At(p) =>
         && p in heads && rest == heads - {p} && Freed(Fat(g, d), heads[p], Fat(g, d'))
         && SlotAt(g, bad, d, dirs, p).Some?
         && SlotsBecome(g, bad, d, d', dirs, p, SlotAt(g, bad, d, dirs, p).value[0 := DELETED])
       case _ => d' == d && rest == heads
  }

  /** Removing an entry of any directory by a component that spares its dot entries. */
  method RemoveEntry(v: Volume, dir: nat, comp: seq<byte>, ghost dirs: seq<nat>, ghost heads: map<Pos, nat>)
    returns (ok: bool, ghost rest: map<Pos, nat>)
    requires DirOk(v, dirs, heads) && dirs[0] == dir && Spared(v.geo, v.bad, v.disk, dirs, comp)
    modifies v
    ensures v.Valid() && (old(Mirrored(v.geo, v.disk)) ==> Mirrored(v.geo, v.disk))
    ensures ok == (old(ScanAll(v.geo, v.bad, v.disk, dirs, Doomed(comp))).At? && old(Erasable(v.geo, v.bad, v.stuck, v.disk, dirs, comp)))
    ensures old(Erasable(v.geo, v.bad, v.stuck, v.disk, dirs, comp)) ==>
              && DirOk(v, dirs, rest) && Removed(v.geo, v.bad, old(v.disk), v.disk, dirs, comp, heads, rest)
              && SameFiles(v.geo, old(v.disk), v.disk, rest)
    ensures !old(Erasable(v.geo, v.bad, v.stuck, v.disk, dirs, comp)) ==>
              var p := old(ScanAll(v.geo, v.bad, v.disk, dirs, Doomed(comp))).pos;
              && rest == heads && p in heads && Freed(old(v.Table()), heads[p], v.Table())
              && HeadsOf(v.geo, v.bad, v.disk, dirs, heads)
  {
    hide FatCopy, Geometry.Valid, Mirrored, HeadsOf, Apart, IsChain, SameFiles, Freed, Scan, GoodDir, SameDir, PosLba, SlotsBecome,
         Sound, FatsSpared, Spared, FatsOnly, OnlyClusters, SameFats, SlotAt, SlotCluster;
    ghost var d := v.disk;
    ghost var t := v.Table();
    ghost var found := ScanAll(v.geo, v.bad, d, dirs, Doomed(comp));
    if found.At? {
      DoomedIsHead(v.geo, v.bad, d, dirs, comp, heads);
      HeadInRange(t, dirs, heads, found.pos);
    }
    ghost var freed;
    ok, freed := EraseEntry(v, dir, comp, dirs);
    rest := heads;
    if found.At? {
      if ok {
        rest := heads - {found.pos};
        AfterErase(v.geo, v.bad, d, freed, v.disk, dirs, heads, found.pos);
      } else {
        ChainIsGoodDir(v.geo, t, dirs);
        SameDirHeads(v.geo, v.bad, d, v.disk, dirs, heads);
      }
    } else {
      SameFilesSelf(v.geo, d, rest);
    }
  }

  /** A deleted slot owns nothing. */
  lemma DeletedOwnsNothing(s: Slot, heads: map<Pos, nat>, p: Pos)
    ensures HeadsPut(heads, p, s[0 := DELETED]) == heads - {p}
  {
  }

  lemma AfterErase(g: Geometry, bad: set<nat>, d: Disk, d1: Disk, d2: Disk, dirs: seq<nat>, heads: map<Pos, nat>, p: Pos)
    requires HasFats(g, d) && HasFats(g, d2) && Sound(Fat(g, d)) && IsChain(Fat(g, d), dirs) && InDir(g, dirs, p)
    requires HeadsOf(g, bad, d, dirs, heads) && Apart(Fat(g, d), dirs, heads) && p in heads
    requires ErasedVia(g, d, d1, d2, dirs, p) && Freed(Fat(g, d), heads[p], Fat(g, d2))
    requires SlotAt(g, bad, d, dirs, p).Some?
    requires SlotsBecome(g, bad, d, d2, dirs, p, SlotAt(g, bad, d, dirs, p).value[0 := DELETED])
    ensures HeadsOf(g, bad, d2, dirs, heads - {p}) && IsChain(Fat(g, d2), dirs) && Apart(Fat(g, d2), dirs, heads - {p})
    ensures SameFiles(g, d, d2, heads - {p})
  {
    hide Fat, Geometry.Valid, FatsOnly, HeadsOf, Apart, IsChain, SameFile, SameFiles, Freed, SameDir, Sound, SameFats, OnlyClusters,
         SlotsBecome, SlotAt, HeadsPut;
    var s := SlotAt(g, bad, d, dirs, p).value;
    SameFatsSameTable(g, d1, d2);
    AfterFree(g, bad, d, d1, dirs, heads, p);
    HeadsBecome(g, bad, d, d2, dirs, p, s[0 := DELETED], heads);
    DeletedOwnsNothing(s, heads, p);
    AfterDirWrite(g, d, d1, d2, dirs, heads - {p}, p.i);
  }

  /** When the sector of the entry cannot be written, the directory keeps its invariant exactly if the
      entry had no chain: otherwise the entry is left with free clusters. */
  lemma DanglingEntry(t: seq<nat>, t': seq<nat>, dirs: seq<nat>, heads: map<Pos, nat>, p: Pos)
    requires Sound(t) && Apart(t, dirs, heads) && p in heads && Freed(t, heads[p], t')
    ensures Apart(t', dirs, heads) <==> !IsCluster(t, heads[p])
  {
    if IsCluster(t, heads[p]) {
      SelfReachable(t, heads[p]);
      SelfReachable(t', heads[p]);
    } else {
      forall x: nat
        ensures !Reachable(t, heads[p], x)
      {
        if Reachable(t, heads[p], x) {
          var j: nat :| Nth(t, heads[p], j) == Some(x);
          NthNone(t, heads[p], 0, j);
        }
      }
      assert t' == t;
    }
  }

  /** In a subdirectory, removing "." takes the directory's entry for itself and frees its own chain. */
  lemma RemovingDot(g: Geometry, bad: set<nat>, d: Disk, dirs: seq<nat>, t': seq<nat>)
    requires HasFats(g, d) && Sound(Fat(g, d)) && IsChain(Fat(g, d), dirs) && InDir(g, dirs, Pos(0, 0, 0))
    requires SlotAt(g, bad, d, dirs, Pos(0, 0, 0)).Some?
    requires var s := SlotAt(g, bad, d, dirs, Pos(0, 0, 0)).value;
             s[..11] == DOT_NAME && s[11] == 0x10 && SlotCluster(s) == dirs[0]
    requires var s := DoomedSlot(g, bad, d, dirs, [DOT]); s.Some? ==> Freed(Fat(g, d), SlotCluster(s.value), t')
    ensures ScanAll(g, bad, d, dirs, Doomed([DOT])) == At(Pos(0, 0, 0))
    ensures forall i :: 0 <= i < |dirs| ==> dirs[i] < |t'| && t'[dirs[i]] == 0
    ensures !IsChain(t', dirs)
  {
    hide Fat, Geometry.Valid, SlotCluster;
    var s := SlotAt(g, bad, d, dirs, Pos(0, 0, 0)).value;
    DotDoomed([DOT], s);
    assert s[0] == s[..11][0] == DOT;
    ScanStep(g, bad, d, dirs, Doomed([DOT]), Pos(0, 0, 0));
    ChainReachable(Fat(g, d), dirs);
    forall i | 0 <= i < |dirs|
      ensures dirs[i] < |t'| && t'[dirs[i]] == 0
    {
      ChainLink(Fat(g, d), dirs, i);
      assert dirs[i] in dirs;
    }
  }

  lemma SameFilesSelf(g: Geometry, d: Disk, heads: map<Pos, nat>)
    requires HasFats(g, d)
    ensures SameFiles(g, d, d, heads)
  {
  }

  lemma SameFilesChain(g: Geometry, d: Disk, d1: Disk, d2: Disk, heads: map<Pos, nat>)
    requires HasFats(g, d) && HasFats(g, d1) && HasFats(g, d2)
    requires SameFiles(g, d, d1, heads) && SameFiles(g, d1, d2, heads)
    ensures SameFiles(g, d, d2, heads)
  {
    hide SameFile;
    forall q | q in heads
      ensures SameFile(g, d, d2, heads[q])
    {
      SameFileChain(g, d, d1, d2, heads[q]);
    }
  }

  lemma DoomedIsHead(g: Geometry, bad: set<nat>, d: Disk, dirs: seq<nat>, comp: seq<byte>, heads: map<Pos, nat>)
    requires HeadsOf(g, bad, d, dirs, heads) && ScanAll(g, bad, d, dirs, Doomed(comp)).At? && Spared(g, bad, d, dirs, comp)
    ensures var p := ScanAll(g, bad, d, dirs, Doomed(comp)).pos;
            && SlotAt(g, bad, d, dirs, p).Some? && Owns(SlotAt(g, bad, d, dirs, p).value)
            && p in heads && heads[p] == SlotCluster(SlotAt(g, bad, d, dirs, p).value)
  {
    hide Scan, SlotAt, RemoverName, Uppercase, IsDot, SlotCluster;
    var p := ScanAll(g, bad, d, dirs, Doomed(comp)).pos;
    ScanHit(g, bad, d, dirs, Doomed(comp), 0, 0, 0, p);
    var s := SlotAt(g, bad, d, dirs, p).value;
    if IsDot(s) {
      DotDoomed(comp, s);
    }
    assert HeadAt(g, bad, d, dirs, p, SlotCluster(s));
  }

  lemma AfterFree(g: Geometry, bad: set<nat>, d: Disk, d1: Disk, dirs: seq<nat>, heads: map<Pos, nat>, p: Pos)
    requires HasFats(g, d) && HasFats(g, d1) && Sound(Fat(g, d)) && IsChain(Fat(g, d), dirs)
    requires HeadsOf(g, bad, d, dirs, heads) && Apart(Fat(g, d), dirs, heads) && p in heads
    requires FatsOnly(g, d, d1) && Freed(Fat(g, d), heads[p], Fat(g, d1))
    ensures SameDir(g, d, d1, dirs) && HeadsOf(g, bad, d1, dirs, heads)
    ensures IsChain(Fat(g, d1), dirs) && Apart(Fat(g, d1), dirs, heads - {p})
    ensures SameFiles(g, d, d1, heads - {p})
  {
    hide FatCopy, Geometry.Valid, FatsOnly, HeadsOf, Apart, IsChain, SameFile, Freed, SameDir, Sound;
    ChainIsGoodDir(g, Fat(g, d), dirs);
    FatsOnlySameDir(g, d, d1, dirs);
    SameDirHeads(g, bad, d, d1, dirs, heads);
    ApartAfterFree(Fat(g, d), Fat(g, d1), dirs, heads, p);
    DirAfterFree(Fat(g, d), Fat(g, d1), dirs, heads, p);
    forall q | q in heads - {p}
      ensures SameFile(g, d, d1, heads[q])
    {
      FreeSameFile(g, d, d1, dirs, heads, p, q);
    }
  }

  lemma AfterDirWrite(g: Geometry, d: Disk, d1: Disk, d2: Disk, dirs: seq<nat>, heads: map<Pos, nat>, i: nat)
    requires HasFats(g, d) && HasFats(g, d1) && HasFats(g, d2) && SameFiles(g, d, d1, heads)
    requires Apart(Fat(g, d1), dirs, heads) && i < |dirs|
    requires SameFats(g, d1, d2) && OnlyClusters(g, [dirs[i]], d1, d2)
    ensures SameFiles(g, d, d2, heads)
  {
    hide Fat, Geometry.Valid, Apart, SameFile, SameFats, OnlyClusters;
    forall q | q in heads
      ensures SameFile(g, d1, d2, heads[q])
    {
      DirWriteSameFile(g, d1, d2, dirs, heads, i, q);
    }
    SameFilesChain(g, d, d1, d2, heads);
  }

  /** There is a free slot, in a sector that can be written. */
  ghost predicate CanAdd(g: Geometry, bad: set<nat>, stuck: set<nat>, d: Disk, dirs: seq<nat>) {
    match ScanAll(g, bad, d, dirs, FreeSlot)
    case At(p) => PosLba(g, dirs, p) !in stuck
    case _ => false
  }

  /** Write an entry into the first free slot of the directory. */
  method AddEntry(v: Volume, dir: nat, name11: seq<byte>, attr: byte, first: nat, size: nat,
                  ghost dirs: seq<nat>, ghost heads: map<Pos, nat>)
    returns (ok: bool, ghost was: Slot)
    requires v.Valid() && IsChain(v.Table(), dirs) && dirs[0] == dir && HeadsOf(v.geo, v.bad, v.disk, dirs, heads)
    requires |name11| == 11 && first < TWO32 && size < TWO32
    modifies v
    ensures v.Valid() && v.Table() == old(v.Table()) && (old(Mirrored(v.geo, v.disk)) ==> Mirrored(v.geo, v.disk))
    ensures ok == old(CanAdd(v.geo, v.bad, v.stuck, v.disk, dirs))
    ensures !ok ==> v.disk == old(v.disk)
    ensures ok ==> var p := old(ScanAll(v.geo, v.bad, v.disk, dirs, FreeSlot)).pos;
                   var e := MakeEntry(was, name11, attr, first, size);
                   && p !in heads && SlotsBecome(v.geo, v.bad, old(v.disk), v.disk, dirs, p, e)
                   && HeadsOf(v.geo, v.bad, v.disk, dirs, HeadsPut(heads, p, e))
                   && SameFats(v.geo, old(v.disk), v.disk) && OnlyClusters(v.geo, [dirs[p.i]], old(v.disk), v.disk)
  {
    hide FatCopy, Geometry.Valid, Mirrored, HeadsOf, IsChain, Scan, MakeEntry, HeadsPut, SameFats, OnlyClusters, PosLba, SlotsBecome,
         GoodDir, Sound, FatsSpared;
    ghost var d := v.disk;
    var found, lba, sector := ScanDirectory(v, dir, FreeSlot, dirs);
    ok := false;
    was := Zeros(32);
    if found.At? {
      var p := found.pos;
      var slot := SlotIn(sector, p.j);
      was := slot;
      FreeIsNoHead(v.geo, v.bad, v.disk, dirs, heads);
      ChainIsGoodDir(v.geo, v.Table(), dirs);
      ok := StoreSlot(v, lba, sector, p, MakeEntry(slot, name11, attr, first, size), dirs);
      if ok {
        HeadsBecome(v.geo, v.bad, d, v.disk, dirs, p, MakeEntry(slot, name11, attr, first, size), heads);
      }
    }
  }

  lemma FreeIsNoHead(g: Geometry, bad: set<nat>, d: Disk, dirs: seq<nat>, heads: map<Pos, nat>)
    requires HeadsOf(g, bad, d, dirs, heads) && ScanAll(g, bad, d, dirs, FreeSlot).At?
    ensures ScanAll(g, bad, d, dirs, FreeSlot).pos !in heads
  {
    hide Scan, SlotAt;
    var p := ScanAll(g, bad, d, dirs, FreeSlot).pos;
    ScanHit(g, bad, d, dirs, FreeSlot, 0, 0, 0, p);
  }

  // --- Writing -------------------------------------------------------------------------------

  /** Room for the data and a slot for the entry. */
  ghost predicate CanStore(g: Geometry, bad: set<nat>, stuck: set<nat>, d: Disk, dirs: seq<nat>, len: nat)
    requires HasFats(g, d)
  {
    CanAdd(g, bad, stuck, d, dirs) && (len == 0 || Room(g, bad + stuck, |d|, Fat(g, d), len))
  }

  /** What a successful store leaves: a fresh ascending chain `cs` of exactly the clusters the data
      needs, holding it, and the entry naming it in the first free slot of the directory. An empty file
      has no chain. */
  ghost predicate Stored(g: Geometry, bad: set<nat>, d: Disk, d': Disk, dirs: seq<nat>, name11: seq<byte>, data: seq<byte>,
                         cs: seq<nat>, e: Slot)
  {
    && HasFats(g, d) && HasFats(g, d')
    && (|cs| - 1) * ClusterSize(g) < |data| <= |cs| * ClusterSize(g)
    && Unused(Fat(g, d), cs) && Ascending(cs) && Linked(Fat(g, d), cs, Fat(g, d'))
    && ChainHolds(g, bad, d', cs, data)
    && e[..11] == name11 && e[11] == 0x20 && SlotCluster(e) == Head(cs) && SlotSize(e) == |data| % TWO32
    && ScanAll(g, bad, d, dirs, FreeSlot).At?
    && var p := ScanAll(g, bad, d, dirs, FreeSlot).pos;
       OnlyClusters(g, cs + [dirs[p.i]], d, d') && SlotsBecome(g, bad, d, d', dirs, p, e)
  }

  /** First cluster recorded for a chain, 0 for none. */
  function Head(cs: seq<nat>): (c: nat) {
    if cs == [] then 0 else cs[0]
  }

  /** Take free clusters, fill them and add the entry; on any failure give the clusters back. It succeeds
      exactly when there is room for both. */
  method StoreFile(v: Volume, dir: nat, name11: seq<byte>, data: seq<byte>, ghost dirs: seq<nat>, ghost heads: map<Pos, nat>)
    returns (ok: bool, ghost cs: seq<nat>, ghost e: Slot, ghost now: map<Pos, nat>)
    requires DirOk(v, dirs, heads) && dirs[0] == dir
    requires |name11| == 11 && name11[0] != FREE && name11[0] != DELETED && |data| > 0
    modifies v
    ensures DirOk(v, dirs, now) && (old(Mirrored(v.geo, v.disk)) ==> Mirrored(v.geo, v.disk))
    ensures SameFiles(v.geo, old(v.disk), v.disk, heads)
    ensures ok <==> CanStore(v.geo, v.bad, v.stuck, old(v.disk), dirs, |data|)
    ensures !ok ==> now == heads && v.Table() == old(v.Table()) && SameDir(v.geo, old(v.disk), v.disk, dirs)
    ensures ok ==> Stored(v.geo, v.bad, old(v.disk), v.disk, dirs, name11, data, cs, e)
    ensures ok ==> now == heads[old(ScanAll(v.geo, v.bad, v.disk, dirs, FreeSlot)).pos := Head(cs)]
  {
    hide FatCopy, Geometry.Valid, Mirrored, HeadsOf, Apart, IsChain, Scan, SameFiles, ChainHolds, Building, Filled, OnlyClusters, SameFats,
         HeadsPut, MakeEntry, Live, Stored, PosLba, Room, FatsSpared, Sound, SameDir, SlotsBecome, FreeList, CanAdd;
    ghost var d := v.disk;
    ghost var t := v.Table();
    ok, now, e := false, heads, Zeros(32);
    var first;
    ok, first, cs := v.WriteChain(data);
    ghost var d1 := v.disk;
    AfterChain(v.geo, v.bad, v.stuck, d, d1, dirs, heads, cs);
    if ok {
      BuildFacts(t, cs, v.Table());
      ghost var was;
      ok, was := AddEntry(v, dir, name11, 0x20, first, |data| % TWO32, dirs, heads);
      if ok {
        e := MakeEntry(was, name11, 0x20, first, |data| % TWO32);
        EntryFields(was, name11, 0x20, first, |data| % TWO32);
        CanAddAt(v.geo, v.bad, v.stuck, d, dirs);
        StoredFacts(v.geo, v.bad, d, d1, v.disk, dirs, heads, name11, data, cs, e);
        now := heads[ScanAll(v.geo, v.bad, d, dirs, FreeSlot).pos := cs[0]];
      } else {
        v.FreeClusterChain(first);
        BuildUndone(t, cs, Fat(v.geo, d1), v.Table());
        OnlyClustersThenFats(v.geo, cs, d, d1, v.disk);
        AfterChain(v.geo, v.bad, v.stuck, d, v.disk, dirs, heads, cs);
      }
    }
  }

  lemma CanAddAt(g: Geometry, bad: set<nat>, stuck: set<nat>, d: Disk, dirs: seq<nat>)
    requires CanAdd(g, bad, stuck, d, dirs)
    ensures ScanAll(g, bad, d, dirs, FreeSlot).At?
  {
  }

  /** Linking and filling fresh clusters keeps the directory and its entries. */
  lemma AfterChain(g: Geometry, bad: set<nat>, stuck: set<nat>, d: Disk, d1: Disk, dirs: seq<nat>, heads: map<Pos, nat>, cs: seq<nat>)
    requires HasFats(g, d) && HasFats(g, d1) && Sound(Fat(g, d)) && IsChain(Fat(g, d), dirs)
    requires HeadsOf(g, bad, d, dirs, heads) && Apart(Fat(g, d), dirs, heads)
    requires Unused(Fat(g, d), cs) && OnlyClusters(g, cs, d, d1)
    requires Fat(g, d1) == Fat(g, d) || Building(Fat(g, d), cs, Fat(g, d1))
    ensures SameDir(g, d, d1, dirs) && HeadsOf(g, bad, d1, dirs, heads) && IsChain(Fat(g, d1), dirs)
    ensures SameFiles(g, d, d1, heads)
    ensures forall q :: ScanAll(g, bad, d1, dirs, q) == ScanAll(g, bad, d, dirs, q)
    ensures CanAdd(g, bad, stuck, d1, dirs) == CanAdd(g, bad, stuck, d, dirs)
  {
    hide FatCopy, Geometry.Valid, HeadsOf, Apart, IsChain, SameFile, SameDir, OnlyClusters, Scan, GoodDir;
    var t, t1 := Fat(g, d), Fat(g, d1);
    ChainIsGoodDir(g, t, dirs);
    FreshSameDir(g, t, d, d1, dirs, cs);
    SameDirHeads(g, bad, d, d1, dirs, heads);
    if t1 != t {
      OtherChainsKept(t, cs, t1, dirs);
    }
    forall q | q in heads
      ensures SameFile(g, d, d1, heads[q])
    {
      FreshSameFile(g, d, d1, dirs, heads, cs, q);
    }
    forall q
      ensures ScanAll(g, bad, d1, dirs, q) == ScanAll(g, bad, d, dirs, q)
    {
      SameDirScan(g, bad, d, d1, dirs, q, 0, 0, 0);
    }
  }

  /** Adding an entry for a fresh chain keeps the invariant and every file. */
  lemma EntryFacts(g: Geometry, bad: set<nat>, d: Disk, d1: Disk, d2: Disk, dirs: seq<nat>, heads: map<Pos, nat>, cs: seq<nat>, e: Slot)
    requires HasFats(g, d) && HasFats(g, d1) && Sound(Fat(g, d)) && IsChain(Fat(g, d), dirs) && Apart(Fat(g, d), dirs, heads)
    requires |cs| > 0 && Building(Fat(g, d), cs, Fat(g, d1)) && SameFiles(g, d, d1, heads) && SameDir(g, d, d1, dirs)
    requires SlotCluster(e) == cs[0] && ScanAll(g, bad, d, dirs, FreeSlot).At?
    requires var p := ScanAll(g, bad, d, dirs, FreeSlot).pos;
             && p !in heads && SlotsBecome(g, bad, d1, d2, dirs, p, e) && HeadsOf(g, bad, d2, dirs, HeadsPut(heads, p, e))
             && SameFats(g, d1, d2) && OnlyClusters(g, [dirs[p.i]], d1, d2)
    ensures HasFats(g, d2) && Fat(g, d2) == Fat(g, d1) && SameFiles(g, d, d2, heads)
    ensures var p := ScanAll(g, bad, d, dirs, FreeSlot).pos;
            && SlotsBecome(g, bad, d, d2, dirs, p, e)
            && Apart(Fat(g, d2), dirs, heads[p := cs[0]]) && Apart(Fat(g, d2), dirs, HeadsPut(heads, p, e)) && IsChain(Fat(g, d2), dirs)
  {
    ChainIsGoodDir(g, Fat(g, d), dirs);
    hide HasFats, FatCopy, Geometry.Valid, HeadsOf, Apart, IsChain, SameFiles, OnlyClusters, Scan, GoodDir, SameFats,
         Building, Sound, SlotAt, SameDir, SlotsBecome, SlotCluster, Unused, Ascending, Linked, Owns;
    var p := ScanAll(g, bad, d, dirs, FreeSlot).pos;
    var t, t1 := Fat(g, d), Fat(g, d1);
    SameFatsSameTable(g, d1, d2);
    BuildFacts(t, cs, t1);
    ApartAfterLink(t, t1, dirs, heads, cs, p);
    ApartMinus(t1, dirs, heads, p, cs[0]);
    AfterDirWrite(g, d, d1, d2, dirs, heads, p.i);
    BecomeAfterSame(g, bad, d, d1, d2, dirs, p, e);
    assert heads - {p} == heads;
  }

  /** For a file this completes the store. */
  lemma StoredFacts(g: Geometry, bad: set<nat>, d: Disk, d1: Disk, d2: Disk, dirs: seq<nat>, heads: map<Pos, nat>,
                    name11: seq<byte>, data: seq<byte>, cs: seq<nat>, e: Slot)
    requires HasFats(g, d) && HasFats(g, d1) && Sound(Fat(g, d)) && IsChain(Fat(g, d), dirs) && Apart(Fat(g, d), dirs, heads)
    requires |cs| > 0 && Filled(|cs|, ClusterSize(g), |data|, |data|)
    requires Building(Fat(g, d), cs, Fat(g, d1)) && OnlyClusters(g, cs, d, d1) && ChainHolds(g, bad, d1, cs, data)
    requires SameFiles(g, d, d1, heads) && SameDir(g, d, d1, dirs)
    requires e[..11] == name11 && e[11] == 0x20 && SlotCluster(e) == cs[0] && SlotSize(e) == |data| % TWO32
    requires e[0] != FREE && e[0] != DELETED
    requires ScanAll(g, bad, d, dirs, FreeSlot).At?
    requires var p := ScanAll(g, bad, d, dirs, FreeSlot).pos;
             && p !in heads && SlotsBecome(g, bad, d1, d2, dirs, p, e) && HeadsOf(g, bad, d2, dirs, HeadsPut(heads, p, e))
             && SameFats(g, d1, d2) && OnlyClusters(g, [dirs[p.i]], d1, d2)
    ensures HasFats(g, d2) && Stored(g, bad, d, d2, dirs, name11, data, cs, e)
    ensures SameFiles(g, d, d2, heads)
    ensures var now := heads[ScanAll(g, bad, d, dirs, FreeSlot).pos := cs[0]];
            HeadsOf(g, bad, d2, dirs, now) && Apart(Fat(g, d2), dirs, now) && IsChain(Fat(g, d2), dirs)
  {
    assert Owns(e) && g.Valid() && |Fat(g, d)| == g.Entries() <= BAD_CLUSTER;
    hide HasFats, FatCopy, Geometry.Valid, HeadsOf, Apart, IsChain, SameFiles, OnlyClusters, Scan, ChainHolds, SameFats,
         Building, Sound, SlotAt, SameDir, SlotsBecome, SlotCluster, SlotSize, Unused, Ascending, Linked, ClusterSize, Owns;
    var p := ScanAll(g, bad, d, dirs, FreeSlot).pos;
    EntryFacts(g, bad, d, d1, d2, dirs, heads, cs, e);
    BuildFacts(Fat(g, d), cs, Fat(g, d1));
    StoreHolds(g, bad, Fat(g, d), d, d1, d2, dirs, p.i, cs, data);
  }

  lemma ApartMinus(t: seq<nat>, dirs: seq<nat>, heads: map<Pos, nat>, p: Pos, h: nat)
    requires Apart(t, dirs, heads[p := h]) && p !in heads
    ensures Apart(t, dirs, heads)
  {
    assert forall q :: q in heads ==> heads[p := h][q] == heads[q];
  }

  /** The directory write lies outside the new chain. */
  lemma StoreHolds(g: Geometry, bad: set<nat>, t: seq<nat>, d: Disk, d1: Disk, d2: Disk, dirs: seq<nat>, i: nat, cs: seq<nat>, data: seq<byte>)
    requires g.Valid() && |t| == g.Entries() && |t| <= BAD_CLUSTER && IsChain(t, dirs) && Unused(t, cs) && i < |dirs|
    requires OnlyClusters(g, cs, d, d1) && ChainHolds(g, bad, d1, cs, data)
    requires OnlyClusters(g, [dirs[i]], d1, d2)
    ensures ChainHolds(g, bad, d2, cs, data) && OnlyClusters(g, cs + [dirs[i]], d, d2)
  {
    hide Geometry.Valid, InCluster, ChainHolds, SameOutsideFats;
    ChainLink(t, dirs, i);
    forall k: nat, lba: nat | k < |cs| && InCluster(g, cs[k], lba) && lba < |d1|
      ensures d2[lba] == d1[lba]
    {
      ClusterAboveFat(g, cs[k], lba);
      if d2[lba] != d1[lba] {
        assert InCluster(g, [dirs[i]][0], lba);
        ClustersDisjoint(g, cs[k], dirs[i], lba);
        assert false;
      }
    }
    HoldsFrame(g, bad, d1, d2, cs, data);
    forall lba: nat | lba < |d| && !(g.rsvd <= lba < g.ClusterBegin()) && d2[lba] != d[lba]
      ensures exists k: nat :: k < |cs + [dirs[i]]| && InCluster(g, (cs + [dirs[i]])[k], lba)
    {
      if d1[lba] != d[lba] {
        var k: nat :| k < |cs| && InCluster(g, cs[k], lba);
        assert (cs + [dirs[i]])[k] == cs[k];
      } else {
        var k: nat :| k < 1 && InCluster(g, [dirs[i]][k], lba);
        assert (cs + [dirs[i]])[|cs|] == dirs[i];
      }
    }
  }

  /** Write a file into the directory: an entry that the name matches is removed first, then the data is
      stored, which succeeds exactly when the name can be packed and there is room. `mid` is the disk
      after the removal. */
  method WriteFile(v: Volume, dir: nat, comp: CString, data: seq<byte>, ghost dirs: seq<nat>, ghost heads: map<Pos, nat>)
    returns (ok: bool, ghost mid: Disk, ghost rest: map<Pos, nat>, ghost cs: seq<nat>, ghost e: Slot, ghost now: map<Pos, nat>)
    requires DirOk(v, dirs, heads) && dirs[0] == dir
    requires Spared(v.geo, v.bad, v.disk, dirs, comp) && Erasable(v.geo, v.bad, v.stuck, v.disk, dirs, comp)
    requires 0 < |comp| < 64 && comp[0] != DELETED
    modifies v
    ensures DirOk(v, dirs, now) && (old(Mirrored(v.geo, v.disk)) ==> Mirrored(v.geo, v.disk))
    ensures Removed(v.geo, v.bad, old(v.disk), mid, dirs, comp, heads, rest) && Orderly(v.geo, v.bad, v.stuck, mid, dirs, rest)
    ensures SameFiles(v.geo, old(v.disk), mid, rest) && SameFiles(v.geo, mid, v.disk, rest)
    ensures ok <==> ShortName(comp).Some? && CanStore(v.geo, v.bad, v.stuck, mid, dirs, |data|)
    ensures !ok ==> now == rest && v.Table() == Fat(v.geo, mid) && SameDir(v.geo, mid, v.disk, dirs)
    ensures ok ==> && Stored(v.geo, v.bad, mid, v.disk, dirs, ShortName(comp).value, data, cs, e)
                   && ScanAll(v.geo, v.bad, mid, dirs, FreeSlot).At?
                   && now == rest[ScanAll(v.geo, v.bad, mid, dirs, FreeSlot).pos := Head(cs)]
  {
    hide Fat, Geometry.Valid, Mirrored, HeadsOf, Apart, IsChain, Scan, SameFiles, Stored, Freed, Sound, HeadsPut, MakeEntry, PosLba,
         SameFats, OnlyClusters, Spared, Erasable, FatsSpared, Removed, SlotsBecome, CanAdd, Room, SameDir;
    ok, rest := RemoveEntry(v, dir, comp, dirs, heads);
    mid, now, cs, e := v.disk, rest, [], Zeros(32);
    SameFilesSelf(v.geo, mid, rest);
    SameDirSelf(v.geo, mid, dirs);
    var out := new byte[11];
    ok := FormatShortName(comp, out);
    if ok {
      var name11 := out[..];
      PackedFirst(comp);
      if |data| == 0 {
        ok, e, now := StoreEmpty(v, dir, name11, dirs, rest);
      } else {
        ok, cs, e, now := StoreFile(v, dir, name11, data, dirs, rest);
      }
      if ok {
        CanAddAt(v.geo, v.bad, v.stuck, mid, dirs);
      }
    }
  }

  lemma SameDirSelf(g: Geometry, d: Disk, dirs: seq<nat>)
    ensures SameDir(g, d, d, dirs)
  {
  }

  /** An empty file is an entry without a chain. */
  method StoreEmpty(v: Volume, dir: nat, name11: seq<byte>, ghost dirs: seq<nat>, ghost heads: map<Pos, nat>)
    returns (ok: bool, ghost e: Slot, ghost now: map<Pos, nat>)
    requires DirOk(v, dirs, heads) && dirs[0] == dir
    requires |name11| == 11 && name11[0] != FREE && name11[0] != DELETED
    modifies v
    ensures DirOk(v, dirs, now) && (old(Mirrored(v.geo, v.disk)) ==> Mirrored(v.geo, v.disk))
    ensures SameFiles(v.geo, old(v.disk), v.disk, heads)
    ensures ok <==> CanStore(v.geo, v.bad, v.stuck, old(v.disk), dirs, 0)
    ensures !ok ==> now == heads && v.disk == old(v.disk)
    ensures ok ==> Stored(v.geo, v.bad, old(v.disk), v.disk, dirs, name11, [], [], e)
    ensures ok ==> now == heads[old(ScanAll(v.geo, v.bad, v.disk, dirs, FreeSlot)).pos := 0]
  {
    hide FatCopy, Geometry.Valid, Mirrored, HeadsOf, Apart, IsChain, Scan, SameFiles, Stored, Sound, HeadsPut, MakeEntry, PosLba,
         SameFats, OnlyClusters, FatsSpared, SlotsBecome, CanAdd;
    ghost var d := v.disk;
    now, e := heads, Zeros(32);
    SameFilesSelf(v.geo, d, heads);
    ghost var was;
    ok, was := AddEntry(v, dir, name11, 0x20, 0, 0, dirs, heads);
    if ok {
      CanAddAt(v.geo, v.bad, v.stuck, d, dirs);
      ghost var p := ScanAll(v.geo, v.bad, d, dirs, FreeSlot).pos;
      e := MakeEntry(was, name11, 0x20, 0, 0);
      EmptyEntry(was, name11, heads, p);
      EntryFields(was, name11, 0x20, 0, 0);
      ApartWithEmpty(v.Table(), dirs, heads, p);
      AfterDirWrite(v.geo, d, d, v.disk, dirs, heads, p.i);
      StoredEmpty(v.geo, v.bad, d, v.disk, dirs, name11, e);
      now := heads[p := 0];
    }
  }

  lemma StoredEmpty(g: Geometry, bad: set<nat>, d: Disk, d': Disk, dirs: seq<nat>, name11: seq<byte>, e: Slot)
    requires HasFats(g, d) && HasFats(g, d') && Fat(g, d') == Fat(g, d) && ScanAll(g, bad, d, dirs, FreeSlot).At?
    requires e[..11] == name11 && e[11] == 0x20 && SlotCluster(e) == 0 && SlotSize(e) == 0
    requires var p := ScanAll(g, bad, d, dirs, FreeSlot).pos;
             OnlyClusters(g, [dirs[p.i]], d, d') && SlotsBecome(g, bad, d, d', dirs, p, e)
    ensures Stored(g, bad, d, d', dirs, name11, [], [], e)
  {
    SomeSectors(g, d);
    hide FatCopy, Geometry.Valid, Scan, OnlyClusters, SlotsBecome, SlotCluster, SlotSize;
    var p := ScanAll(g, bad, d, dirs, FreeSlot).pos;
    assert [] + [dirs[p.i]] == [dirs[p.i]];
    assert (0 - 1) * ClusterSize(g) < 0;
  }

  lemma PackedFirst(name: CString)
    requires |name| > 0 && name[0] != DELETED && ShortName(name).Some?
    ensures ShortName(name).value[0] != FREE && ShortName(name).value[0] != DELETED
  {
    hide LastDot, Uppercase;
    assert name[0] in name;
  }

  lemma EmptyEntry(was: Slot, name11: seq<byte>, heads: map<Pos, nat>, p: Pos)
    requires |name11| == 11 && name11[0] != FREE && name11[0] != DELETED
    ensures HeadsPut(heads, p, MakeEntry(was, name11, 0x20, 0, 0)) == heads[p := 0]
  {
    var e := MakeEntry(was, name11, 0x20, 0, 0);
    EntryFields(was, name11, 0x20, 0, 0);
    assert e[0] == e[..11][0];
  }

  // --- Reading -------------------------------------------------------------------------------

  /** What reading through a decimal cluster number yields. */
  function ReadSpec(g: Geometry, bad: set<nat>, d: Disk, path: seq<byte>, len: nat): (r: Option<seq<byte>>)
    requires 1 <= g.secPerClus
  {
    if len == 0 || ParseCluster(path) < 2 then None else FileBytes(g, bad, d, ParseCluster(path), len)
  }

  /** Copy the sectors of one cluster behind `buf` until `len` bytes are there. */
  method ReadCluster(v: Volume, cluster: nat, len: nat, buf: seq<byte>) returns (r: Option<seq<byte>>)
    requires 1 <= v.geo.secPerClus && |buf| < len
    ensures r == Prepend(buf, ClusterBytes(v.geo, v.bad, v.disk, cluster, 0, len - |buf|))
  {
    hide Geometry.DataLba;
    var out := buf;
    for s := 0 to v.geo.secPerClus
      invariant |buf| <= |out| < len
      invariant Prepend(buf, ClusterBytes(v.geo, v.bad, v.disk, cluster, 0, len - |buf|))
             == Prepend(out, ClusterBytes(v.geo, v.bad, v.disk, cluster, s, len - |out|))
    {
      var sector := v.ReadSector(v.geo.DataLba(cluster, s));
      if sector.None? {
        return None;
      }
      var n := Min(len - |out|, SECTOR);
      PrependTwice(out, sector.value[..n], ClusterBytes(v.geo, v.bad, v.disk, cluster, s + 1, len - |out| - n));
      out := out + sector.value[..n];
      if |out| >= len {
        assert out + [] == out;
        return Some(out);
      }
    }
    assert out + [] == out;
    r := Some(out);
  }

  /** Follow the chain and copy sectors until `len` bytes are read or the chain ends; it ends by
      itself on cyclic chains, since every cluster read makes progress. */
  method ReadFile(v: Volume, path: seq<byte>, len: nat) returns (r: Option<seq<byte>>)
    requires 1 <= v.geo.secPerClus
    ensures r == ReadSpec(v.geo, v.bad, v.disk, path, len)
  {
    hide FatRead, ClusterBytes, ParseCluster;
    var cluster := ParseCluster(path);
    if len == 0 || cluster < 2 {
      return None;
    }
    var buf: seq<byte> := [];
    ghost var all := FileBytes(v.geo, v.bad, v.disk, cluster, len);
    PrependNothing(all);
    while !EndsChain(cluster)
      invariant |buf| < len
      invariant all == Prepend(buf, FileBytes(v.geo, v.bad, v.disk, cluster, len - |buf|))
      decreases len - |buf|
    {
      ghost var b := ClusterBytes(v.geo, v.bad, v.disk, cluster, 0, len - |buf|);
      ghost var before := buf;
      var more := ReadCluster(v, cluster, len, buf);
      if more.None? {
        return None;
      }
      buf := more.value;
      if |buf| >= len {
        return Some(buf);
      }
      var next := v.ReadFatEntry(cluster);
      if EndsChain(next) || next == cluster {
        return Some(buf);
      }
      PrependTwice(before, b.value, FileBytes(v.geo, v.bad, v.disk, next, len - |buf|));
      cluster := next;
    }
    assert buf + [] == buf;
    r := Some(buf);
  }

  function Prepend(a: seq<byte>, r: Option<seq<byte>>): (s: Option<seq<byte>>) {
    match r
    case None => None
    case Some(b) => Some(a + b)
  }

  lemma PrependNothing(r: Option<seq<byte>>)
    ensures Prepend([], r) == r
  {
    if r.Some? {
      assert [] + r.value == r.value;
    }
  }

  lemma PrependTwice(a: seq<byte>, b: seq<byte>, r: Option<seq<byte>>)
    ensures Prepend(a, Prepend(b, r)) == Prepend(a + b, r)
  {
    if r.Some? {
      assert a + (b + r.value) == a + b + r.value;
    }
  }

  /** What looking a component up in a directory and reading it yields. */
  function GetSpec(g: Geometry, bad: set<nat>, d: Disk, dirs: seq<nat>, comp: seq<byte>): (r: Option<seq<byte>>)
    requires 1 <= g.secPerClus
  {
    match ScanAll(g, bad, d, dirs, Named(comp))
    case At(p) =>
      (match SlotAt(g, bad, d, dirs, p)
       case None => None
       case Some(slot) =>
         if slot[11] / 16 % 2 == 1 then None
         else ReadSpec(g, bad, d, Decimal(SlotCluster(slot)), if SlotSize(slot) == 0 then 1 else SlotSize(slot)))
    case _ => None
  }

  method GetFile(v: Volume, dir: nat, comp: seq<byte>, ghost dirs: seq<nat>) returns (r: Option<seq<byte>>)
    requires v.Valid() && IsChain(v.Table(), dirs) && dirs[0] == dir
    ensures r == GetSpec(v.geo, v.bad, v.disk, dirs, comp)
  {
    hide Scan, ReadSpec, Fat;
    var found, lba, sector := ScanDirectory(v, dir, Named(comp), dirs);
    if !found.At? {
      return None;
    }
    var slot := SlotIn(sector, found.pos.j);
    if slot[11] / 16 % 2 == 1 {
      return None;
    }
    var digits := PrintDecimal(SlotCluster(slot));
    r := ReadFile(v, digits, if SlotSize(slot) == 0 then 1 else SlotSize(slot));
  }

  // --- What was written is what is read -------------------------------------------------------

  /** Reading the recorded first cluster, given as a decimal string, returns the data written. */
  lemma StoredReadsBack(g: Geometry, bad: set<nat>, d: Disk, d': Disk, dirs: seq<nat>, name11: seq<byte>, data: seq<byte>,
                        cs: seq<nat>, e: Slot)
    requires FatsSpared(g, bad) && Stored(g, bad, d, d', dirs, name11, data, cs, e) && |data| > 0
    ensures ReadSpec(g, bad, d', Decimal(cs[0]), |data|) == Some(data)
  {
    hide FatCopy, Geometry.Valid, ChainHolds, FileBytes, ParseCluster, Decimal, SlotsBecome, Scan;
    LinkedIsChain(Fat(g, d), cs, Fat(g, d'));
    ChainReadsBack(g, bad, d', cs, data);
    ParseDecimal(cs[0]);
  }

  /** The entry made for `comp` is an answer to a lookup of `comp` when the name fits. */
  lemma EntryAnswers(e: Slot, comp: CString)
    requires |comp| > 0 && comp[0] != DELETED && FitsShort(comp) && ShortName(comp) == Some(e[..11]) && e[11] == 0x20
    ensures e[0] != FREE && Hits(Named(comp), e)
  {
    hide ShortName, ReaderMatches, FitsShort, Uppercase;
    PackedFirst(comp);
    assert e[0] == e[..11][0];
    FoundExactly(comp, e);
  }

  /** A file written under a name that fits is found under that name and read back whole, unless an
      earlier entry of the directory already answered to the name. */
  lemma WrittenIsRead(g: Geometry, bad: set<nat>, d: Disk, d': Disk, dirs: seq<nat>, comp: CString, data: seq<byte>,
                      cs: seq<nat>, e: Slot)
    requires FatsSpared(g, bad)
    requires |comp| > 0 && comp[0] != DELETED && ShortName(comp).Some? && FitsShort(comp) && 0 < |data| < TWO32
    requires Stored(g, bad, d, d', dirs, ShortName(comp).value, data, cs, e)
    ensures var p := ScanAll(g, bad, d, dirs, FreeSlot).pos;
            var was := ScanAll(g, bad, d, dirs, Named(comp));
            && ScanAll(g, bad, d', dirs, Named(comp)) == EarlierOr(was, p)
            && (EarlierOr(was, p) == At(p) ==> GetSpec(g, bad, d', dirs, comp) == Some(data))
  {
    hide Scan, ShortName, FitsShort, ReadSpec, Fat, Hits, SlotCluster, SlotSize, ChainHolds, OnlyClusters,
         FatsSpared, Decimal, Linked, Unused, Ascending, SlotAt, ClusterSize;
    var p := ScanAll(g, bad, d, dirs, FreeSlot).pos;
    StoredReadsBack(g, bad, d, d', dirs, ShortName(comp).value, data, cs, e);
    EntryAnswers(e, comp);
    LookupAfterWrite(g, bad, d, d', dirs, p, e, comp);
    assert SlotAt(g, bad, d', dirs, p) == Some(e);
  }

  // --- What is never read ---------------------------------------------------------------------

  /** An empty file that a lookup finds is not read: its size of 0 makes the reader ask for one byte from
      cluster 0, which it refuses. */
  lemma EmptyNeverRead(g: Geometry, bad: set<nat>, d: Disk, dirs: seq<nat>, comp: seq<byte>, p: Pos)
    requires 1 <= g.secPerClus && ScanAll(g, bad, d, dirs, Named(comp)) == At(p) && SlotAt(g, bad, d, dirs, p).Some?
    requires SlotCluster(SlotAt(g, bad, d, dirs, p).value) == 0
    ensures GetSpec(g, bad, d, dirs, comp) == None
  {
    hide Scan, SlotAt, FileBytes, Decimal, ParseCluster, SlotCluster;
    ParseDecimal(0);
  }

  /** Nor is a directory: the entry found has the directory attribute. */
  lemma DirectoryNeverRead(g: Geometry, bad: set<nat>, d: Disk, dirs: seq<nat>, comp: seq<byte>, p: Pos)
    requires 1 <= g.secPerClus && ScanAll(g, bad, d, dirs, Named(comp)) == At(p) && SlotAt(g, bad, d, dirs, p).Some?
    requires SlotAt(g, bad, d, dirs, p).value[11] / 16 % 2 == 1
    ensures GetSpec(g, bad, d, dirs, comp) == None
  {
    hide Scan, SlotAt, ReadSpec, Decimal, SlotCluster;
  }

  /** What a lookup delivers, in terms of the disk, for an entry that is no directory and records a chain: as
      many bytes of the chain as are recorded, one for a recorded size of 0. */
  lemma LookupDelivers(g: Geometry, bad: set<nat>, d: Disk, dirs: seq<nat>, comp: seq<byte>, p: Pos, s: Slot, cs: seq<nat>)
    requires HasFats(g, d) && FatsSpared(g, bad) && IsChain(Fat(g, d), cs)
    requires ScanAll(g, bad, d, dirs, Named(comp)) == At(p) && SlotAt(g, bad, d, dirs, p) == Some(s)
    requires SlotCluster(s) == cs[0] && s[11] / 16 % 2 == 0
    ensures g.secPerClus >= 1
    ensures Delivers(g, bad, d, cs, if SlotSize(s) == 0 then 1 else SlotSize(s), GetSpec(g, bad, d, dirs, comp))
  {
    var want := if SlotSize(s) == 0 then 1 else SlotSize(s);
    assert 2 <= cs[0] < TWO32;
    hide HasFats, FatCopy, FatsSpared, IsChain, Scan, SlotAt, FileBytes, Decimal, ParseCluster, SlotCluster, SlotSize, Delivers;
    ParseDecimal(cs[0]);
    ChainDelivers(g, bad, d, cs, want);
  }

  // --- What removal removes -------------------------------------------------------------------

  /** The entry made for `name` is removed by `comp` exactly when `comp` is a prefix of what the
      entry decodes to. */
  lemma DoomedExactly(comp: seq<byte>, name: CString, e: Slot)
    requires |name| > 0 && name[0] != DELETED && ShortName(name) == Some(e[..11]) && e[11] == 0x20
    ensures Hits(Doomed(comp), e) <==> Uppercase(comp) <= Decoded(name)
  {
    hide ShortName, Uppercase, Decoded, RemoverName;
    PackedFirst(name);
    assert e[0] == e[..11][0];
    PackedDecodes(name, e);
  }

  /** For names that fit: exactly by those components that the name starts with, whatever their letter
      case. */
  lemma RemovedByLetters(comp: seq<byte>, name: CString, e: Slot)
    requires |name| > 0 && name[0] != DELETED && ShortName(name) == Some(e[..11]) && e[11] == 0x20 && FitsShort(name)
    ensures Hits(Doomed(comp), e) <==> |comp| <= |name| && SameLetters(comp, name[..|comp|])
  {
    hide ShortName, Uppercase, Decoded, Hits, FitsShort;
    DoomedExactly(comp, name, e);
    DecodedExact(name);
    if |comp| <= |name| {
      var start := name[..|comp|];
      assert name == start + name[|comp|..];
      UpperConcat(start, name[|comp|..]);
      assert Uppercase(name)[..|comp|] == Uppercase(start);
      SameCapitals(comp, start);
    }
  }

  /** The entry made for a name that fits is found exactly by the name itself and, without a dot, by what is
      before its first dot, whatever their letter case. */
  lemma FoundByLetters(comp: seq<byte>, name: CString, e: Slot)
    requires |name| > 0 && name[0] != DELETED && ShortName(name) == Some(e[..11]) && e[11] == 0x20 && FitsShort(name)
    ensures Hits(Named(comp), e) <==> SameLetters(comp, if DOT in comp then name else UpTo(name, DOT))
  {
    hide ShortName, Uppercase, Decoded, FitsShort, ReaderName, UpTo;
    PackedFirst(name);
    assert e[0] == e[..11][0];
    PackedDecodes(name, e);
    DecodedExact(name);
    UppercaseKeeps(comp);
    UpperUpTo(name);
    SameCapitals(comp, name);
    SameCapitals(comp, UpTo(name, DOT));
  }

  /** Reading does not depend on the letter case of the component. */
  lemma ReadCaseBlind(g: Geometry, bad: set<nat>, d: Disk, dirs: seq<nat>, a: seq<byte>, b: seq<byte>)
    requires 1 <= g.secPerClus && SameLetters(a, b)
    ensures GetSpec(g, bad, d, dirs, a) == GetSpec(g, bad, d, dirs, b)
  {
    hide Scan, SameLetters, SlotAt, ReadSpec;
    ScansCaseBlind(g, bad, d, dirs, a, b);
  }

  /** The reading and the removing side decode the slot to the same name; they differ on names with spaces
      inside the base. */
  predicate Alike(s: Slot) {
    ReaderName(s) == RemoverName(s)
  }

  ghost predicate AllAlike(g: Geometry, bad: set<nat>, d: Disk, dirs: seq<nat>) {
    forall p: Pos :: InDir(g, dirs, p) && SlotAt(g, bad, d, dirs, p).Some? ==>
                       SlotAt(g, bad, d, dirs, p).value[0] in {FREE, DELETED} || Alike(SlotAt(g, bad, d, dirs, p).value)
  }

  /** Whatever a lookup answers to, a removal by the same component would take away. */
  lemma NamedIsDoomed(s: Slot, comp: seq<byte>)
    requires Alike(s) && Hits(Named(comp), s)
    ensures Hits(Doomed(comp), s)
  {
    hide ReaderName, RemoverName, Uppercase, UpTo;
  }

  /** The two scans side by side. */
  lemma {:induction false} DoomedBesideNamed(g: Geometry, bad: set<nat>, d: Disk, dirs: seq<nat>, comp: seq<byte>, i: nat, s: nat, j: nat)
    requires AllAlike(g, bad, d, dirs) && i <= |dirs| && s <= g.secPerClus && j <= 16
    ensures match Scan(g, bad, d, dirs, Doomed(comp), i, s, j)
            case At(p) => Scan(g, bad, d, dirs, Named(comp), i, s, j) == At(p) <==> Answers(g, bad, d, dirs, Named(comp), p)
            case r => Scan(g, bad, d, dirs, Named(comp), i, s, j) == r
    decreases |dirs| - i, g.secPerClus - s, 16 - j
  {
    hide Hits, Alike, Geometry.DataLba, SlotAt;
    if i == |dirs| {
    } else if s == g.secPerClus {
      DoomedBesideNamed(g, bad, d, dirs, comp, i + 1, 0, 0);
    } else if j == 16 {
      DoomedBesideNamed(g, bad, d, dirs, comp, i, s + 1, 0);
    } else {
      var p := Pos(i, s, j);
      ScanStep(g, bad, d, dirs, Doomed(comp), p);
      ScanStep(g, bad, d, dirs, Named(comp), p);
      var slot := SlotAt(g, bad, d, dirs, p);
      if slot.Some? {
        DeletedNeverHits(comp, slot.value);
        if slot.value[0] != FREE && Hits(Named(comp), slot.value) {
          NamedIsDoomed(slot.value, comp);
        }
      }
      DoomedBesideNamed(g, bad, d, dirs, comp, i, s, j + 1);
    }
  }

  lemma DeletedNeverHits(comp: seq<byte>, s: Slot)
    ensures s[0] == DELETED ==> !Hits(Named(comp), s) && !Hits(Doomed(comp), s)
  {
  }

  /** Removing takes away the entry that a lookup finds exactly when the first entry whose name starts
      with the component also answers to it. */
  lemma RemovesWhatIsFound(g: Geometry, bad: set<nat>, d: Disk, dirs: seq<nat>, comp: seq<byte>)
    requires AllAlike(g, bad, d, dirs)
    ensures ScanAll(g, bad, d, dirs, Doomed(comp)) == ScanAll(g, bad, d, dirs, Named(comp)) <==>
            match ScanAll(g, bad, d, dirs, Doomed(comp))
            case At(p) => Answers(g, bad, d, dirs, Named(comp), p)
            case _ => true
  {
    hide Scan, Answers;
    DoomedBesideNamed(g, bad, d, dirs, comp, 0, 0, 0);
  }

  /** So writing or removing "A" takes away a file named "AB". */
  lemma PrefixIsRemoved(e: Slot)
    requires ShortName([65, 66]) == Some(e[..11]) && e[11] == 0x20
    ensures Hits(Doomed([65]), e) && !Hits(Named([65]), e)
  {
    DoomedExactly([65], [65, 66], e);
    PackedDecodes([65, 66], e);
    assert LastDot([65, 66]) == -1 by {
      assert [65, 66][..1] == [65];
    }
    assert Decoded([65, 66]) == [65, 66];
    UpToAll([65, 66], [], DOT);
    assert [65, 66] + [] == [65, 66];
    assert Uppercase([65]) == [65];
  }
}
