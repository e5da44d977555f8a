/** The mounted volume: its sectors are read, patched and written back one at a time. */
module Fat32Volume {
  import opened Bytes
  import opened Fat32Layout
  import opened Fat32Chain
  import opened Fat32File

  class Volume {
    const geo: Geometry
    /** Sectors the device can neither read nor write, and sectors it can read but not write. */
    const bad: set<nat>
    const stuck: set<nat>
    var disk: Disk

    constructor (g: Geometry, bad: set<nat>, stuck: set<nat>, d: Disk)
      requires HasFats(g, d) && FatsSpared(g, bad) && FatsSpared(g, stuck) && Sound(Fat(g, d))
      ensures geo == g && this.bad == bad && this.stuck == stuck && disk == d && Valid()
    {
      geo, this.bad, this.stuck, disk := g, bad, stuck, d;
    }

    /** FAT sectors are present and reliable, and every link is in range. */
    ghost predicate Valid()
      reads this
    {
      HasFats(geo, disk) && FatsSpared(geo, bad) && FatsSpared(geo, stuck) && Sound(Fat(geo, disk))
    }

    function Refused(): (r: set<nat>)
      ensures forall lba :: lba in r <==> lba in bad || lba in stuck
    {
      bad + stuck
    }

    ghost function Table(): (t: seq<nat>)
      requires Valid()
      reads this
      ensures Sound(t) && |t| == geo.Entries() && 2 <= |t| <= BAD_CLUSTER
    {
      Fat(geo, disk)
    }

    method ReadSector(lba: nat) returns (r: Option<Sector>)
      ensures r == SectorAt(bad, disk, lba)
    {
      if lba < |disk| && lba !in bad {
        r := Some(disk[lba]);
      } else {
        r := None;
      }
    }

    method WriteSector(lba: nat, s: Sector) returns (ok: bool)
      modifies this
      ensures ok == Writable(Refused(), |disk|, lba)
      ensures |disk| == |old(disk)|
      ensures disk == if ok then old(disk)[lba := s] else old(disk)
    {
      ok := lba < |disk| && lba !in bad && lba !in stuck;
      if ok {
        disk := disk[lba := s];
      }
    }

    method ReadFatEntry(c: nat) returns (v: nat)
      ensures v == FatRead(geo, bad, disk, c)
      ensures Valid() && c < geo.Entries() ==> v == Table()[c]
    {
      var sector := ReadSector(geo.FatSector(0, c / 128));
      match sector {
        case None => v := BAD_CLUSTER;
        case Some(s) => v := Word32(s[4 * (c % 128)..4 * (c % 128) + 4]) % TWO28;
      }
      if Valid() && c < geo.Entries() {
        FatReadIsTable(geo, bad, disk, c);
      }
    }

    /** Store a link in every FAT copy, each through its own sector. */
    method WriteFatEntry(c: nat, v: nat)
      requires Valid() && c < geo.Entries() && LinkOk(Table(), v % TWO28)
      modifies this
      ensures Valid() && Table() == old(Table())[c := v % TWO28]
      ensures disk == StoreLink(geo, old(disk), c, v, geo.numFats)
      ensures FatsOnly(geo, old(disk), disk)
    {
      hide Fat, FatsOnly, SetLink, Sound, Geometry.Valid, Geometry.FatSector, Geometry.ClusterBegin;
      ghost var d := disk;
      StoreLinkTable(geo, d, c, v);
      SoundUpdate(Fat(geo, d), c, v % TWO28);
      for k := 0 to geo.numFats
        invariant disk == StoreLink(geo, d, c, v, k)
      {
        FatSectorInjective(geo, k, c / 128, k, c / 128);
        var lba := geo.FatSector(k, c / 128);
        var sector := ReadSector(lba);
        assert sector.Some?;
        var ok := WriteSector(lba, SetLink(sector.value, c % 128, v));
        assert ok;
      }
    }

    /** The lowest free cluster, or 0 when the table is full. */
    method FindFreeCluster() returns (c: nat)
      requires Valid()
      ensures if c == 0 then NoneFree(Table()) else LowestFree(Table(), c)
    {
      for x := 2 to geo.fatSz * SECTOR / 4
        invariant forall y :: 2 <= y < x ==> Table()[y] != 0
      {
        var v := ReadFatEntry(x);
        if v == 0 {
          return x;
        }
      }
      c := 0;
    }

    method AllocCluster() returns (c: nat)
      requires Valid()
      modifies this
      ensures Valid() && FatsOnly(geo, old(disk), disk)
      ensures c == 0 ==> disk == old(disk) && NoneFree(Table())
      ensures c != 0 ==> LowestFree(old(Table()), c) && Table() == old(Table())[c := EOC]
    {
      c := FindFreeCluster();
      if c != 0 {
        WriteFatEntry(c, EOC);
      }
    }

    /** Read a link and set it free. */
    method TakeLink(c: nat) returns (next: nat)
      requires Valid() && c < geo.Entries()
      modifies this
      ensures Valid() && FatsOnly(geo, old(disk), disk)
      ensures next == old(Table())[c] && Table() == old(Table())[c := 0]
    {
      next := ReadFatEntry(c);
      WriteFatEntry(c, 0);
    }

    /** Terminates on every in-range table, cyclic ones included, and frees exactly what is reachable. */
    method FreeClusterChain(start: nat)
      requires Valid() && LinkOk(Table(), start)
      modifies this
      ensures Valid() && FatsOnly(geo, old(disk), disk)
      ensures Freed(old(Table()), start, Table())
    {
      hide Fat, FatsOnly, Geometry.Valid, Sound, Freed, FreedBefore;
      ghost var t := Table();
      FatsOnlySelf(geo, disk);
      FreedNothing(t, start);
      if start < 2 {
        FreedAll(t, start, 0, t);
        return;
      }
      var cur := start;
      ghost var k: nat := 0;
      while 2 <= cur < EOC_MIN
        invariant Valid() && FatsOnly(geo, old(disk), disk)
        invariant Nth(t, start, k) == if cur < EOC_MIN then Some(cur) else None
        invariant FreedBefore(t, start, k, Table())
        invariant 2 <= cur
        decreases InUse(Table())
      {
        ghost var was := Table();
        ghost var d := disk;
        var next := TakeLink(cur);
        FatsOnlyChain(geo, old(disk), d, disk);
        if next == 0 || next >= EOC_MIN || next == cur {
          FreeStops(t, start, k, was, cur);
          return;
        }
        FreeGoesOn(t, start, k, was, cur);
        cur := next;
        k := k + 1;
      }
      FreedAll(t, start, k, Table());
    }

    /** Take the lowest free cluster, link it behind `prev` (0 for none) and mark it as the end. */
    method AppendCluster(prev: nat) returns (c: nat)
      requires Valid() && (prev == 0 || IsCluster(Table(), prev))
      modifies this
      ensures Valid() && FatsOnly(geo, old(disk), disk)
      ensures c == 0 ==> disk == old(disk) && NoneFree(Table())
      ensures c != 0 ==> LowestFree(old(Table()), c) && Table() == Appended(old(Table()), prev, c)
    {
      hide Fat, FatsOnly, Geometry.Valid, Sound, StoreLink, LowestFree;
      ghost var d := disk;
      c := AllocCluster();
      if c != 0 {
        LowestIsCluster(Table(), old(Table()), c);
        ghost var d1 := disk;
        LinkBehind(prev, c);
        FatsOnlyChain(geo, d, d1, disk);
      }
    }

    /** Link `c` behind `prev`, if there is one, and mark it as the end. */
    method LinkBehind(prev: nat, c: nat)
      requires Valid() && (prev == 0 || IsCluster(Table(), prev)) && IsCluster(Table(), c)
      modifies this
      ensures Valid() && FatsOnly(geo, old(disk), disk)
      ensures Table() == (if prev == 0 then old(Table()) else old(Table())[prev := c])[c := EOC]
    {
      hide Fat, FatsOnly, Geometry.Valid, Sound, StoreLink;
      ghost var d := disk;
      FatsOnlySelf(geo, d);
      if prev != 0 {
        WriteFatEntry(prev, c);
      }
      ghost var d1 := disk;
      WriteFatEntry(c, EOC);
      FatsOnlyChain(geo, d, d1, disk);
    }

    /** Fill one cluster from `data[pos..]`, sector by sector, the last sector padded with zeros. */
    method WriteCluster(c: nat, data: seq<byte>, pos: nat) returns (ok: bool, end: nat)
      requires Valid() && IsCluster(Table(), c) && pos < |data|
      modifies this
      ensures Valid() && SameFats(geo, old(disk), disk) && OnlyClusters(geo, [c], old(disk), disk)
      ensures ok <==> ClusterWritable(geo, Refused(), |disk|, c, |data|, pos)
      ensures ok ==> end == Min(|data|, pos + ClusterSize(geo)) && ClusterHolds(geo, bad, disk, c, data, pos)
    {
      hide FatCopy, Mirrored, Geometry.ClusterBegin, Geometry.DataLba, Geometry.Valid;
      ok, end := true, pos;
      var s := 0;
      while s < geo.secPerClus
        invariant 0 <= s <= geo.secPerClus
        invariant end == Min(|data|, pos + SECTOR * s) && end < |data|
        invariant SameFats(geo, old(disk), disk) && OnlyClusters(geo, [c], old(disk), disk)
        invariant forall q :: 0 <= q < s ==>
                    && Writable(Refused(), |disk|, geo.DataLba(c, q))
                    && SectorAt(bad, disk, geo.DataLba(c, q)) == Some(Chunk(data, pos + SECTOR * q))
      {
        DataLbaExact(geo, c, s);
        ghost var before := disk;
        ok := WriteSector(geo.DataLba(c, s), Chunk(data, end));
        if !ok {
          break;
        }
        forall q | 0 <= q < s
          ensures geo.DataLba(c, q) != geo.DataLba(c, s)
        {
          DataLbaExact(geo, c, q);
        }
        assert InCluster(geo, [c][0], geo.DataLba(c, s));
        end := end + Min(SECTOR, |data| - end);
        s := s + 1;
        if end == |data| {
          break;
        }
      }
      SameFatsSameTable(geo, old(disk), disk);
    }

    /** The volume while a file is written: compared with table `t` and disk `d` at the start, only
        the FATs and the clusters `cs`, free at the start, have changed. */
    ghost predicate Laid(t: seq<nat>, d: Disk, cs: seq<nat>)
      reads this
    {
      && Valid() && HasFats(geo, d)
      && Building(t, cs, Table())
      && OnlyClusters(geo, cs, d, disk)
      && (Mirrored(geo, d) ==> Mirrored(geo, disk))
    }

    /** One round of the writing loop: append a cluster and fill it. */
    method AppendAndFill(prev: nat, data: seq<byte>, pos: nat, ghost t: seq<nat>, ghost d: Disk, ghost cs: seq<nat>)
      returns (c: nat, ok: bool, end: nat)
      requires Laid(t, d, cs) && ChainHolds(geo, bad, disk, cs, data)
      requires prev == if |cs| == 0 then 0 else cs[|cs| - 1]
      requires Filled(|cs|, ClusterSize(geo), |data|, pos) && pos < |data|
      modifies this
      ensures |disk| == |old(disk)|
      ensures c == 0 ==> disk == old(disk) && NoneFree(Table())
      ensures c != 0 ==> Laid(t, d, cs + [c]) && LowestFree(old(Table()), c)
      ensures c != 0 ==> (ok <==> ClusterWritable(geo, Refused(), |disk|, c, |data|, pos))
      ensures c != 0 && ok ==> ChainHolds(geo, bad, disk, cs + [c], data) && end == Min(|data|, pos + ClusterSize(geo))
    {
      hide Fat, Geometry.Valid, Sound, Building, OnlyClusters, ChainHolds, ClusterHolds, Mirrored, LowestFree, ClusterWritable,
           FatsSpared;
      BuildFacts(t, cs, Table());
      ghost var t1 := Table();
      ghost var d1 := disk;
      ok, end := false, pos;
      c := AppendCluster(prev);
      if c != 0 {
        BuildOneMore(t, cs, t1, c);
        BuildFacts(t, cs + [c], Table());
        ghost var d2 := disk;
        ok, end := WriteCluster(c, data, pos);
        SameFatsSameTable(geo, d2, disk);
        OnlyClustersStep(geo, cs, c, d, d1, d2, disk);
        if ok {
          HoldsOneMore(geo, bad, d1, d2, disk, cs, c, data);
        }
      }
    }

    /** The state of the writing loop: the lowest free clusters `cs` are linked, hold the data up to
        `pos`, and could be written. */
    ghost predicate Writing(t: seq<nat>, d: Disk, cs: seq<nat>, data: seq<byte>, pos: nat)
      reads this
    {
      && Laid(t, d, cs) && ChainHolds(geo, bad, disk, cs, data)
      && Filled(|cs|, ClusterSize(geo), |data|, pos) && pos <= |data|
      && cs <= FreeList(t) && ClustersWritable(geo, Refused(), |d|, FreeList(t), |cs|, |data|)
    }

    /** One round with its outcome: the loop can go on, or there is no room for the data. */
    method WriteNext(prev: nat, data: seq<byte>, pos: nat, ghost t: seq<nat>, ghost d: Disk, ghost cs: seq<nat>)
      returns (c: nat, ok: bool, end: nat)
      requires Writing(t, d, cs, data, pos) && pos < |data| && prev == (if |cs| == 0 then 0 else cs[|cs| - 1])
      modifies this
      ensures if c == 0 then !ok && Laid(t, d, cs) else Laid(t, d, cs + [c])
      ensures ok ==> Writing(t, d, cs + [c], data, end) && end > pos
      ensures !ok ==> !Room(geo, Refused(), |d|, t, |data|)
    {
      hide Fat, Geometry.Valid, Sound, Building, OnlyClusters, ChainHolds, Mirrored, FatsSpared, LowestFree, NoneFree,
           ClusterWritable, ClustersWritable, Filled, ClusterSize, FreeList, Room;
      ghost var t1 := Table();
      SomeSectors(geo, disk);
      SameSize(d, disk, cs);
      c, ok, end := AppendAndFill(prev, data, pos, t, d, cs);
      if c == 0 {
        ok := false;
      }
      RoundOutcome(geo, Refused(), |d|, t, cs, t1, c, ok, |data|, pos);
    }

    /** Give back every cluster taken so far. */
    method Abandon(first: nat, ghost t: seq<nat>, ghost d: Disk, ghost cs: seq<nat>)
      requires Laid(t, d, cs) && (if |cs| == 0 then first == 0 else first == cs[0])
      modifies this
      ensures Valid() && Table() == t && OnlyClusters(geo, cs, d, disk)
      ensures Mirrored(geo, d) ==> Mirrored(geo, disk)
    {
      hide Fat, Geometry.Valid, Sound, Building, OnlyClusters, Mirrored, Freed, FatsSpared;
      BuildFacts(t, cs, Table());
      if first != 0 {
        ghost var t1 := Table();
        ghost var d1 := disk;
        FreeClusterChain(first);
        BuildUndone(t, cs, t1, Table());
        OnlyClustersThenFats(geo, cs, d, d1, disk);
      }
    }

    lemma SameSize(d: Disk, d': Disk, cs: seq<nat>)
      requires OnlyClusters(geo, cs, d, d')
      ensures |d'| == |d|
    {
    }

    /** Store `data` in the lowest free clusters, chained in ascending order. It succeeds exactly when
        there is room; on failure every cluster taken is given back, so the table is the one before the
        call. */
    method WriteChain(data: seq<byte>) returns (ok: bool, first: nat, ghost cs: seq<nat>)
      requires Valid() && |data| > 0
      modifies this
      ensures Valid() && Unused(old(Table()), cs) && OnlyClusters(geo, cs, old(disk), disk)
      ensures old(Mirrored(geo, disk)) ==> Mirrored(geo, disk)
      ensures ok <==> Room(geo, Refused(), |old(disk)|, old(Table()), |data|)
      ensures !ok ==> Table() == old(Table())
      ensures ok ==> |cs| > 0 && first == cs[0] && Building(old(Table()), cs, Table()) && cs <= FreeList(old(Table()))
      ensures ok ==> ChainHolds(geo, bad, disk, cs, data)
      ensures ok ==> Filled(|cs|, ClusterSize(geo), |data|, |data|)
    {
      ghost var t := Table();
      ghost var d := disk;
      cs := [];
      first := 0;
      var prev, pos := 0, 0;
      WritingNothing(data);
      hide Fat, Geometry.Valid, Sound, Building, OnlyClusters, ChainHolds, Mirrored, FatsSpared, Writing, Room, Filled,
           ClusterSize, FreeList;
      while pos < |data|
        invariant Writing(t, d, cs, data, pos) && pos <= |data|
        invariant if |cs| == 0 then prev == 0 && first == 0 else prev == cs[|cs| - 1] && first == cs[0]
        decreases |data| - pos
      {
        var c, end;
        c, ok, end := WriteNext(prev, data, pos, t, d, cs);
        if c != 0 {
          if first == 0 {
            first := c;
          }
          cs := cs + [c];
        }
        if !ok {
          LaidFacts(t, d, cs);
          Abandon(first, t, d, cs);
          return false, first, cs;
        }
        WritingFacts(t, d, cs, data, end);
        prev := c;
        pos := end;
      }
      WritingDone(t, d, cs, data);
      ok := true;
    }

    lemma WritingNothing(data: seq<byte>)
      requires Valid() && |data| > 0
      ensures Writing(Table(), disk, [], data, 0)
    {
      hide Fat, Geometry.Valid, Sound;
      BuildNothing(Table());
      HoldsNothing(geo, bad, disk, data);
      assert [] <= FreeList(Table());
    }

    lemma LaidFacts(t: seq<nat>, d: Disk, cs: seq<nat>)
      requires Laid(t, d, cs)
      ensures Unused(t, cs) && |t| == |Table()|
    {
      hide Fat, Geometry.Valid, Sound, OnlyClusters, Mirrored;
      BuildFacts(t, cs, Table());
    }

    lemma WritingFacts(t: seq<nat>, d: Disk, cs: seq<nat>, data: seq<byte>, pos: nat)
      requires Writing(t, d, cs, data, pos)
      ensures pos <= |data|
    {
      hide Laid, ChainHolds, Filled, ClusterSize, FreeList, ClustersWritable;
    }

    /** All data is written: the clusters are as many as it needs, so there was room. */
    lemma WritingDone(t: seq<nat>, d: Disk, cs: seq<nat>, data: seq<byte>)
      requires Writing(t, d, cs, data, |data|) && |data| > 0
      ensures Valid() && Unused(t, cs) && OnlyClusters(geo, cs, d, disk) && (Mirrored(geo, d) ==> Mirrored(geo, disk))
      ensures Room(geo, Refused(), |d|, t, |data|) && |cs| > 0 && Building(t, cs, Table()) && cs <= FreeList(t)
      ensures ChainHolds(geo, bad, disk, cs, data) && Filled(|cs|, ClusterSize(geo), |data|, |data|)
    {
      SomeSectors(geo, disk);
      FilledFacts(|cs|, ClusterSize(geo), |data|, |data|);
      BuildFacts(t, cs, Table());
      hide Fat, Geometry.Valid, Sound, Building, OnlyClusters, ChainHolds, Mirrored, Filled, ClusterSize, ClustersWritable, FreeList,
           ClustersNeeded;
    }
  }

  lemma LowestIsCluster(t: seq<nat>, was: seq<nat>, c: nat)
    requires |t| == |was| && LowestFree(was, c)
    ensures IsCluster(t, c)
  {
  }

  lemma SomeSectors(g: Geometry, d: Disk)
    requires HasFats(g, d)
    ensures g.secPerClus >= 1 && ClusterSize(g) >= 1
  {
  }

  /** What the filling position says about the number of clusters. */
  lemma FilledFacts(k: nat, size: nat, len: nat, pos: nat)
    requires Filled(k, size, len, pos) && pos <= len && len > 0 && size > 0
    ensures pos < len ==> pos == k * size && ClustersNeeded(len, size) > k
    ensures pos == len ==> k > 0 && ClustersNeeded(len, size) == k
  {
    if pos < len {
      NeededMore(len, size, k);
    } else {
      NeededIs(len, size, k);
    }
  }

  /** Every free cluster is taken and more are needed. */
  lemma NoRoomLeft(g: Geometry, refused: set<nat>, n: nat, t: seq<nat>, len: nat, k: nat)
    requires g.secPerClus >= 1 && k == |FreeList(t)| && ClustersNeeded(len, ClusterSize(g)) > k
    ensures !Room(g, refused, n, t, len)
  {
  }

  /** A cluster that is needed cannot be written. */
  lemma NotWritable(g: Geometry, refused: set<nat>, n: nat, t: seq<nat>, len: nat, k: nat, pos: nat)
    requires g.secPerClus >= 1 && k < |FreeList(t)| && ClustersNeeded(len, ClusterSize(g)) > k && pos == k * ClusterSize(g)
    requires !ClusterWritable(g, refused, n, FreeList(t)[k], len, pos)
    ensures !Room(g, refused, n, t, len)
  {
    hide ClusterWritable, FreeList, ClustersNeeded, ClusterSize;
  }

  lemma OneMoreWritable(g: Geometry, refused: set<nat>, n: nat, fs: seq<nat>, k: nat, len: nat, pos: nat)
    requires k < |fs| && ClustersWritable(g, refused, n, fs, k, len) && pos == k * ClusterSize(g)
    requires ClusterWritable(g, refused, n, fs[k], len, pos)
    ensures ClustersWritable(g, refused, n, fs, k + 1, len)
  {
    hide ClusterWritable, ClusterSize;
  }

  /** What a round of the writing loop says about the room there was. */
  lemma RoundOutcome(g: Geometry, refused: set<nat>, n: nat, t: seq<nat>, cs: seq<nat>, t1: seq<nat>, c: nat, ok: bool, len: nat, pos: nat)
    requires g.secPerClus >= 1 && ClusterSize(g) > 0 && Building(t, cs, t1) && cs <= FreeList(t) && pos < len
    requires Filled(|cs|, ClusterSize(g), len, pos) && ClustersWritable(g, refused, n, FreeList(t), |cs|, len)
    requires if c == 0 then !ok && NoneFree(t1)
             else LowestFree(t1, c) && (ok <==> ClusterWritable(g, refused, n, c, len, pos))
    ensures !ok ==> !Room(g, refused, n, t, len)
    ensures ok ==> && Filled(|cs + [c]|, ClusterSize(g), len, Min(len, pos + ClusterSize(g))) && cs + [c] <= FreeList(t)
                   && ClustersWritable(g, refused, n, FreeList(t), |cs + [c]|, len)
  {
    hide Building, LowestFree, NoneFree, ClusterWritable, ClustersWritable, Filled, ClusterSize, FreeList, Room, ClustersNeeded;
    NextFree(t, cs, t1);
    FilledFacts(|cs|, ClusterSize(g), len, pos);
    if c == 0 {
      NoRoomLeft(g, refused, n, t, len, |cs|);
    } else if !ok {
      NotWritable(g, refused, n, t, len, |cs|, pos);
    } else {
      FilledOneMore(|cs|, ClusterSize(g), len, pos);
      OneMoreWritable(g, refused, n, FreeList(t), |cs|, len, pos);
      assert cs + [c] == FreeList(t)[..|cs| + 1];
    }
  }
}
