/** Which clusters the entries of a directory own, and what keeps those sets apart. */
module Fat32Owner {
  import opened Bytes
  import opened Fat32Layout
  import opened Fat32Chain
  import opened Fat32File
  import opened Fat32Name
  import opened Fat32Dir

  predicate Live(s: Slot) {
    s[0] != FREE && s[0] != DELETED && s[11] % 16 != 15
  }

  // Names of the entries "." and ".." that a subdirectory starts with.
  const DOT_NAME: seq<byte> := [46, 32, 32, 32, 32, 32, 32, 32, 32, 32, 32]
  const DOTDOT_NAME: seq<byte> := [46, 46, 32, 32, 32, 32, 32, 32, 32, 32, 32]

  /** The slot is a directory's entry for itself or for its parent: it records a chain it does not own. */
  predicate IsDot(s: Slot) {
    s[11] / 16 % 2 == 1 && (s[..11] == DOT_NAME || s[..11] == DOTDOT_NAME)
  }

  /** The slot is an entry that owns the chain it records. */
  predicate Owns(s: Slot) {
    Live(s) && !IsDot(s)
  }

  /** Position `p` of the directory holds an entry that owns the chain from `head`. */
  ghost predicate HeadAt(g: Geometry, bad: set<nat>, d: Disk, dirs: seq<nat>, p: Pos, head: nat) {
    InDir(g, dirs, p)
    && match SlotAt(g, bad, d, dirs, p)
       case None => false
       case Some(s) => Owns(s) && SlotCluster(s) == head
  }

  /** What the removing side decodes a dot entry to. */
  lemma DotDecodes(s: Slot)
    requires IsDot(s)
    ensures RemoverName(s) == if s[..11] == DOT_NAME then [DOT] else [DOT, DOT]
    ensures Live(s) == (s[11] % 16 != 15)
  {
    var name: seq<byte> := if s[..11] == DOT_NAME then [DOT] else [DOT, DOT];
    assert s[..8] == s[..11][..8] == name + seq(8 - |name|, _ => SPACE);
    assert s[8..11] == s[..11][8..] && s[8] == SPACE;
    hide UpTo, TrimSpaces;
    TrimPadding(name, 8 - |name|);
    UpToAll(name, [], 0);
    assert name + [] == name;
    assert s[0] == s[..11][0] == DOT;
  }

  /** The component removes no dot entry: it is not "", "." or "..". */
  predicate SparesDots(comp: seq<byte>) {
    !(comp <= [DOT, DOT])
  }

  /** A dot entry is removed exactly by the components "", "." and, for "..", "..". */
  lemma DotDoomed(comp: seq<byte>, s: Slot)
    requires IsDot(s) && s[11] % 16 != 15
    ensures Hits(Doomed(comp), s) <==> comp <= (if s[..11] == DOT_NAME then [DOT] else [DOT, DOT])
    ensures Hits(Doomed(comp), s) ==> !SparesDots(comp)
  {
    DotDecodes(s);
    hide RemoverName, IsDot;
    var u := Uppercase(comp);
    assert forall i :: 0 <= i < |comp| ==> (u[i] == DOT <==> comp[i] == DOT);
    assert s[0] != DELETED;
  }

  ghost predicate NoDots(g: Geometry, bad: set<nat>, d: Disk, dirs: seq<nat>) {
    forall p: Pos :: InDir(g, dirs, p) && SlotAt(g, bad, d, dirs, p).Some? ==> !IsDot(SlotAt(g, bad, d, dirs, p).value)
  }

  /** Removing by the component cannot reach a dot entry. */
  ghost predicate Spared(g: Geometry, bad: set<nat>, d: Disk, dirs: seq<nat>, comp: seq<byte>) {
    SparesDots(comp) || NoDots(g, bad, d, dirs)
  }

  /** Every entry's clusters are in range, in use, outside the directory's own chain, and owned by no
      other entry. `heads` maps positions to first clusters. */
  ghost predicate Apart(t: seq<nat>, dirs: seq<nat>, heads: map<Pos, nat>) {
    && (forall p :: p in heads ==> LinkOk(t, heads[p]))
    && (forall p, x: nat :: p in heads && Reachable(t, heads[p], x) ==> t[x] != 0 && x !in dirs)
    && (forall p, q, x: nat :: p in heads && q in heads && p != q && Reachable(t, heads[p], x) ==> !Reachable(t, heads[q], x))
  }

  /** In the positions of the directory `heads` has exactly its entries. Other positions stand for chains
      elsewhere on the volume: files of other directories and those directories themselves. */
  ghost predicate HeadsOf(g: Geometry, bad: set<nat>, d: Disk, dirs: seq<nat>, heads: map<Pos, nat>) {
    && (forall p :: p in heads && InDir(g, dirs, p) ==> HeadAt(g, bad, d, dirs, p, heads[p]))
    && (forall p, h :: HeadAt(g, bad, d, dirs, p, h) ==> p in heads && heads[p] == h)
  }

  /** A table change that spares a path leaves the path alone. */
  lemma {:induction false} PathKept(t: seq<nat>, t': seq<nat>, start: nat, n: nat)
    requires |t'| == |t| && forall x: nat :: Reachable(t, start, x) ==> t'[x] == t[x]
    ensures Nth(t', start, n) == Nth(t, start, n)
  {
    if n > 0 {
      PathKept(t, t', start, n - 1);
      if Nth(t, start, n - 1).Some? {
        assert Reachable(t, start, Nth(t, start, n - 1).value);
      }
    }
  }

  lemma ReachKept(t: seq<nat>, t': seq<nat>, start: nat)
    requires |t'| == |t| && forall x: nat :: Reachable(t, start, x) ==> t'[x] == t[x]
    ensures forall x: nat :: Reachable(t', start, x) <==> Reachable(t, start, x)
  {
    forall x: nat
      ensures Reachable(t', start, x) <==> Reachable(t, start, x)
    {
      if Reachable(t', start, x) {
        var j: nat :| Nth(t', start, j) == Some(x);
        PathKept(t, t', start, j);
      }
      if Reachable(t, start, x) {
        var j: nat :| Nth(t, start, j) == Some(x);
        PathKept(t, t', start, j);
      }
    }
  }

  /** Freeing one entry's chain and forgetting the entry keeps the others apart. */
  lemma ApartAfterFree(t: seq<nat>, t': seq<nat>, dirs: seq<nat>, heads: map<Pos, nat>, p: Pos)
    requires Sound(t) && Apart(t, dirs, heads) && p in heads && Freed(t, heads[p], t')
    ensures Apart(t', dirs, heads - {p})
    ensures forall q :: q in heads && q != p ==> forall x: nat :: Reachable(t', heads[q], x) <==> Reachable(t, heads[q], x)
  {
    forall q | q in heads && q != p
      ensures forall x: nat :: Reachable(t', heads[q], x) <==> Reachable(t, heads[q], x)
    {
      forall x: nat | Reachable(t, heads[q], x)
        ensures t'[x] == t[x]
      {
      }
      ReachKept(t, t', heads[q]);
    }
  }

  /** A directory's chain survives freeing an entry's chain. */
  lemma DirAfterFree(t: seq<nat>, t': seq<nat>, dirs: seq<nat>, heads: map<Pos, nat>, p: Pos)
    requires Apart(t, dirs, heads) && p in heads && Freed(t, heads[p], t') && IsChain(t, dirs)
    ensures IsChain(t', dirs)
  {
    forall i | 0 <= i < |dirs|
      ensures t'[dirs[i]] == t[dirs[i]]
    {
      assert dirs[i] in dirs;
    }
    SameLinksSameChain(t, t', dirs);
  }

  /** Linking free clusters keeps every entry's set. */
  lemma ReachAfterLink(t: seq<nat>, t': seq<nat>, dirs: seq<nat>, heads: map<Pos, nat>, cs: seq<nat>, q: Pos)
    requires Apart(t, dirs, heads) && Unused(t, cs) && Linked(t, cs, t') && q in heads
    ensures forall x: nat :: Reachable(t', heads[q], x) <==> Reachable(t, heads[q], x)
    ensures forall x: nat :: Reachable(t, heads[q], x) ==> x !in cs && t'[x] == t[x]
  {
    forall x: nat | Reachable(t, heads[q], x)
      ensures x !in cs && t'[x] == t[x]
    {
    }
    ReachKept(t, t', heads[q]);
  }

  /** Linking free clusters into a new entry's chain keeps all entries apart. */
  lemma ApartAfterLink(t: seq<nat>, t': seq<nat>, dirs: seq<nat>, heads: map<Pos, nat>, cs: seq<nat>, p: Pos)
    requires Sound(t) && Apart(t, dirs, heads) && IsChain(t, dirs) && p !in heads
    requires |cs| > 0 && Unused(t, cs) && Linked(t, cs, t')
    ensures Apart(t', dirs, heads[p := cs[0]]) && IsChain(t', dirs)
  {
    OtherChainsKept(t, cs, t', dirs);
    LinkedIsChain(t, cs, t');
    ChainReachable(t', cs);
    forall q | q in heads
      ensures forall x: nat :: Reachable(t', heads[q], x) <==> Reachable(t, heads[q], x)
      ensures forall x: nat :: Reachable(t, heads[q], x) ==> x !in cs && t'[x] == t[x]
    {
      ReachAfterLink(t, t', dirs, heads, cs, q);
    }
    forall x: nat | Reachable(t', cs[0], x)
      ensures t'[x] != 0 && x !in dirs
    {
      var i :| 0 <= i < |cs| && cs[i] == x;
      ChainLink(t', cs, i);
    }
  }

  /** An entry without clusters owns nothing. */
  lemma ApartWithEmpty(t: seq<nat>, dirs: seq<nat>, heads: map<Pos, nat>, p: Pos)
    requires Apart(t, dirs, heads) && p !in heads
    ensures Apart(t, dirs, heads[p := 0])
  {
    forall x: nat
      ensures !Reachable(t, 0, x)
    {
      if Reachable(t, 0, x) {
        var j: nat :| Nth(t, 0, j) == Some(x);
        NthNone(t, 0, 0, j);
      }
    }
  }

  lemma {:induction false} ReachStep(t: seq<nat>, c: nat, n: nat)
    requires IsCluster(t, c)
    ensures Nth(t, c, n + 1) == Nth(t, t[c], n)
  {
    if n > 0 {
      ReachStep(t, c, n - 1);
    } else {
      assert Nth(t, c, 0) == Some(c);
    }
  }

  /** Sectors of the clusters reachable from `c` are the same on both disks. */
  ghost predicate SameFile(g: Geometry, d: Disk, d': Disk, c: nat)
    requires HasFats(g, d) && HasFats(g, d')
  {
    && |d'| == |d|
    && (forall x: nat :: Reachable(Fat(g, d), c, x) ==> Fat(g, d')[x] == Fat(g, d)[x])
    && (forall x: nat, lba: nat :: Reachable(Fat(g, d), c, x) && InCluster(g, x, lba) && lba < |d| ==> d'[lba] == d[lba])
  }

  lemma {:induction false} ClusterBytesKept(g: Geometry, bad: set<nat>, d: Disk, d': Disk, c: nat, s: nat, want: nat)
    requires g.Valid() && 2 <= c < g.Entries() && s <= g.secPerClus && |d'| == |d|
    requires forall lba: nat :: InCluster(g, c, lba) && lba < |d| ==> d'[lba] == d[lba]
    ensures ClusterBytes(g, bad, d', c, s, want) == ClusterBytes(g, bad, d, c, s, want)
    decreases g.secPerClus - s
  {
    hide Geometry.DataLba, Geometry.Valid;
    if s < g.secPerClus && want > 0 {
      DataLbaExact(g, c, s);
      ClusterBytesKept(g, bad, d, d', c, s + 1, want - Min(want, SECTOR));
    }
  }

  /** Reading a file whose clusters did not change gives what it gave. */
  lemma {:induction false} FileBytesKept(g: Geometry, bad: set<nat>, d: Disk, d': Disk, c: nat, want: nat)
    requires HasFats(g, d) && HasFats(g, d') && FatsSpared(g, bad) && Sound(Fat(g, d))
    requires LinkOk(Fat(g, d), c) && SameFile(g, d, d', c)
    ensures FileBytes(g, bad, d', c, want) == FileBytes(g, bad, d, c, want)
    decreases want
  {
    hide FatCopy, Geometry.DataLba, FatRead, Reachable;
    if !EndsChain(c) && want > 0 {
      var t := Fat(g, d);
      SelfReachable(t, c);
      ClusterBytesKept(g, bad, d, d', c, 0, want);
      FatReadIsTable(g, bad, d, c);
      FatReadIsTable(g, bad, d', c);
      var b := ClusterBytes(g, bad, d, c, 0, want);
      if b.Some? && |b.value| < want && !EndsChain(t[c]) {
        TailReachable(t, c);
        assert LinkOk(t, t[c]);
        FileBytesKept(g, bad, d, d', t[c], want - |b.value|);
      }
    }
  }

  lemma SelfReachable(t: seq<nat>, c: nat)
    requires IsCluster(t, c)
    ensures Reachable(t, c, c)
  {
    assert Nth(t, c, 0) == Some(c);
  }

  lemma TailReachable(t: seq<nat>, c: nat)
    requires IsCluster(t, c)
    ensures forall x: nat :: Reachable(t, t[c], x) ==> Reachable(t, c, x)
  {
    forall x: nat | Reachable(t, t[c], x)
      ensures Reachable(t, c, x)
    {
      var j: nat :| Nth(t, t[c], j) == Some(x);
      ReachStep(t, c, j);
    }
  }

  // --- Directory slots under disk changes ----------------------------------------------------

  /** The sectors of the directory's clusters are the same on both disks. */
  ghost predicate SameDir(g: Geometry, d: Disk, d': Disk, dirs: seq<nat>) {
    && |d'| == |d|
    && forall i: nat, lba: nat :: i < |dirs| && InCluster(g, dirs[i], lba) && lba < |d| ==> d'[lba] == d[lba]
  }

  lemma SameDirSector(g: Geometry, bad: set<nat>, d: Disk, d': Disk, dirs: seq<nat>, p: Pos)
    requires GoodDir(g, dirs) && SameDir(g, d, d', dirs) && InDir(g, dirs, p)
    ensures SectorAt(bad, d', PosLba(g, dirs, p)) == SectorAt(bad, d, PosLba(g, dirs, p))
  {
    DataLbaExact(g, dirs[p.i], p.s);
  }

  lemma HeadInRange(t: seq<nat>, dirs: seq<nat>, heads: map<Pos, nat>, p: Pos)
    requires Apart(t, dirs, heads) && p in heads
    ensures LinkOk(t, heads[p])
  {
  }

  lemma SameDirSlot(g: Geometry, bad: set<nat>, d: Disk, d': Disk, dirs: seq<nat>, p: Pos)
    requires GoodDir(g, dirs) && SameDir(g, d, d', dirs) && InDir(g, dirs, p)
    ensures SlotAt(g, bad, d', dirs, p) == SlotAt(g, bad, d, dirs, p)
  {
    DataLbaExact(g, dirs[p.i], p.s);
  }

  lemma {:induction false} SameDirScan(g: Geometry, bad: set<nat>, d: Disk, d': Disk, dirs: seq<nat>, q: Query, i: nat, s: nat, j: nat)
    requires GoodDir(g, dirs) && SameDir(g, d, d', dirs)
    requires i <= |dirs| && s <= g.secPerClus && j <= 16
    ensures Scan(g, bad, d', dirs, q, i, s, j) == Scan(g, bad, d, dirs, q, i, s, j)
    decreases |dirs| - i, g.secPerClus - s, 16 - j
  {
    hide GoodDir, SameDir, SlotAt, Stops, Hits, Geometry.DataLba;
    if i < |dirs| {
      if s == g.secPerClus {
        SameDirScan(g, bad, d, d', dirs, q, i + 1, 0, 0);
      } else if j == 16 {
        SameDirScan(g, bad, d, d', dirs, q, i, s + 1, 0);
      } else {
        ScanStep(g, bad, d, dirs, q, Pos(i, s, j));
        ScanStep(g, bad, d', dirs, q, Pos(i, s, j));
        SameDirSlot(g, bad, d, d', dirs, Pos(i, s, j));
        SameDirScan(g, bad, d, d', dirs, q, i, s, j + 1);
      }
    }
  }

  lemma SameDirHeads(g: Geometry, bad: set<nat>, d: Disk, d': Disk, dirs: seq<nat>, heads: map<Pos, nat>)
    requires GoodDir(g, dirs) && SameDir(g, d, d', dirs) && HeadsOf(g, bad, d, dirs, heads)
    ensures HeadsOf(g, bad, d', dirs, heads)
  {
    hide GoodDir, SameDir, SlotAt, Owns;
    forall p, h
      ensures HeadAt(g, bad, d', dirs, p, h) <==> HeadAt(g, bad, d, dirs, p, h)
    {
      if InDir(g, dirs, p) {
        SameDirSlot(g, bad, d, d', dirs, p);
      }
    }
  }

  /** FAT updates do not touch the directory. */
  lemma FatsOnlySameDir(g: Geometry, d: Disk, d': Disk, dirs: seq<nat>)
    requires GoodDir(g, dirs) && FatsOnly(g, d, d')
    ensures SameDir(g, d, d', dirs)
  {
    hide Mirrored, Geometry.Valid;
    forall i: nat, lba: nat | i < |dirs| && InCluster(g, dirs[i], lba) && lba < |d|
      ensures d'[lba] == d[lba]
    {
      ClusterAboveFat(g, dirs[i], lba);
    }
  }

  /** Neither do writes into clusters that were free. */
  lemma FreshSameDir(g: Geometry, t: seq<nat>, d: Disk, d': Disk, dirs: seq<nat>, cs: seq<nat>)
    requires GoodDir(g, dirs) && |t| <= BAD_CLUSTER && IsChain(t, dirs) && Unused(t, cs) && OnlyClusters(g, cs, d, d')
    ensures SameDir(g, d, d', dirs)
  {
    hide Geometry.Valid, InCluster;
    forall i: nat, lba: nat | i < |dirs| && InCluster(g, dirs[i], lba) && lba < |d|
      ensures d'[lba] == d[lba]
    {
      ClusterAboveFat(g, dirs[i], lba);
      if d'[lba] != d[lba] {
        var k: nat :| k < |cs| && InCluster(g, cs[k], lba);
        ClustersDisjoint(g, cs[k], dirs[i], lba);
        ChainLink(t, dirs, i);
        assert false;
      }
    }
  }

  /** Slot `p` is rewritten; all other slots and everything outside the directory stay. */
  lemma PutSlotFrame(g: Geometry, d: Disk, dirs: seq<nat>, p: Pos, s: Slot)
    requires HasFats(g, d) && GoodDir(g, dirs) && InDir(g, dirs, p) && PosLba(g, dirs, p) < |d|
    ensures SameFats(g, d, PutSlot(g, d, dirs, p, s))
    ensures OnlyClusters(g, [dirs[p.i]], d, PutSlot(g, d, dirs, p, s))
  {
    DataLbaExact(g, dirs[p.i], p.s);
    assert InCluster(g, [dirs[p.i]][0], PosLba(g, dirs, p));
  }

  /** The heads after slot `p` was overwritten by `s`. */
  function HeadsPut(heads: map<Pos, nat>, p: Pos, s: Slot): (r: map<Pos, nat>) {
    if Owns(s) then heads[p := SlotCluster(s)] else heads - {p}
  }

  lemma HeadsBecome(g: Geometry, bad: set<nat>, d: Disk, d': Disk, dirs: seq<nat>, p: Pos, s: Slot, heads: map<Pos, nat>)
    requires InDir(g, dirs, p) && SlotsBecome(g, bad, d, d', dirs, p, s) && HeadsOf(g, bad, d, dirs, heads)
    ensures HeadsOf(g, bad, d', dirs, HeadsPut(heads, p, s))
  {
    hide SlotAt, SlotCluster, Owns;
    var heads' := HeadsPut(heads, p, s);
    forall q, h | InDir(g, dirs, q)
      ensures HeadAt(g, bad, d', dirs, q, h) <==> q in heads' && heads'[q] == h
    {
      assert HeadAt(g, bad, d, dirs, q, h) <==> q in heads && heads[q] == h;
    }
  }

  /** A change confined to the directory's clusters leaves an entry's file alone. */
  lemma DirWriteSameFile(g: Geometry, d: Disk, d': Disk, dirs: seq<nat>, heads: map<Pos, nat>, i: nat, q: Pos)
    requires HasFats(g, d) && HasFats(g, d') && Apart(Fat(g, d), dirs, heads) && q in heads && i < |dirs|
    requires SameFats(g, d, d') && OnlyClusters(g, [dirs[i]], d, d')
    ensures SameFile(g, d, d', heads[q])
  {
    hide FatCopy, Reachable, Geometry.Valid, InCluster;
    assert dirs[i] in dirs;
    SameFatsSameTable(g, d, d');
    forall x: nat, lba: nat | Reachable(Fat(g, d), heads[q], x) && InCluster(g, x, lba) && lba < |d|
      ensures d'[lba] == d[lba]
    {
      if d'[lba] != d[lba] && !(g.rsvd <= lba < g.ClusterBegin()) {
        var k: nat :| k < 1 && InCluster(g, [dirs[i]][k], lba);
        ClustersDisjoint(g, dirs[i], x, lba);
        assert false;
      }
    }
  }

  /** Linking and filling free clusters leaves an entry's file alone. */
  lemma FreshSameFile(g: Geometry, d: Disk, d': Disk, dirs: seq<nat>, heads: map<Pos, nat>, cs: seq<nat>, q: Pos)
    requires HasFats(g, d) && HasFats(g, d') && Apart(Fat(g, d), dirs, heads) && q in heads
    requires Unused(Fat(g, d), cs) && OnlyClusters(g, cs, d, d')
    requires Fat(g, d') == Fat(g, d) || Linked(Fat(g, d), cs, Fat(g, d'))
    ensures SameFile(g, d, d', heads[q])
  {
    hide FatCopy, Reachable, Geometry.Valid, InCluster;
    var t := Fat(g, d);
    if Linked(t, cs, Fat(g, d')) {
      ReachAfterLink(t, Fat(g, d'), dirs, heads, cs, q);
    }
    forall x: nat, lba: nat | Reachable(t, heads[q], x) && InCluster(g, x, lba) && lba < |d|
      ensures d'[lba] == d[lba]
    {
      ReachableCluster(t, heads[q], x);
      ClusterAboveFat(g, x, lba);
      if d'[lba] != d[lba] {
        var k: nat :| k < |cs| && InCluster(g, cs[k], lba);
        ClustersDisjoint(g, cs[k], x, lba);
      }
    }
  }

  lemma ReachableCluster(t: seq<nat>, c: nat, x: nat)
    requires Reachable(t, c, x)
    ensures IsCluster(t, x)
  {
    var j: nat :| Nth(t, c, j) == Some(x);
  }

  /** Freeing another entry's chain leaves an entry's file alone. */
  lemma FreeSameFile(g: Geometry, d: Disk, d': Disk, dirs: seq<nat>, heads: map<Pos, nat>, p: Pos, q: Pos)
    requires HasFats(g, d) && HasFats(g, d') && Apart(Fat(g, d), dirs, heads) && p in heads && q in heads && p != q
    requires FatsOnly(g, d, d') && Freed(Fat(g, d), heads[p], Fat(g, d'))
    ensures SameFile(g, d, d', heads[q])
  {
    hide FatCopy, Reachable, Geometry.Valid, InCluster, Mirrored;
    var t := Fat(g, d);
    forall x: nat, lba: nat | Reachable(t, heads[q], x) && InCluster(g, x, lba) && lba < |d|
      ensures d'[lba] == d[lba]
    {
      ReachableCluster(t, heads[q], x);
      ClusterAboveFat(g, x, lba);
    }
    forall x: nat | Reachable(t, heads[q], x)
      ensures x < |t| && Fat(g, d')[x] == t[x]
    {
      ReachableCluster(t, heads[q], x);
    }
  }

  lemma SameFileChain(g: Geometry, d: Disk, d1: Disk, d2: Disk, c: nat)
    requires HasFats(g, d) && HasFats(g, d1) && HasFats(g, d2)
    requires SameFile(g, d, d1, c) && SameFile(g, d1, d2, c)
    ensures SameFile(g, d, d2, c)
  {
    hide FatCopy, Geometry.Valid, InCluster;
    ReachKept(Fat(g, d), Fat(g, d1), c);
  }
}
