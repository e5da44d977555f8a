/** Runs of writes and removals in one directory, on values: what each request does to the slots, and
    that what was written last under a name is what a lookup reads. */
module Fat32Run {
  import opened Bytes
  import opened Fat32Layout
  import opened Fat32Chain
  import opened Fat32File
  import opened Fat32Name
  import opened Fat32Dir
  import opened Fat32Owner
  import opened Fat32Volume
  import opened Fat32Files

  datatype Request = Write(name: CString, data: seq<byte>) | Remove(comp: seq<byte>)

  /** The component by which the request removes an entry. */
  function Comp(r: Request): (c: seq<byte>) {
    match r
    case Write(name, _) => name
    case Remove(comp) => comp
  }

  /** Names to write are path components: 1 to 63 bytes, not starting with the mark for deleted slots. */
  predicate Proper(r: Request) {
    r.Write? ==> 0 < |r.name| < 64 && r.name[0] != DELETED
  }

  /** What a request left behind: its result, disk and owned chains after the removal and at the end, and
      for a write that succeeded the clusters and the entry. */
  datatype Done = Done(ok: bool, mid: Disk, rest: map<Pos, nat>, after: Disk, now: map<Pos, nat>, cs: seq<nat>, e: Slot)

  /** The request was served: first the removal, then for a write the store, with the results these have. */
  ghost predicate Served(g: Geometry, bad: set<nat>, stuck: set<nat>, dirs: seq<nat>, d: Disk, heads: map<Pos, nat>, r: Request, x: Done) {
    && Proper(r)
    && Orderly(g, bad, stuck, d, dirs, heads) && Orderly(g, bad, stuck, x.mid, dirs, x.rest) && Orderly(g, bad, stuck, x.after, dirs, x.now)
    && Removed(g, bad, d, x.mid, dirs, Comp(r), heads, x.rest)
    && SameFiles(g, d, x.mid, x.rest) && SameFiles(g, x.mid, x.after, x.rest)
    && match r
       case Remove(comp) =>
         x.ok == ScanAll(g, bad, d, dirs, Doomed(comp)).At? && x.after == x.mid && x.now == x.rest
       case Write(name, data) =>
         && (x.ok <==> ShortName(name).Some? && CanStore(g, bad, stuck, x.mid, dirs, |data|))
         && (!x.ok ==> x.now == x.rest && Fat(g, x.after) == Fat(g, x.mid) && SameDir(g, x.mid, x.after, dirs))
         && (x.ok ==> && Stored(g, bad, x.mid, x.after, dirs, ShortName(name).value, data, x.cs, x.e)
                      && x.now == x.rest[ScanAll(g, bad, x.mid, dirs, FreeSlot).pos := Head(x.cs)])
  }

  /** Disk and owned chains before request `i`. */
  function DiskAt(d: Disk, log: seq<Done>, i: nat): (r: Disk)
    requires i <= |log|
  {
    if i == 0 then d else log[i - 1].after
  }

  function HeadsAt(heads: map<Pos, nat>, log: seq<Done>, i: nat): (r: map<Pos, nat>)
    requires i <= |log|
  {
    if i == 0 then heads else log[i - 1].now
  }

  /** Every request of the run was served, one after the other. */
  ghost predicate Ran(g: Geometry, bad: set<nat>, stuck: set<nat>, dirs: seq<nat>, d: Disk, heads: map<Pos, nat>, rs: seq<Request>, log: seq<Done>) {
    && |log| == |rs|
    && forall i :: 0 <= i < |rs| ==> Served(g, bad, stuck, dirs, DiskAt(d, log, i), HeadsAt(heads, log, i), rs[i], log[i])
  }

  // --- Slots ----------------------------------------------------------------------------------

  /** How one request can change a slot: not at all, marked as deleted, or filled with the entry. */
  ghost predicate SlotStep(was: Option<Slot>, now: Option<Slot>, r: Request, x: Done) {
    || now == was
    || (now.Some? && now.value[0] == DELETED)
    || (r.Write? && x.ok && now == Some(x.e))
  }

  lemma RemovedSlot(g: Geometry, bad: set<nat>, d: Disk, d': Disk, dirs: seq<nat>, comp: seq<byte>, heads: map<Pos, nat>, rest: map<Pos, nat>, q: Pos)
    requires Removed(g, bad, d, d', dirs, comp, heads, rest) && InDir(g, dirs, q)
    ensures var was, now := SlotAt(g, bad, d, dirs, q), SlotAt(g, bad, d', dirs, q);
            if ScanAll(g, bad, d, dirs, Doomed(comp)) == At(q) then was.Some? && now == Some(was.value[0 := DELETED]) else now == was
  {
    hide Scan, SlotAt, Freed, Fat;
  }

  lemma ServedSlot(g: Geometry, bad: set<nat>, stuck: set<nat>, dirs: seq<nat>, d: Disk, heads: map<Pos, nat>, r: Request, x: Done, q: Pos)
    requires Served(g, bad, stuck, dirs, d, heads, r, x) && InDir(g, dirs, q)
    ensures SlotStep(SlotAt(g, bad, d, dirs, q), SlotAt(g, bad, x.after, dirs, q), r, x)
  {
    hide Scan, SlotAt, Orderly, Fat, SameFiles, Removed, SlotsBecome, SameDir, CanStore;
    RemovedSlot(g, bad, d, x.mid, dirs, Comp(r), heads, x.rest, q);
    StoredSlot(g, bad, stuck, dirs, d, heads, r, x, q);
  }

  /** The second half of a request changes at most the slot that was free. */
  lemma StoredSlot(g: Geometry, bad: set<nat>, stuck: set<nat>, dirs: seq<nat>, d: Disk, heads: map<Pos, nat>, r: Request, x: Done, q: Pos)
    requires Served(g, bad, stuck, dirs, d, heads, r, x) && InDir(g, dirs, q)
    ensures SlotAt(g, bad, x.after, dirs, q) ==
            if r.Write? && x.ok && ScanAll(g, bad, x.mid, dirs, FreeSlot) == At(q) then Some(x.e) else SlotAt(g, bad, x.mid, dirs, q)
  {
    OrderlyIsGood(g, bad, stuck, x.mid, dirs, x.rest);
    hide Scan, SlotAt, Orderly, Fat, SameFiles, Removed, SameDir, CanStore, GoodDir;
    if r.Write? && !x.ok {
      SameDirSlot(g, bad, x.mid, x.after, dirs, q);
    }
  }

  lemma OrderlyIsGood(g: Geometry, bad: set<nat>, stuck: set<nat>, d: Disk, dirs: seq<nat>, heads: map<Pos, nat>)
    requires Orderly(g, bad, stuck, d, dirs, heads)
    ensures GoodDir(g, dirs) && 1 <= g.secPerClus
  {
    hide FatCopy, HeadsOf, Apart, FatsSpared;
    ChainIsGoodDir(g, Fat(g, d), dirs);
  }

  /** The entry of a write that succeeded. */
  lemma WrittenEntry(g: Geometry, bad: set<nat>, stuck: set<nat>, dirs: seq<nat>, d: Disk, heads: map<Pos, nat>, r: Request, x: Done)
    requires Served(g, bad, stuck, dirs, d, heads, r, x) && r.Write? && x.ok
    ensures 0 < |r.name| && r.name[0] != DELETED
    ensures ShortName(r.name) == Some(x.e[..11]) && x.e[11] == 0x20 && x.e[0] != FREE && x.e[0] != DELETED
    ensures SlotCluster(x.e) == Head(x.cs) && SlotSize(x.e) == |r.data| % TWO32 && Alike(x.e)
    ensures ScanAll(g, bad, x.mid, dirs, FreeSlot).At? && x.now == x.rest[ScanAll(g, bad, x.mid, dirs, FreeSlot).pos := Head(x.cs)]
  {
    hide Scan, Orderly, Fat, SameFiles, Removed, SlotsBecome, SameDir, CanStore, ShortName, SlotCluster, SlotSize, ChainHolds, Linked,
         Unused, Ascending, OnlyClusters, ReaderName, RemoverName;
    PackedFirst(r.name);
    assert x.e[0] == x.e[..11][0];
    PackedDecodes(r.name, x.e);
  }

  /** Slots written by the kernel read alike on both sides, and none of them is a dot entry. */
  lemma ServedKeepsAlike(g: Geometry, bad: set<nat>, stuck: set<nat>, dirs: seq<nat>, d: Disk, heads: map<Pos, nat>, r: Request, x: Done)
    requires Served(g, bad, stuck, dirs, d, heads, r, x)
    ensures AllAlike(g, bad, d, dirs) ==> AllAlike(g, bad, x.after, dirs)
    ensures NoDots(g, bad, d, dirs) ==> NoDots(g, bad, x.after, dirs)
  {
    hide Served, SlotAt, Alike, IsDot, SlotCluster, SlotSize, ShortName, Scan;
    if r.Write? && x.ok {
      WrittenEntry(g, bad, stuck, dirs, d, heads, r, x);
      NotDots(x.e);
    }
    forall q: Pos | InDir(g, dirs, q)
      ensures SlotStep(SlotAt(g, bad, d, dirs, q), SlotAt(g, bad, x.after, dirs, q), r, x)
      ensures SlotAt(g, bad, x.after, dirs, q).Some? && SlotAt(g, bad, x.after, dirs, q).value[0] == DELETED ==>
                !IsDot(SlotAt(g, bad, x.after, dirs, q).value)
    {
      ServedSlot(g, bad, stuck, dirs, d, heads, r, x, q);
      if SlotAt(g, bad, x.after, dirs, q).Some? {
        NotDots(SlotAt(g, bad, x.after, dirs, q).value);
      }
    }
  }

  lemma NotDots(s: Slot)
    ensures s[0] == DELETED || s[11] == 0x20 ==> !IsDot(s)
  {
    assert s[0] == s[..11][0];
  }

  // --- Entries that stay ----------------------------------------------------------------------

  /** Entry `s` stands at `p` and owns the chain from `h`. */
  ghost predicate EntryAt(g: Geometry, bad: set<nat>, d: Disk, dirs: seq<nat>, heads: map<Pos, nat>, p: Pos, s: Slot, h: nat) {
    InDir(g, dirs, p) && SlotAt(g, bad, d, dirs, p) == Some(s) && p in heads && heads[p] == h
  }

  /** A request whose component is no prefix of an entry's name leaves the entry, its chain and its bytes. */
  lemma ServedKeeps(g: Geometry, bad: set<nat>, stuck: set<nat>, dirs: seq<nat>, d: Disk, heads: map<Pos, nat>, r: Request, x: Done,
                    p: Pos, s: Slot, h: nat)
    requires Served(g, bad, stuck, dirs, d, heads, r, x) && EntryAt(g, bad, d, dirs, heads, p, s, h)
    requires !Hits(Doomed(Comp(r)), s)
    ensures EntryAt(g, bad, x.after, dirs, x.now, p, s, h)
    ensures HasFats(g, d) && HasFats(g, x.after) && SameFile(g, d, x.after, h)
  {
    hide Served, Scan, SlotAt, FatCopy, Geometry.Valid, SameFile, Hits;
    ServedRest(g, bad, stuck, dirs, d, heads, r, x, p, s, h);
    StoredSlot(g, bad, stuck, dirs, d, heads, r, x, p);
    ServedNow(g, bad, stuck, dirs, d, heads, r, x, p);
    SameFileChain(g, d, x.mid, x.after, h);
  }

  /** The removal keeps the entry. */
  lemma ServedRest(g: Geometry, bad: set<nat>, stuck: set<nat>, dirs: seq<nat>, d: Disk, heads: map<Pos, nat>, r: Request, x: Done,
                   p: Pos, s: Slot, h: nat)
    requires Served(g, bad, stuck, dirs, d, heads, r, x) && EntryAt(g, bad, d, dirs, heads, p, s, h)
    requires !Hits(Doomed(Comp(r)), s)
    ensures EntryAt(g, bad, x.mid, dirs, x.rest, p, s, h)
    ensures HasFats(g, d) && HasFats(g, x.mid) && SameFile(g, d, x.mid, h)
    ensures HasFats(g, x.after) && SameFile(g, x.mid, x.after, h)
  {
    hide Scan, SlotAt, FatCopy, Geometry.Valid, Removed, SlotsBecome, SameDir, CanStore, Stored, HeadsOf, Apart, IsChain, Sound, FatsSpared,
         SameFile, Hits, ShortName;
    NotTheDoomed(g, bad, d, dirs, Comp(r), p, s);
    RemovedSlot(g, bad, d, x.mid, dirs, Comp(r), heads, x.rest, p);
    RestKeeps(g, bad, d, x.mid, dirs, Comp(r), heads, x.rest, p);
  }

  /** The store takes a slot that owns nothing. */
  lemma ServedNow(g: Geometry, bad: set<nat>, stuck: set<nat>, dirs: seq<nat>, d: Disk, heads: map<Pos, nat>, r: Request, x: Done, p: Pos)
    requires Served(g, bad, stuck, dirs, d, heads, r, x) && p in x.rest
    ensures p in x.now && x.now[p] == x.rest[p]
    ensures r.Write? && x.ok ==> ScanAll(g, bad, x.mid, dirs, FreeSlot) != At(p)
  {
    hide Scan, SlotAt, FatCopy, Geometry.Valid, Removed, SlotsBecome, SameDir, CanStore, Stored, HeadsOf, Apart, IsChain, Sound, FatsSpared,
         SameFiles, ShortName, Alike, SlotCluster, SlotSize;
    if r.Write? && x.ok {
      WrittenEntry(g, bad, stuck, dirs, d, heads, r, x);
      FreeIsNoHead(g, bad, x.mid, dirs, x.rest);
    }
  }

  lemma NotTheDoomed(g: Geometry, bad: set<nat>, d: Disk, dirs: seq<nat>, comp: seq<byte>, p: Pos, s: Slot)
    requires InDir(g, dirs, p) && SlotAt(g, bad, d, dirs, p) == Some(s) && !Hits(Doomed(comp), s)
    ensures ScanAll(g, bad, d, dirs, Doomed(comp)) != At(p)
  {
    hide Scan, SlotAt, Hits;
    if ScanAll(g, bad, d, dirs, Doomed(comp)) == At(p) {
      ScanHit(g, bad, d, dirs, Doomed(comp), 0, 0, 0, p);
    }
  }

  lemma RestKeeps(g: Geometry, bad: set<nat>, d: Disk, d': Disk, dirs: seq<nat>, comp: seq<byte>, heads: map<Pos, nat>, rest: map<Pos, nat>, p: Pos)
    requires Removed(g, bad, d, d', dirs, comp, heads, rest) && p in heads && ScanAll(g, bad, d, dirs, Doomed(comp)) != At(p)
    ensures p in rest && rest[p] == heads[p]
  {
    hide Scan, Fat, SlotsBecome, Freed;
  }

  /** No component of requests `i` to `n` is a prefix of the entry's name. */
  ghost predicate Untouched(rs: seq<Request>, i: nat, n: nat, s: Slot)
    requires n <= |rs|
  {
    forall l :: i <= l < n ==> !Hits(Doomed(Comp(rs[l])), s)
  }

  lemma RanServed(g: Geometry, bad: set<nat>, stuck: set<nat>, dirs: seq<nat>, d: Disk, heads: map<Pos, nat>, rs: seq<Request>, log: seq<Done>, i: nat)
    requires Ran(g, bad, stuck, dirs, d, heads, rs, log) && i < |rs|
    ensures |log| == |rs| && Served(g, bad, stuck, dirs, DiskAt(d, log, i), HeadsAt(heads, log, i), rs[i], log[i])
    ensures HasFats(g, DiskAt(d, log, i)) && HasFats(g, DiskAt(d, log, i + 1))
  {
    ServedFats(g, bad, stuck, dirs, DiskAt(d, log, i), HeadsAt(heads, log, i), rs[i], log[i]);
    hide Served, Fat, Geometry.Valid;
  }

  /** Over any run, an entry that no request matches stays where it is, and its file stays byte for byte. */
  lemma {:induction false} RunKeeps(g: Geometry, bad: set<nat>, stuck: set<nat>, dirs: seq<nat>, d: Disk, heads: map<Pos, nat>,
                                    rs: seq<Request>, log: seq<Done>, i: nat, n: nat, p: Pos, s: Slot, h: nat)
    requires Ran(g, bad, stuck, dirs, d, heads, rs, log) && i < n <= |rs| && Untouched(rs, i, n, s)
    requires EntryAt(g, bad, DiskAt(d, log, i), dirs, HeadsAt(heads, log, i), p, s, h)
    ensures EntryAt(g, bad, DiskAt(d, log, n), dirs, HeadsAt(heads, log, n), p, s, h)
    ensures HasFats(g, DiskAt(d, log, i)) && HasFats(g, DiskAt(d, log, n))
    ensures SameFile(g, DiskAt(d, log, i), DiskAt(d, log, n), h)
  {
    hide EntryAt, SameFile, Hits, Served, HasFats, Ran;
    RanServed(g, bad, stuck, dirs, d, heads, rs, log, n - 1);
    if i < n - 1 {
      RunKeeps(g, bad, stuck, dirs, d, heads, rs, log, i, n - 1, p, s, h);
    }
    ServedKeeps(g, bad, stuck, dirs, DiskAt(d, log, n - 1), HeadsAt(heads, log, n - 1), rs[n - 1], log[n - 1], p, s, h);
    if i < n - 1 {
      SameFileChain(g, DiskAt(d, log, i), DiskAt(d, log, n - 1), DiskAt(d, log, n), h);
    }
  }

  /** A request in one directory leaves every chain elsewhere on the volume. */
  lemma ServedElsewhere(g: Geometry, bad: set<nat>, stuck: set<nat>, dirs: seq<nat>, d: Disk, heads: map<Pos, nat>, r: Request, x: Done, q: Pos)
    requires Served(g, bad, stuck, dirs, d, heads, r, x) && q in heads && !InDir(g, dirs, q)
    ensures q in x.now && x.now[q] == heads[q]
    ensures HasFats(g, d) && HasFats(g, x.after) && SameFile(g, d, x.after, heads[q])
  {
    hide Scan, FatCopy, Geometry.Valid, Removed, SlotsBecome, SameDir, CanStore, Stored, HeadsOf, Apart, IsChain, Sound, FatsSpared,
         SameFile, ShortName, InDir;
    RestKeeps(g, bad, d, x.mid, dirs, Comp(r), heads, x.rest, q);
    ServedNow(g, bad, stuck, dirs, d, heads, r, x, q);
    SameFileChain(g, d, x.mid, x.after, heads[q]);
  }

  /** Over any run in one directory, every file of another directory and that directory itself stay byte
      for byte. */
  lemma {:induction false} ElsewhereKept(g: Geometry, bad: set<nat>, stuck: set<nat>, dirs: seq<nat>, d: Disk, heads: map<Pos, nat>,
                                         rs: seq<Request>, log: seq<Done>, n: nat, q: Pos)
    requires Ran(g, bad, stuck, dirs, d, heads, rs, log) && n <= |rs| && HasFats(g, d) && q in heads && !InDir(g, dirs, q)
    ensures q in HeadsAt(heads, log, n) && HeadsAt(heads, log, n)[q] == heads[q]
    ensures HasFats(g, DiskAt(d, log, n)) && SameFile(g, d, DiskAt(d, log, n), heads[q])
  {
    hide SameFile, Served, HasFats, Ran, InDir;
    if n == 0 {
      SameFileSelf(g, d, heads[q]);
    } else {
      ElsewhereKept(g, bad, stuck, dirs, d, heads, rs, log, n - 1, q);
      RanServed(g, bad, stuck, dirs, d, heads, rs, log, n - 1);
      ServedElsewhere(g, bad, stuck, dirs, DiskAt(d, log, n - 1), HeadsAt(heads, log, n - 1), rs[n - 1], log[n - 1], q);
      SameFileChain(g, d, DiskAt(d, log, n - 1), DiskAt(d, log, n), heads[q]);
    }
  }

  lemma ServedFats(g: Geometry, bad: set<nat>, stuck: set<nat>, dirs: seq<nat>, d: Disk, heads: map<Pos, nat>, r: Request, x: Done)
    requires Served(g, bad, stuck, dirs, d, heads, r, x)
    ensures HasFats(g, d) && HasFats(g, x.after) && FatsSpared(g, bad) && Sound(Fat(g, d)) && Sound(Fat(g, x.after))
    ensures forall p :: p in heads ==> LinkOk(Fat(g, d), heads[p])
    ensures forall p :: p in x.now ==> LinkOk(Fat(g, x.after), x.now[p])
  {
    hide Scan, Fat, Removed, SlotsBecome, SameDir, CanStore, Stored, HeadsOf, IsChain, Sound, SameFiles, Reachable;
  }

  // --- Lookups --------------------------------------------------------------------------------

  /** Every slot before `p` is readable and none ends the scans. */
  ghost predicate NoGaps(g: Geometry, bad: set<nat>, d: Disk, dirs: seq<nat>, p: Pos) {
    forall q: Pos :: InDir(g, dirs, q) && q.Before(p) ==>
                       SlotAt(g, bad, d, dirs, q).Some? && SlotAt(g, bad, d, dirs, q).value[0] != FREE
  }

  /** No slot before `p` answers to the name. */
  ghost predicate Foremost(g: Geometry, bad: set<nat>, d: Disk, dirs: seq<nat>, p: Pos, name: seq<byte>) {
    forall q: Pos :: InDir(g, dirs, q) && q.Before(p) && SlotAt(g, bad, d, dirs, q).Some? ==>
                       !Hits(Named(name), SlotAt(g, bad, d, dirs, q).value)
  }

  /** An entry that answers is what the lookup finds exactly when it is the foremost one. */
  lemma FoundWhenForemost(g: Geometry, bad: set<nat>, d: Disk, dirs: seq<nat>, p: Pos, name: seq<byte>)
    requires NoGaps(g, bad, d, dirs, p) && Answers(g, bad, d, dirs, Named(name), p)
    ensures ScanAll(g, bad, d, dirs, Named(name)) == At(p) <==> Foremost(g, bad, d, dirs, p, name)
  {
    hide Scan, SlotAt, Hits;
    var q := Named(name);
    ScanAgrees(g, bad, d, d, dirs, q, p, 0, 0, 0);
    var found := ScanAll(g, bad, d, dirs, q);
    if found == At(p) {
      forall x: Pos | InDir(g, dirs, x) && x.Before(p)
        ensures Passes(g, bad, d, dirs, q, x)
      {
        ScanHit(g, bad, d, dirs, q, 0, 0, 0, x);
      }
    } else {
      ScanHit(g, bad, d, dirs, q, 0, 0, 0, found.pos);
    }
  }

  /** A name decoded from an entry answers to a component: as a whole if the component has a dot, else with
      its part before the first dot. */
  predicate AnswersTo(decoded: seq<byte>, comp: seq<byte>) {
    if DOT in comp then decoded == Uppercase(comp) else UpTo(decoded, DOT) == Uppercase(comp)
  }

  /** The entry made for one name answers to another exactly when its decoded name does. */
  lemma AnsweredExactly(e: Slot, name: CString, comp: seq<byte>)
    requires ShortName(name) == Some(e[..11]) && e[11] == 0x20 && e[0] != DELETED
    ensures Hits(Named(comp), e) <==> AnswersTo(Decoded(name), comp)
  {
    hide ShortName, Uppercase, Decoded, ReaderName, UpTo;
    PackedDecodes(name, e);
    UppercaseKeeps(comp);
  }

  lemma ServedNoGaps(g: Geometry, bad: set<nat>, stuck: set<nat>, dirs: seq<nat>, d: Disk, heads: map<Pos, nat>, r: Request, x: Done, p: Pos)
    requires Served(g, bad, stuck, dirs, d, heads, r, x) && NoGaps(g, bad, d, dirs, p)
    ensures NoGaps(g, bad, x.after, dirs, p)
  {
    hide Served, SlotAt;
    if r.Write? && x.ok {
      WrittenEntry(g, bad, stuck, dirs, d, heads, r, x);
    }
    forall q: Pos | InDir(g, dirs, q)
      ensures SlotStep(SlotAt(g, bad, d, dirs, q), SlotAt(g, bad, x.after, dirs, q), r, x)
    {
      ServedSlot(g, bad, stuck, dirs, d, heads, r, x, q);
    }
  }

  lemma ServedForemost(g: Geometry, bad: set<nat>, stuck: set<nat>, dirs: seq<nat>, d: Disk, heads: map<Pos, nat>, r: Request, x: Done,
                       p: Pos, name: CString)
    requires Served(g, bad, stuck, dirs, d, heads, r, x) && Foremost(g, bad, d, dirs, p, name) && NoGaps(g, bad, d, dirs, p)
    requires r.Write? ==> !AnswersTo(Decoded(r.name), name)
    ensures Foremost(g, bad, x.after, dirs, p, name)
  {
    hide Served, SlotAt, Hits, AnswersTo, Decoded;
    if r.Write? && x.ok {
      WrittenEntry(g, bad, stuck, dirs, d, heads, r, x);
      AnsweredExactly(x.e, r.name, name);
    }
    forall q: Pos | InDir(g, dirs, q) && q.Before(p) && SlotAt(g, bad, x.after, dirs, q).Some?
      ensures !Hits(Named(name), SlotAt(g, bad, x.after, dirs, q).value)
    {
      ServedSlot(g, bad, stuck, dirs, d, heads, r, x, q);
      DeletedNeverHits(name, SlotAt(g, bad, x.after, dirs, q).value);
    }
  }

  // --- Where a write lands --------------------------------------------------------------------

  /** Before the slot a write fills, nothing answers to the name: such an entry, or one before it, would
      have been removed, and its slot would be the first free one. */
  lemma NothingBefore(g: Geometry, bad: set<nat>, d: Disk, mid: Disk, dirs: seq<nat>, name: seq<byte>, heads: map<Pos, nat>, rest: map<Pos, nat>,
                      p: Pos, q: Pos)
    requires Removed(g, bad, d, mid, dirs, name, heads, rest) && AllAlike(g, bad, d, dirs)
    requires ScanAll(g, bad, mid, dirs, FreeSlot) == At(p) && InDir(g, dirs, q) && q.Before(p)
    ensures SlotAt(g, bad, mid, dirs, q).Some?
    ensures var s := SlotAt(g, bad, mid, dirs, q).value; s[0] != FREE && s[0] != DELETED && !Hits(Named(name), s)
  {
    hide Removed, Scan, SlotAt, Hits, Alike;
    ScanHit(g, bad, mid, dirs, FreeSlot, 0, 0, 0, q);
    FreeSlotHits(SlotAt(g, bad, mid, dirs, q).value);
    RemovedSlot(g, bad, d, mid, dirs, name, heads, rest, q);
    var s := SlotAt(g, bad, mid, dirs, q).value;
    if Hits(Named(name), s) {
      NamedIsDoomed(s, name);
      forall x: Pos | InDir(g, dirs, x) && x.Before(q)
        ensures SlotAt(g, bad, d, dirs, x).Some? && !Stops(Doomed(name), SlotAt(g, bad, d, dirs, x).value)
      {
        ScanHit(g, bad, mid, dirs, FreeSlot, 0, 0, 0, x);
        FreeSlotHits(SlotAt(g, bad, mid, dirs, x).value);
        RemovedSlot(g, bad, d, mid, dirs, name, heads, rest, x);
      }
      ScanAgrees(g, bad, d, d, dirs, Doomed(name), q, 0, 0, 0);
      var r := ScanAll(g, bad, d, dirs, Doomed(name)).pos;
      RemovedSlot(g, bad, d, mid, dirs, name, heads, rest, r);
      ScanHit(g, bad, mid, dirs, FreeSlot, 0, 0, 0, r);
      FreeSlotHits(SlotAt(g, bad, mid, dirs, r).value);
      assert false;
    }
  }

  lemma FreeSlotHits(s: Slot)
    ensures Hits(FreeSlot, s) <==> s[0] == FREE || s[0] == DELETED
  {
  }

  /** A write that succeeded stands at a slot before which nothing answers to its name. */
  lemma WriteLands(g: Geometry, bad: set<nat>, stuck: set<nat>, dirs: seq<nat>, d: Disk, heads: map<Pos, nat>, r: Request, x: Done) returns (p: Pos)
    requires Served(g, bad, stuck, dirs, d, heads, r, x) && r.Write? && x.ok && AllAlike(g, bad, d, dirs)
    ensures EntryAt(g, bad, x.after, dirs, x.now, p, x.e, Head(x.cs))
    ensures NoGaps(g, bad, x.after, dirs, p) && Foremost(g, bad, x.after, dirs, p, r.name)
  {
    hide Served, Removed, Scan, SlotAt, Hits, AllAlike, ShortName, SlotCluster, SlotSize, Alike;
    WrittenEntry(g, bad, stuck, dirs, d, heads, r, x);
    p := ScanAll(g, bad, x.mid, dirs, FreeSlot).pos;
    StoredSlot(g, bad, stuck, dirs, d, heads, r, x, p);
    ServedRemoved(g, bad, stuck, dirs, d, heads, r, x);
    forall q: Pos | InDir(g, dirs, q) && q.Before(p)
      ensures SlotAt(g, bad, x.after, dirs, q) == SlotAt(g, bad, x.mid, dirs, q)
      ensures SlotAt(g, bad, x.mid, dirs, q).Some?
      ensures SlotAt(g, bad, x.mid, dirs, q).value[0] != FREE && !Hits(Named(r.name), SlotAt(g, bad, x.mid, dirs, q).value)
    {
      StoredSlot(g, bad, stuck, dirs, d, heads, r, x, q);
      NothingBefore(g, bad, d, x.mid, dirs, r.name, heads, x.rest, p, q);
    }
  }

  lemma ServedRemoved(g: Geometry, bad: set<nat>, stuck: set<nat>, dirs: seq<nat>, d: Disk, heads: map<Pos, nat>, r: Request, x: Done)
    requires Served(g, bad, stuck, dirs, d, heads, r, x)
    ensures Removed(g, bad, d, x.mid, dirs, Comp(r), heads, x.rest)
  {
    hide Orderly, Removed, SameFiles, CanStore, Stored, SameDir, ShortName, Scan, Fat;
  }

  /** What was written is what the chain of the entry reads. */
  lemma WrittenBytes(g: Geometry, bad: set<nat>, stuck: set<nat>, dirs: seq<nat>, d: Disk, heads: map<Pos, nat>, r: Request, x: Done)
    requires Served(g, bad, stuck, dirs, d, heads, r, x) && r.Write? && x.ok && r.data != []
    ensures 1 <= g.secPerClus && 2 <= Head(x.cs) < TWO32
    ensures FileBytes(g, bad, x.after, Head(x.cs), |r.data|) == Some(r.data)
  {
    OrderlyIsGood(g, bad, stuck, x.mid, dirs, x.rest);
    hide FatCopy, Geometry.Valid, ChainHolds, FileBytes, SlotsBecome, Scan, HeadsOf, Apart, IsChain, CanStore, SameFiles, Removed,
         SlotCluster, SlotSize, OnlyClusters;
    assert x.cs != [];
    LinkedIsChain(Fat(g, x.mid), x.cs, Fat(g, x.after));
    ChainReadsBack(g, bad, x.after, x.cs, r.data);
  }

  // --- The last write is what is read ---------------------------------------------------------

  lemma {:induction false} RunAlike(g: Geometry, bad: set<nat>, stuck: set<nat>, dirs: seq<nat>, d: Disk, heads: map<Pos, nat>, rs: seq<Request>, log: seq<Done>, i: nat)
    requires Ran(g, bad, stuck, dirs, d, heads, rs, log) && i <= |rs| && AllAlike(g, bad, d, dirs)
    ensures AllAlike(g, bad, DiskAt(d, log, i), dirs)
  {
    hide Ran, Served, AllAlike;
    if i > 0 {
      RunAlike(g, bad, stuck, dirs, d, heads, rs, log, i - 1);
      RanServed(g, bad, stuck, dirs, d, heads, rs, log, i - 1);
      ServedKeepsAlike(g, bad, stuck, dirs, DiskAt(d, log, i - 1), HeadsAt(heads, log, i - 1), rs[i - 1], log[i - 1]);
    }
  }

  lemma {:induction false} RunNoGaps(g: Geometry, bad: set<nat>, stuck: set<nat>, dirs: seq<nat>, d: Disk, heads: map<Pos, nat>, rs: seq<Request>, log: seq<Done>,
                                     i: nat, n: nat, p: Pos)
    requires Ran(g, bad, stuck, dirs, d, heads, rs, log) && i <= n <= |rs| && NoGaps(g, bad, DiskAt(d, log, i), dirs, p)
    ensures NoGaps(g, bad, DiskAt(d, log, n), dirs, p)
  {
    hide Ran, Served, NoGaps;
    if i < n {
      RunNoGaps(g, bad, stuck, dirs, d, heads, rs, log, i, n - 1, p);
      RanServed(g, bad, stuck, dirs, d, heads, rs, log, n - 1);
      ServedNoGaps(g, bad, stuck, dirs, DiskAt(d, log, n - 1), HeadsAt(heads, log, n - 1), rs[n - 1], log[n - 1], p);
    }
  }

  /** No write of requests `i` to `n` makes an entry that answers to the name. */
  predicate NoRival(rs: seq<Request>, i: nat, n: nat, name: CString)
    requires n <= |rs|
  {
    forall l :: i <= l < n && rs[l].Write? ==> !AnswersTo(Decoded(rs[l].name), name)
  }

  lemma {:induction false} RunForemost(g: Geometry, bad: set<nat>, stuck: set<nat>, dirs: seq<nat>, d: Disk, heads: map<Pos, nat>, rs: seq<Request>, log: seq<Done>,
                                       i: nat, n: nat, p: Pos, name: CString)
    requires Ran(g, bad, stuck, dirs, d, heads, rs, log) && i <= n <= |rs| && NoRival(rs, i, n, name)
    requires NoGaps(g, bad, DiskAt(d, log, i), dirs, p) && Foremost(g, bad, DiskAt(d, log, i), dirs, p, name)
    ensures Foremost(g, bad, DiskAt(d, log, n), dirs, p, name)
  {
    hide Ran, Served, NoGaps, Foremost, AnswersTo, Decoded;
    if i < n {
      assert NoRival(rs, i, n - 1, name);
      RunForemost(g, bad, stuck, dirs, d, heads, rs, log, i, n - 1, p, name);
      RunNoGaps(g, bad, stuck, dirs, d, heads, rs, log, i, n - 1, p);
      RanServed(g, bad, stuck, dirs, d, heads, rs, log, n - 1);
      ServedForemost(g, bad, stuck, dirs, DiskAt(d, log, n - 1), HeadsAt(heads, log, n - 1), rs[n - 1], log[n - 1], p, name);
    }
  }

  /** No component of requests `i` to `n` is a prefix of what the name decodes to. */
  predicate NoRemoval(rs: seq<Request>, i: nat, n: nat, name: CString)
    requires n <= |rs|
  {
    forall l :: i <= l < n ==> !(Uppercase(Comp(rs[l])) <= Decoded(name))
  }

  /** Request `k` wrote `name`, and no later request removes by a prefix of it. */
  ghost predicate LastWrite(rs: seq<Request>, log: seq<Done>, k: nat) {
    && k < |rs| == |log| && rs[k].Write? && log[k].ok && |rs[k].data| < TWO32
    && NoRemoval(rs, k + 1, |rs|, rs[k].name)
  }

  /** Bytes a lookup reads for a file: an empty one cannot be read. */
  function Seen(data: seq<byte>): (r: Option<seq<byte>>) {
    if data == [] then None else Some(data)
  }

  /** The entry of request `k` stands at `p` at the end of the run, with nothing before it that ends a
      lookup, and its file is what it was when it was written. */
  ghost predicate Stands(g: Geometry, bad: set<nat>, dirs: seq<nat>, end: Disk, now: map<Pos, nat>, x: Done, p: Pos) {
    && EntryAt(g, bad, end, dirs, now, p, x.e, Head(x.cs)) && NoGaps(g, bad, end, dirs, p)
    && HasFats(g, x.after) && HasFats(g, end) && SameFile(g, x.after, end, Head(x.cs))
  }

  /** After any run, the last write of a name stands where it was put, and nothing before it answers to the
      name unless a later write made it. */
  lemma LastWriteStands(g: Geometry, bad: set<nat>, stuck: set<nat>, dirs: seq<nat>, d: Disk, heads: map<Pos, nat>, rs: seq<Request>, log: seq<Done>, k: nat)
    returns (p: Pos)
    requires Ran(g, bad, stuck, dirs, d, heads, rs, log) && AllAlike(g, bad, d, dirs) && LastWrite(rs, log, k)
    ensures Stands(g, bad, dirs, DiskAt(d, log, |rs|), HeadsAt(heads, log, |rs|), log[k], p)
    ensures NoRival(rs, k + 1, |rs|, rs[k].name) ==> Foremost(g, bad, DiskAt(d, log, |rs|), dirs, p, rs[k].name)
  {
    hide Ran, Served, AllAlike, EntryAt, NoGaps, Foremost, NoRemoval, NoRival, Decoded, Uppercase, HasFats, ShortName, SameFile, Alike;
    RunAlike(g, bad, stuck, dirs, d, heads, rs, log, k);
    RanServed(g, bad, stuck, dirs, d, heads, rs, log, k);
    p := WriteLands(g, bad, stuck, dirs, DiskAt(d, log, k), HeadsAt(heads, log, k), rs[k], log[k]);
    RunNoGaps(g, bad, stuck, dirs, d, heads, rs, log, k + 1, |rs|, p);
    if NoRival(rs, k + 1, |rs|, rs[k].name) {
      RunForemost(g, bad, stuck, dirs, d, heads, rs, log, k + 1, |rs|, p, rs[k].name);
    }
    EntryStays(g, bad, stuck, dirs, d, heads, rs, log, k, p);
  }

  /** When the name fits, a lookup finds the entry exactly if it is the foremost one to answer, and then
      reads the bytes written. */
  lemma LastWriteFound(g: Geometry, bad: set<nat>, stuck: set<nat>, dirs: seq<nat>, d: Disk, heads: map<Pos, nat>, rs: seq<Request>, log: seq<Done>, k: nat, p: Pos)
    requires Ran(g, bad, stuck, dirs, d, heads, rs, log) && LastWrite(rs, log, k) && FitsShort(rs[k].name)
    requires Stands(g, bad, dirs, DiskAt(d, log, |rs|), HeadsAt(heads, log, |rs|), log[k], p)
    ensures 1 <= g.secPerClus
    ensures var end := DiskAt(d, log, |rs|);
            && (ScanAll(g, bad, end, dirs, Named(rs[k].name)) == At(p) <==> Foremost(g, bad, end, dirs, p, rs[k].name))
            && (Foremost(g, bad, end, dirs, p, rs[k].name) ==> GetSpec(g, bad, end, dirs, rs[k].name) == Seen(rs[k].data))
  {
    hide Ran, Served, EntryAt, NoGaps, Foremost, NoRemoval, FitsShort, Scan, GetSpec, HasFats, SameFile;
    RanServed(g, bad, stuck, dirs, d, heads, rs, log, k);
    EntryRead(g, bad, stuck, dirs, DiskAt(d, log, k), HeadsAt(heads, log, k), rs[k], log[k], DiskAt(d, log, |rs|), HeadsAt(heads, log, |rs|), p);
  }

  lemma EntryStays(g: Geometry, bad: set<nat>, stuck: set<nat>, dirs: seq<nat>, d: Disk, heads: map<Pos, nat>, rs: seq<Request>, log: seq<Done>, k: nat, p: Pos)
    requires Ran(g, bad, stuck, dirs, d, heads, rs, log) && LastWrite(rs, log, k)
    requires EntryAt(g, bad, log[k].after, dirs, log[k].now, p, log[k].e, Head(log[k].cs))
    ensures EntryAt(g, bad, DiskAt(d, log, |rs|), dirs, HeadsAt(heads, log, |rs|), p, log[k].e, Head(log[k].cs))
    ensures HasFats(g, log[k].after) && HasFats(g, DiskAt(d, log, |rs|))
    ensures SameFile(g, log[k].after, DiskAt(d, log, |rs|), Head(log[k].cs))
  {
    hide Ran, Served, EntryAt, SameFile, ShortName, HasFats, Untouched, NoRemoval, Alike, SlotCluster, SlotSize, Scan;
    RanServed(g, bad, stuck, dirs, d, heads, rs, log, k);
    WrittenEntry(g, bad, stuck, dirs, DiskAt(d, log, k), HeadsAt(heads, log, k), rs[k], log[k]);
    if k + 1 < |rs| {
      UntouchedLater(rs, k + 1, |rs|, rs[k].name, log[k].e);
      RunKeeps(g, bad, stuck, dirs, d, heads, rs, log, k + 1, |rs|, p, log[k].e, Head(log[k].cs));
    } else {
      SameFileSelf(g, log[k].after, Head(log[k].cs));
    }
  }

  lemma UntouchedLater(rs: seq<Request>, i: nat, n: nat, name: CString, e: Slot)
    requires n <= |rs| && NoRemoval(rs, i, n, name) && 0 < |name| && name[0] != DELETED
    requires ShortName(name) == Some(e[..11]) && e[11] == 0x20
    ensures Untouched(rs, i, n, e)
  {
    hide Hits, Uppercase, Decoded, ShortName;
    forall l | i <= l < n
      ensures !Hits(Doomed(Comp(rs[l])), e)
    {
      DoomedExactly(Comp(rs[l]), name, e);
    }
  }

  /** What the entry found reads. */
  lemma FoundReads(g: Geometry, bad: set<nat>, d: Disk, dirs: seq<nat>, name: seq<byte>, p: Pos, e: Slot, data: seq<byte>)
    requires 1 <= g.secPerClus && ScanAll(g, bad, d, dirs, Named(name)) == At(p) && SlotAt(g, bad, d, dirs, p) == Some(e)
    requires e[11] == 0x20 && SlotSize(e) == |data|
    requires if data == [] then SlotCluster(e) == 0
             else 2 <= SlotCluster(e) < TWO32 && FileBytes(g, bad, d, SlotCluster(e), |data|) == Some(data)
    ensures GetSpec(g, bad, d, dirs, name) == Seen(data)
  {
    hide Scan, SlotAt, FileBytes, Decimal, ParseCluster, SlotCluster, SlotSize;
    if data == [] {
      EmptyNeverRead(g, bad, d, dirs, name, p);
    } else {
      ParseDecimal(SlotCluster(e));
    }
  }

  /** The file of the last write has its bytes at the end of the run. */
  lemma LastBytes(g: Geometry, bad: set<nat>, stuck: set<nat>, dirs: seq<nat>, d: Disk, heads: map<Pos, nat>, r: Request, x: Done, end: Disk)
    requires Served(g, bad, stuck, dirs, d, heads, r, x) && r.Write? && x.ok && r.data != []
    requires HasFats(g, x.after) && HasFats(g, end) && SameFile(g, x.after, end, Head(x.cs))
    ensures 1 <= g.secPerClus && 2 <= Head(x.cs) < TWO32 && FileBytes(g, bad, end, Head(x.cs), |r.data|) == Some(r.data)
  {
    hide Served, Fat, FileBytes, SameFile, Sound, FatsSpared;
    WrittenBytes(g, bad, stuck, dirs, d, heads, r, x);
    ServedFats(g, bad, stuck, dirs, d, heads, r, x);
    WrittenEntry(g, bad, stuck, dirs, d, heads, r, x);
    assert ScanAll(g, bad, x.mid, dirs, FreeSlot).pos in x.now;
    FileBytesKept(g, bad, x.after, end, Head(x.cs), |r.data|);
  }

  lemma EntryRead(g: Geometry, bad: set<nat>, stuck: set<nat>, dirs: seq<nat>, d: Disk, heads: map<Pos, nat>, r: Request, x: Done,
                  end: Disk, now: map<Pos, nat>, p: Pos)
    requires Served(g, bad, stuck, dirs, d, heads, r, x) && r.Write? && x.ok && |r.data| < TWO32 && FitsShort(r.name)
    requires EntryAt(g, bad, end, dirs, now, p, x.e, Head(x.cs)) && NoGaps(g, bad, end, dirs, p)
    requires HasFats(g, x.after) && HasFats(g, end) && SameFile(g, x.after, end, Head(x.cs))
    ensures 1 <= g.secPerClus
    ensures ScanAll(g, bad, end, dirs, Named(r.name)) == At(p) <==> Foremost(g, bad, end, dirs, p, r.name)
    ensures Foremost(g, bad, end, dirs, p, r.name) ==> GetSpec(g, bad, end, dirs, r.name) == Seen(r.data)
  {
    hide Fat, FileBytes, SameFile, FitsShort, Scan, SlotAt, NoGaps, Foremost, GetSpec, SlotCluster, SlotSize, ShortName, Hits, HasFats,
         Orderly, Removed, SameFiles, CanStore, SameDir, Linked, ChainHolds, Unused, Ascending, OnlyClusters, SlotsBecome, ClusterSize;
    OrderlyIsGood(g, bad, stuck, d, dirs, heads);
    WrittenEntry(g, bad, stuck, dirs, d, heads, r, x);
    EntryAnswers(x.e, r.name);
    FoundWhenForemost(g, bad, end, dirs, p, r.name);
    if Foremost(g, bad, end, dirs, p, r.name) {
      if r.data != [] {
        LastBytes(g, bad, stuck, dirs, d, heads, r, x, end);
      } else {
        EmptyHasNoChain(|x.cs|, ClusterSize(g));
      }
      FoundReads(g, bad, end, dirs, r.name, p, x.e, r.data);
    }
  }

  lemma EmptyHasNoChain(k: nat, size: nat)
    requires (k - 1) * size < 0
    ensures k == 0
  {
    if k > 0 {
      MulMonotone(0, k - 1, size);
    }
  }

  lemma SameFileSelf(g: Geometry, d: Disk, c: nat)
    requires HasFats(g, d)
    ensures SameFile(g, d, d, c)
  {
    hide FatCopy;
    forall x: nat | Reachable(Fat(g, d), c, x)
      ensures x < |Fat(g, d)|
    {
      ReachableCluster(Fat(g, d), c, x);
    }
  }

  /** After any run, a lookup of a fitting name reads the bytes of its last write, if no later request
      removes by a prefix of the name or writes an entry that answers to it. */
  lemma LastWriteRead(g: Geometry, bad: set<nat>, stuck: set<nat>, dirs: seq<nat>, d: Disk, heads: map<Pos, nat>, rs: seq<Request>, log: seq<Done>, k: nat)
    requires Ran(g, bad, stuck, dirs, d, heads, rs, log) && AllAlike(g, bad, d, dirs) && LastWrite(rs, log, k)
    requires FitsShort(rs[k].name) && NoRival(rs, k + 1, |rs|, rs[k].name)
    ensures 1 <= g.secPerClus && GetSpec(g, bad, DiskAt(d, log, |rs|), dirs, rs[k].name) == Seen(rs[k].data)
  {
    hide Ran, AllAlike, LastWrite, FitsShort, NoRival, GetSpec, Foremost, Stands, Scan;
    var p := LastWriteStands(g, bad, stuck, dirs, d, heads, rs, log, k);
    LastWriteFound(g, bad, stuck, dirs, d, heads, rs, log, k, p);
  }
}
