/** Directories as scans over the 32-byte slots of a cluster chain. */
module Fat32Dir {
  import opened Bytes
  import opened Fat32Layout
  import opened Fat32Chain
  import opened Fat32File
  import opened Fat32Name

  /** The three scans of the source: for a slot to write into, for an entry to remove (the component
      need only be a prefix of the decoded name), and for an entry to read. */
  datatype Query = FreeSlot | Doomed(comp: seq<byte>) | Named(comp: seq<byte>)

  /** A zero first byte ends every scan that looks for an entry. */
  predicate Stops(q: Query, s: Slot) {
    !q.FreeSlot? && s[0] == FREE
  }

  predicate Hits(q: Query, s: Slot) {
    match q
    case FreeSlot => s[0] == FREE || s[0] == DELETED
    case Doomed(c) => s[0] != DELETED && s[11] % 16 != 15 && Uppercase(c) <= RemoverName(s)
    case Named(c) => s[0] != DELETED && s[11] / 8 % 2 == 0 && ReaderMatches(Uppercase(c), s)
  }

  /** Neither lookups nor removals depend on the letter case of the component. */
  lemma CaseBlind(a: seq<byte>, b: seq<byte>, s: Slot)
    requires SameLetters(a, b)
    ensures Hits(Named(a), s) <==> Hits(Named(b), s)
    ensures Hits(Doomed(a), s) <==> Hits(Doomed(b), s)
  {
    hide Uppercase, RemoverName, ReaderMatches;
    SameCapitals(a, b);
  }

  /** What no lookup and no removal answers to: deleted slots and parts of long names; and lookups pass
      volume labels over. */
  lemma PassedOver(comp: seq<byte>, s: Slot)
    ensures s[0] == 0xE5 || s[11] % 16 == 15 ==> !Hits(Named(comp), s) && !Hits(Doomed(comp), s)
    ensures s[11] / 8 % 2 == 1 ==> !Hits(Named(comp), s)
  {
    hide Uppercase, RemoverName, ReaderMatches;
  }

  /** Slot `j` of sector `s` of the directory's cluster number `i`. */
  datatype Pos = Pos(i: nat, s: nat, j: nat) {
    predicate Before(p: Pos) {
      i < p.i || (i == p.i && (s < p.s || (s == p.s && j < p.j)))
    }
  }

  datatype Found = At(pos: Pos) | Missing | IoError

  predicate InDir(g: Geometry, dirs: seq<nat>, p: Pos) {
    p.i < |dirs| && p.s < g.secPerClus && p.j < 16
  }

  function PosLba(g: Geometry, dirs: seq<nat>, p: Pos): nat
    requires InDir(g, dirs, p)
  {
    g.DataLba(dirs[p.i], p.s)
  }

  function SlotIn(sec: Sector, j: nat): (s: Slot)
    requires j < 16
  {
    sec[32 * j..32 * j + 32]
  }

  /** The first slot from position `(i, s, j)` on that answers the query. */
  function Scan(g: Geometry, bad: set<nat>, d: Disk, dirs: seq<nat>, q: Query, i: nat, s: nat, j: nat): (r: Found)
    requires i <= |dirs| && s <= g.secPerClus && j <= 16
    ensures r.At? ==> InDir(g, dirs, r.pos) && !r.pos.Before(Pos(i, s, j))
    decreases |dirs| - i, g.secPerClus - s, 16 - j
  {
    if i == |dirs| then Missing
    else if s == g.secPerClus then Scan(g, bad, d, dirs, q, i + 1, 0, 0)
    else if j == 16 then Scan(g, bad, d, dirs, q, i, s + 1, 0)
    else
      match SectorAt(bad, d, g.DataLba(dirs[i], s))
      case None => IoError
      case Some(sec) =>
        var slot := SlotIn(sec, j);
        if Stops(q, slot) then Missing
        else if Hits(q, slot) then At(Pos(i, s, j))
        else Scan(g, bad, d, dirs, q, i, s, j + 1)
  }

  function ScanAll(g: Geometry, bad: set<nat>, d: Disk, dirs: seq<nat>, q: Query): (r: Found)
    ensures r.At? ==> InDir(g, dirs, r.pos)
  {
    Scan(g, bad, d, dirs, q, 0, 0, 0)
  }

  function SlotAt(g: Geometry, bad: set<nat>, d: Disk, dirs: seq<nat>, p: Pos): (r: Option<Slot>)
    requires InDir(g, dirs, p)
  {
    match SectorAt(bad, d, PosLba(g, dirs, p))
    case None => None
    case Some(sec) => Some(SlotIn(sec, p.j))
  }

  /** The disk after slot `p` of the directory is overwritten. */
  function PutSlot(g: Geometry, d: Disk, dirs: seq<nat>, p: Pos, s: Slot): (r: Disk)
    requires InDir(g, dirs, p)
    requires PosLba(g, dirs, p) < |d|
    ensures |r| == |d|
  {
    var lba := PosLba(g, dirs, p);
    d[lba := Patch(d[lba], 32 * p.j, s)]
  }

  ghost predicate GoodDir(g: Geometry, dirs: seq<nat>) {
    g.Valid() && NoDup(dirs) && forall i :: 0 <= i < |dirs| ==> 2 <= dirs[i] < g.Entries()
  }

  lemma ChainIsGoodDir(g: Geometry, t: seq<nat>, dirs: seq<nat>)
    requires g.Valid() && |t| == g.Entries() && IsChain(t, dirs)
    ensures GoodDir(g, dirs)
  {
    forall i, j | 0 <= i < j < |dirs|
      ensures dirs[i] != dirs[j]
    {
      ChainDistinct(t, dirs, i, j);
    }
  }

  /** Different positions of a directory are different places on the disk. */
  lemma PosLbaInjective(g: Geometry, dirs: seq<nat>, p: Pos, q: Pos)
    requires GoodDir(g, dirs) && InDir(g, dirs, p) && InDir(g, dirs, q)
    requires PosLba(g, dirs, p) == PosLba(g, dirs, q)
    ensures p.i == q.i && p.s == q.s
  {
    DataLbaExact(g, dirs[p.i], p.s);
    DataLbaExact(g, dirs[q.i], q.s);
    ClustersDisjoint(g, dirs[p.i], dirs[q.i], PosLba(g, dirs, p));
  }

  /** Overwriting one slot changes that slot of the directory and no other. */
  lemma PutSlotSlots(g: Geometry, bad: set<nat>, d: Disk, dirs: seq<nat>, p: Pos, s: Slot, q: Pos)
    requires GoodDir(g, dirs) && InDir(g, dirs, p) && InDir(g, dirs, q)
    requires PosLba(g, dirs, p) < |d| && PosLba(g, dirs, p) !in bad
    ensures SlotAt(g, bad, PutSlot(g, d, dirs, p, s), dirs, q) == if q == p then Some(s) else SlotAt(g, bad, d, dirs, q)
  {
    hide Geometry.DataLba, Geometry.Valid, GoodDir;
    if PosLba(g, dirs, p) == PosLba(g, dirs, q) {
      PosLbaInjective(g, dirs, p, q);
      if p.j != q.j {
        PatchElsewhere(d[PosLba(g, dirs, p)], 32 * p.j, s, 32 * q.j, 32 * q.j + 32);
      }
    }
  }

  /** The scan read slot by slot. */
  lemma ScanStep(g: Geometry, bad: set<nat>, d: Disk, dirs: seq<nat>, q: Query, p: Pos)
    requires InDir(g, dirs, p)
    ensures Scan(g, bad, d, dirs, q, p.i, p.s, p.j)
         == match SlotAt(g, bad, d, dirs, p)
            case None => IoError
            case Some(s) => if Stops(q, s) then Missing else if Hits(q, s) then At(p)
                            else Scan(g, bad, d, dirs, q, p.i, p.s, p.j + 1)
  {
  }

  /** Queries that the same slots answer and end find the same slot. */
  lemma {:induction false} ScanAlike(g: Geometry, bad: set<nat>, d: Disk, dirs: seq<nat>, q: Query, r: Query, i: nat, s: nat, j: nat)
    requires i <= |dirs| && s <= g.secPerClus && j <= 16
    requires forall x: Slot :: (Hits(q, x) <==> Hits(r, x)) && (Stops(q, x) <==> Stops(r, x))
    ensures Scan(g, bad, d, dirs, q, i, s, j) == Scan(g, bad, d, dirs, r, i, s, j)
    decreases |dirs| - i, g.secPerClus - s, 16 - j
  {
    hide Hits, Stops;
    if i < |dirs| {
      if s == g.secPerClus {
        ScanAlike(g, bad, d, dirs, q, r, i + 1, 0, 0);
      } else if j == 16 {
        ScanAlike(g, bad, d, dirs, q, r, i, s + 1, 0);
      } else {
        ScanAlike(g, bad, d, dirs, q, r, i, s, j + 1);
      }
    }
  }

  /** In every directory, components that differ in letter case at most find the same entry to read and the
      same entry to remove. */
  lemma ScansCaseBlind(g: Geometry, bad: set<nat>, d: Disk, dirs: seq<nat>, a: seq<byte>, b: seq<byte>)
    requires SameLetters(a, b)
    ensures ScanAll(g, bad, d, dirs, Named(a)) == ScanAll(g, bad, d, dirs, Named(b))
    ensures ScanAll(g, bad, d, dirs, Doomed(a)) == ScanAll(g, bad, d, dirs, Doomed(b))
  {
    forall x: Slot
      ensures (Hits(Named(a), x) <==> Hits(Named(b), x)) && (Hits(Doomed(a), x) <==> Hits(Doomed(b), x))
    {
      CaseBlind(a, b, x);
    }
    hide Hits, Scan, SameLetters;
    ScanAlike(g, bad, d, dirs, Named(a), Named(b), 0, 0, 0);
    ScanAlike(g, bad, d, dirs, Doomed(a), Doomed(b), 0, 0, 0);
  }

  /** The scan goes past slot `p`; it ends with slot `p` as its answer. */
  predicate Passes(g: Geometry, bad: set<nat>, d: Disk, dirs: seq<nat>, q: Query, p: Pos) {
    InDir(g, dirs, p)
    && match SlotAt(g, bad, d, dirs, p)
       case None => false
       case Some(s) => !Stops(q, s) && !Hits(q, s)
  }

  predicate Answers(g: Geometry, bad: set<nat>, d: Disk, dirs: seq<nat>, q: Query, p: Pos) {
    InDir(g, dirs, p)
    && match SlotAt(g, bad, d, dirs, p)
       case None => false
       case Some(s) => !Stops(q, s) && Hits(q, s)
  }

  /** What a successful scan says about every slot up to the hit. */
  lemma {:induction false} ScanHit(g: Geometry, bad: set<nat>, d: Disk, dirs: seq<nat>, q: Query, i: nat, s: nat, j: nat, p: Pos)
    requires i <= |dirs| && s <= g.secPerClus && j <= 16
    requires Scan(g, bad, d, dirs, q, i, s, j).At? && InDir(g, dirs, p) && !p.Before(Pos(i, s, j))
    ensures p.Before(Scan(g, bad, d, dirs, q, i, s, j).pos) ==> Passes(g, bad, d, dirs, q, p)
    ensures p == Scan(g, bad, d, dirs, q, i, s, j).pos ==> Answers(g, bad, d, dirs, q, p)
    decreases |dirs| - i, g.secPerClus - s, 16 - j
  {
    hide Stops, Hits, Geometry.DataLba;
    if s == g.secPerClus {
      ScanHit(g, bad, d, dirs, q, i + 1, 0, 0, p);
    } else if j == 16 {
      ScanHit(g, bad, d, dirs, q, i, s + 1, 0, p);
    } else {
      ScanStep(g, bad, d, dirs, q, Pos(i, s, j));
      if Scan(g, bad, d, dirs, q, i, s, j) != At(Pos(i, s, j)) && p != Pos(i, s, j) {
        ScanHit(g, bad, d, dirs, q, i, s, j + 1, p);
      }
    }
  }

  /** Lookups and removals never go past a slot whose first byte is zero: there the directory ends. */
  lemma EndsAtFree(g: Geometry, bad: set<nat>, d: Disk, dirs: seq<nat>, q: Query, p: Pos, x: Pos)
    requires !q.FreeSlot? && ScanAll(g, bad, d, dirs, q) == At(p) && InDir(g, dirs, x) && (x == p || x.Before(p))
    ensures SlotAt(g, bad, d, dirs, x).Some? && SlotAt(g, bad, d, dirs, x).value[0] != 0
  {
    hide Scan, SlotAt, Hits;
    ScanHit(g, bad, d, dirs, q, 0, 0, 0, x);
  }

  /** What was found, if it lies before `p`, else `p`. */
  function EarlierOr(was: Found, p: Pos): (r: Found) {
    if was.At? && was.pos.Before(p) then was else At(p)
  }

  /** Scans that agree on every slot before `stop`, where the second hits, find `stop` unless the
      first already found something earlier. */
  lemma {:induction false} ScanAgrees(g: Geometry, bad: set<nat>, d: Disk, d': Disk, dirs: seq<nat>, q: Query, stop: Pos,
                                      i: nat, s: nat, j: nat)
    requires i <= |dirs| && s <= g.secPerClus && j <= 16 && InDir(g, dirs, stop)
    requires !stop.Before(Pos(i, s, j))
    requires forall p: Pos :: InDir(g, dirs, p) && p.Before(stop) ==>
                                && SlotAt(g, bad, d', dirs, p) == SlotAt(g, bad, d, dirs, p)
                                && SlotAt(g, bad, d, dirs, p).Some?
                                && !Stops(q, SlotAt(g, bad, d, dirs, p).value)
    requires Answers(g, bad, d', dirs, q, stop)
    ensures Scan(g, bad, d', dirs, q, i, s, j) == EarlierOr(Scan(g, bad, d, dirs, q, i, s, j), stop)
    decreases |dirs| - i, g.secPerClus - s, 16 - j
  {
    hide Stops, Hits, Geometry.DataLba, SlotAt;
    if s == g.secPerClus {
      ScanAgrees(g, bad, d, d', dirs, q, stop, i + 1, 0, 0);
    } else if j == 16 {
      ScanAgrees(g, bad, d, d', dirs, q, stop, i, s + 1, 0);
    } else {
      var p := Pos(i, s, j);
      ScanStep(g, bad, d, dirs, q, p);
      ScanStep(g, bad, d', dirs, q, p);
      if p != stop {
        ScanAgrees(g, bad, d, d', dirs, q, stop, i, s, j + 1);
      }
    }
  }

  /** Slot `p` now holds `e`; every other slot of the directory is as before. */
  ghost predicate SlotsBecome(g: Geometry, bad: set<nat>, d: Disk, d': Disk, dirs: seq<nat>, p: Pos, e: Slot) {
    forall x: Pos :: InDir(g, dirs, x) ==>
                       SlotAt(g, bad, d', dirs, x) == if x == p then Some(e) else SlotAt(g, bad, d, dirs, x)
  }

  /** Writing an entry into the first free slot: the lookup then finds that entry exactly when it
      found nothing before the slot already. */
  lemma LookupAfterWrite(g: Geometry, bad: set<nat>, d: Disk, d': Disk, dirs: seq<nat>, p: Pos, e: Slot, comp: seq<byte>)
    requires ScanAll(g, bad, d, dirs, FreeSlot) == At(p) && SlotsBecome(g, bad, d, d', dirs, p, e)
    requires e[0] != FREE && Hits(Named(comp), e)
    ensures ScanAll(g, bad, d', dirs, Named(comp)) == EarlierOr(ScanAll(g, bad, d, dirs, Named(comp)), p)
  {
    hide Scan, SlotAt, ReaderMatches;
    forall x: Pos | InDir(g, dirs, x) && x.Before(p)
      ensures SlotAt(g, bad, d', dirs, x) == SlotAt(g, bad, d, dirs, x) && SlotAt(g, bad, d, dirs, x).Some?
      ensures !Stops(Named(comp), SlotAt(g, bad, d, dirs, x).value)
    {
      ScanHit(g, bad, d, dirs, FreeSlot, 0, 0, 0, x);
    }
    ScanAgrees(g, bad, d, d', dirs, Named(comp), p, 0, 0, 0);
  }
}
