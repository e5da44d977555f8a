/** Whole runs on a FAT32 volume: from formatting on, whatever is written and removed. */
module Fat32Session {
  import opened Bytes
  import opened Fat32Layout
  import opened Fat32Chain
  import opened Fat32File
  import opened Fat32Name
  import opened Fat32Dir
  import opened Fat32Owner
  import opened Fat32Volume
  import opened Fat32Files
  import opened Fat32Run
  import opened Fat32Format

  /** The device takes writes to every sector of the directory. */
  ghost predicate DirWritable(g: Geometry, stuck: set<nat>, dirs: seq<nat>) {
    forall p: Pos :: InDir(g, dirs, p) ==> PosLba(g, dirs, p) !in stuck
  }

  lemma WritableErasable(g: Geometry, bad: set<nat>, stuck: set<nat>, d: Disk, dirs: seq<nat>, comp: seq<byte>)
    requires DirWritable(g, stuck, dirs)
    ensures Erasable(g, bad, stuck, d, dirs, comp)
  {
    hide Scan, PosLba;
  }

  /** Serve one request through the two operations of the driver. */
  method ServeOne(v: Volume, dir: nat, r: Request, ghost dirs: seq<nat>, ghost heads: map<Pos, nat>) returns (ok: bool, ghost x: Done)
    requires DirOk(v, dirs, heads) && dirs[0] == dir && Proper(r)
    requires Spared(v.geo, v.bad, v.disk, dirs, Comp(r)) && Erasable(v.geo, v.bad, v.stuck, v.disk, dirs, Comp(r))
    modifies v
    ensures Served(v.geo, v.bad, v.stuck, dirs, old(v.disk), heads, r, x) && ok == x.ok && v.disk == x.after
    ensures old(Mirrored(v.geo, v.disk)) ==> Mirrored(v.geo, v.disk)
  {
    hide Orderly, Mirrored, Scan, SameFiles, Stored, Removed, SameDir, CanStore, Erasable, Spared, ShortName;
    match r {
      case Write(name, data) =>
        ghost var mid, rest, cs, e, now;
        ok, mid, rest, cs, e, now := WriteFile(v, dir, name, data, dirs, heads);
        x := Done(ok, mid, rest, v.disk, now, cs, e);
      case Remove(comp) =>
        ghost var rest;
        ok, rest := RemoveEntry(v, dir, comp, dirs, heads);
        SameFilesSelf(v.geo, v.disk, rest);
        x := Done(ok, v.disk, rest, v.disk, rest, [], Zeros(32));
    }
  }

  /** No request of the run can reach a dot entry. */
  ghost predicate AllSpared(g: Geometry, bad: set<nat>, d: Disk, dirs: seq<nat>, rs: seq<Request>) {
    (forall i :: 0 <= i < |rs| ==> SparesDots(Comp(rs[i]))) || NoDots(g, bad, d, dirs)
  }

  lemma SparedNext(g: Geometry, bad: set<nat>, stuck: set<nat>, dirs: seq<nat>, d: Disk, heads: map<Pos, nat>, rs: seq<Request>, i: nat, x: Done)
    requires i < |rs| && AllSpared(g, bad, d, dirs, rs) && Served(g, bad, stuck, dirs, d, heads, rs[i], x)
    ensures AllSpared(g, bad, x.after, dirs, rs)
  {
    hide Served, NoDots, AllAlike, SparesDots;
    ServedKeepsAlike(g, bad, stuck, dirs, d, heads, rs[i], x);
  }

  /** One more request served. */
  lemma RanNext(g: Geometry, bad: set<nat>, stuck: set<nat>, dirs: seq<nat>, d: Disk, heads: map<Pos, nat>, rs: seq<Request>, log: seq<Done>, r: Request, x: Done)
    requires Ran(g, bad, stuck, dirs, d, heads, rs, log)
    requires Served(g, bad, stuck, dirs, DiskAt(d, log, |log|), HeadsAt(heads, log, |log|), r, x)
    ensures Ran(g, bad, stuck, dirs, d, heads, rs + [r], log + [x])
  {
    hide Served, DiskAt, HeadsAt;
    var rs', log' := rs + [r], log + [x];
    forall i | 0 <= i < |rs'|
      ensures Served(g, bad, stuck, dirs, DiskAt(d, log', i), HeadsAt(heads, log', i), rs'[i], log'[i])
    {
      BeforeAppended(d, heads, log, x, i);
      if i < |rs| {
        assert rs'[i] == rs[i] && log'[i] == log[i];
      }
    }
  }

  lemma BeforeAppended(d: Disk, heads: map<Pos, nat>, log: seq<Done>, x: Done, i: nat)
    requires i <= |log|
    ensures DiskAt(d, log + [x], i) == DiskAt(d, log, i) && HeadsAt(heads, log + [x], i) == HeadsAt(heads, log, i)
  {
  }

  /** Serve every request in turn. The results are those of the run, and the invariant of the file
      operations and the equality of the FAT copies stand at its end. */
  method Serve(v: Volume, dir: nat, rs: seq<Request>, ghost dirs: seq<nat>, ghost heads: map<Pos, nat>)
    returns (oks: seq<bool>, ghost log: seq<Done>)
    requires DirOk(v, dirs, heads) && dirs[0] == dir && DirWritable(v.geo, v.stuck, dirs)
    requires AllSpared(v.geo, v.bad, v.disk, dirs, rs) && forall i :: 0 <= i < |rs| ==> Proper(rs[i])
    modifies v
    ensures Ran(v.geo, v.bad, v.stuck, dirs, old(v.disk), heads, rs, log) && v.disk == DiskAt(old(v.disk), log, |rs|)
    ensures |oks| == |rs| && forall i :: 0 <= i < |rs| ==> oks[i] == log[i].ok
    ensures DirOk(v, dirs, HeadsAt(heads, log, |rs|))
    ensures old(Mirrored(v.geo, v.disk)) ==> Mirrored(v.geo, v.disk)
  {
    hide Orderly, Mirrored, Served, Erasable, Spared, AllSpared, DirWritable, Proper, Ran;
    oks, log := [], [];
    OrderlyFats(v.geo, v.bad, v.stuck, v.disk, dirs, heads);
    RanNone(v.geo, v.bad, v.stuck, dirs, v.disk, heads);
    assert rs[..0] == [];
    var i := 0;
    while i < |rs|
      invariant i <= |rs| && |oks| == i == |log|
      invariant Ran(v.geo, v.bad, v.stuck, dirs, old(v.disk), heads, rs[..i], log) && v.disk == DiskAt(old(v.disk), log, i)
      invariant forall k :: 0 <= k < i ==> oks[k] == log[k].ok
      invariant DirOk(v, dirs, HeadsAt(heads, log, i)) && AllSpared(v.geo, v.bad, v.disk, dirs, rs)
      invariant HasFats(v.geo, old(v.disk)) && HasFats(v.geo, v.disk)
      invariant old(Mirrored(v.geo, v.disk)) ==> Mirrored(v.geo, v.disk)
    {
      ghost var d, was := v.disk, HeadsAt(heads, log, i);
      SparedAt(v.geo, v.bad, d, dirs, rs, i);
      WritableErasable(v.geo, v.bad, v.stuck, d, dirs, Comp(rs[i]));
      var ok;
      ghost var x;
      ok, x := ServeOne(v, dir, rs[i], dirs, was);
      ServedOrderly(v.geo, v.bad, v.stuck, dirs, d, was, rs[i], x);
      OrderlyFats(v.geo, v.bad, v.stuck, v.disk, dirs, x.now);
      SparedNext(v.geo, v.bad, v.stuck, dirs, d, was, rs, i, x);
      RanNext(v.geo, v.bad, v.stuck, dirs, old(v.disk), heads, rs[..i], log, rs[i], x);
      assert rs[..i + 1] == rs[..i] + [rs[i]];
      oks, log := oks + [ok], log + [x];
      i := i + 1;
    }
    assert rs[..i] == rs;
  }

  lemma RanNone(g: Geometry, bad: set<nat>, stuck: set<nat>, dirs: seq<nat>, d: Disk, heads: map<Pos, nat>)
    ensures Ran(g, bad, stuck, dirs, d, heads, [], [])
  {
  }

  lemma SparedAt(g: Geometry, bad: set<nat>, d: Disk, dirs: seq<nat>, rs: seq<Request>, i: nat)
    requires i < |rs| && AllSpared(g, bad, d, dirs, rs)
    ensures Spared(g, bad, d, dirs, Comp(rs[i]))
  {
    hide NoDots, SparesDots;
  }

  lemma OrderlyFats(g: Geometry, bad: set<nat>, stuck: set<nat>, d: Disk, dirs: seq<nat>, heads: map<Pos, nat>)
    requires Orderly(g, bad, stuck, d, dirs, heads)
    ensures HasFats(g, d) && dirs != []
  {
    hide FatCopy, HeadsOf, Apart, Sound, FatsSpared;
  }

  lemma ServedOrderly(g: Geometry, bad: set<nat>, stuck: set<nat>, dirs: seq<nat>, d: Disk, heads: map<Pos, nat>, r: Request, x: Done)
    requires Served(g, bad, stuck, dirs, d, heads, r, x)
    ensures Orderly(g, bad, stuck, x.after, dirs, x.now)
  {
    hide Orderly, SameFiles, Removed, Stored, SameDir, CanStore, ShortName, Scan, Fat;
  }

  /** From an unformatted device on: format it, mount it and serve requests in the root. Afterwards every
      fitting name reads as what was last written under it, unless a later request removed it by a
      prefix or wrote an entry that answers to it. */
  method FormatAndServe(d: Disk, bad: set<nat>, stuck: set<nat>, rs: seq<Request>)
    returns (v: Option<Volume>, oks: seq<bool>, ghost f: nat, ghost out: Disk, ghost log: seq<Done>)
    requires |d| < 0x1000_0000 && forall i :: 0 <= i < |rs| ==> Proper(rs[i])
    ensures |d| >= 35 ==> SizeLow(|d| - 32) <= f <= SizeHigh(|d| - 32)
    ensures v.Some? <==> |d| >= 35 && Formattable(bad + stuck, f)
    ensures v.Some? ==>
              && fresh(v.value) && v.value.geo == FormatGeometry(f) && v.value.bad == bad && v.value.stuck == stuck
              && IsFormatted(out, f) && Ran(FormatGeometry(f), bad, stuck, [2], out, map[], rs, log)
              && |oks| == |rs| && (forall i :: 0 <= i < |rs| ==> oks[i] == log[i].ok)
              && v.value.disk == DiskAt(out, log, |rs|)
              && DirOk(v.value, [2], HeadsAt(map[], log, |rs|)) && Mirrored(v.value.geo, v.value.disk)
              && 1 <= v.value.geo.secPerClus && ReadsBack(v.value.geo, bad, v.value.disk, rs, log)
  {
    hide Served, Orderly, Mirrored, Formattable, IsFormatted, SizeLow, SizeHigh, FormatGeometry, ReadsBack, Proper, AllSpared, DirWritable;
    v, oks, log := None, [], [];
    var ok, disk, size := Format(d, bad + stuck);
    f, out := size, disk;
    if ok {
      var g := Mount(disk[0]).value;
      FormattedReady(disk, f, bad, stuck, rs);
      var volume := new Volume(g, bad, stuck, disk);
      oks, log := Serve(volume, 2, rs, [2], map[]);
      AllReadBack(g, bad, stuck, disk, rs, log);
      v := Some(volume);
    }
  }

  /** A formatted volume meets what serving asks for. */
  lemma FormattedReady(d: Disk, f: nat, bad: set<nat>, stuck: set<nat>, rs: seq<Request>)
    requires IsFormatted(d, f) && Formattable(bad + stuck, f)
    ensures var g := FormatGeometry(f);
            && HasFats(g, d) && FatsSpared(g, bad) && FatsSpared(g, stuck) && Sound(Fat(g, d))
            && Orderly(g, bad, stuck, d, [2], map[]) && Mirrored(g, d) && AllAlike(g, bad, d, [2])
            && AllSpared(g, bad, d, [2], rs) && DirWritable(g, stuck, [2])
  {
    FormattedUsable(bad + stuck, bad, f);
    FormattedUsable(bad + stuck, stuck, f);
    FormattedIsEmpty(d, f, bad);
    DataLbaExact(FormatGeometry(f), 2, 0);
    hide FatCopy, IsFormatted, HeadsOf, Apart, IsChain, NoDots, AllAlike, Sound, Mirrored, FatsSpared, Geometry.DataLba, Scan;
  }

  /** Every last write of a fitting name that nothing later answers to reads back. */
  ghost predicate ReadsBack(g: Geometry, bad: set<nat>, end: Disk, rs: seq<Request>, log: seq<Done>)
    requires 1 <= g.secPerClus
  {
    forall k: nat :: LastWrite(rs, log, k) && FitsShort(rs[k].name) && NoRival(rs, k + 1, |rs|, rs[k].name) ==>
                       GetSpec(g, bad, end, [2], rs[k].name) == Seen(rs[k].data)
  }

  lemma AllReadBack(g: Geometry, bad: set<nat>, stuck: set<nat>, d: Disk, rs: seq<Request>, log: seq<Done>)
    requires Ran(g, bad, stuck, [2], d, map[], rs, log) && AllAlike(g, bad, d, [2]) && 1 <= g.secPerClus
    ensures ReadsBack(g, bad, DiskAt(d, log, |rs|), rs, log)
  {
    hide Ran, AllAlike, NoRemoval, FitsShort, NoRival, GetSpec;
    forall k: nat | LastWrite(rs, log, k) && FitsShort(rs[k].name) && NoRival(rs, k + 1, |rs|, rs[k].name)
      ensures GetSpec(g, bad, DiskAt(d, log, |rs|), [2], rs[k].name) == Seen(rs[k].data)
    {
      LastWriteRead(g, bad, stuck, [2], d, map[], rs, log, k);
    }
  }
}
