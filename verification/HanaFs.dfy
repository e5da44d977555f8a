/** HanaFS operations on the list of entries and the persistence area of the disk. */
module HanaFs {
  import opened Bytes
  import opened HanaPath
  import opened HanaModel
  import opened HanaImage

  /** "/hcsh_history", which is rewritten too often to be persisted. */
  const HISTORY: CString := [47, 104, 99, 115, 104, 95, 104, 105, 115, 116, 111, 114, 121]

  /** Disk before and after an attempt to persist: sectors outside the area stay, and when every sector
      needed can be written the area holds the entries. */
  ghost predicate Persisted(was: Disk, disk: Disk, bad: set<nat>, es: seq<Entry>)
    requires Saveable(es)
  {
    var n := SectorCount(|Blob(es)|);
    && |disk| == |was|
    && (forall s :: 0 <= s < |was| && !(PERSIST_LBA <= s < PERSIST_LBA + n) ==> disk[s] == was[s])
    && (Readable(was, bad, |Blob(es)|) ==> Saved(disk, Blob(es)))
  }

  lemma {:induction false} DirectoriesLength(es: seq<Entry>)
    requires forall i :: 0 <= i < |es| ==> |es[i].path| <= MAX_PATH && es[i].data == []
    ensures AllStorable(es) && |Records(es)| <= 518 * |es|
  {
    if es != [] {
      DirectoriesLength(es[1..]);
    }
  }

  ghost predicate FewDirectories(es: seq<Entry>, n: nat) {
    |es| <= n && forall i :: 0 <= i < |es| ==> |es[i].path| <= MAX_PATH && es[i].data == []
  }

  /** A few directories always fit, one more included. */
  lemma OneMoreDirectory(es: seq<Entry>, n: nat, p: CString)
    requires FewDirectories(es, n) && n <= 4
    ensures FewDirectories(Apply(es, HanaModel.MakeDir(p)), n + 1) && Saveable(Apply(es, HanaModel.MakeDir(p)))
  {
    hide Internal, Wanted, First;
    DirectoriesLength(Apply(es, HanaModel.MakeDir(p)));
  }

  lemma InitialStep(i: nat)
    requires i < 4
    ensures InitialOps()[i] == HanaModel.MakeDir(TOP[i])
    ensures Run([ROOT_ENTRY], InitialOps()[..i + 1]) == Apply(Run([ROOT_ENTRY], InitialOps()[..i]), HanaModel.MakeDir(TOP[i]))
  {
    RunStep([ROOT_ENTRY], InitialOps(), i);
    hide Run, Apply;
  }

  lemma InitialRefines()
    ensures InitialOps()[..4] == InitialOps() && Run([ROOT_ENTRY], []) == [ROOT_ENTRY]
    ensures Refines(Run([ROOT_ENTRY], InitialOps()), RunMap(map[ROOT := Dir], InitialOps()))
  {
    RootRefines();
    RunRefines([ROOT_ENTRY], map[ROOT := Dir], InitialOps());
  }

  /** What is there after the initialisation: the root and the four top directories, and nothing else. */
  lemma InitialTree(key: CString)
    ensures var m := RunMap(map[ROOT := Dir], InitialOps());
            (key in m <==> key == ROOT || key in TOP) && (key in m ==> m[key] == Dir)
  {
    hide Internal, RunMap;
    var ops := InitialOps();
    DirsMade(map[ROOT := Dir], ops, key);
    forall i | 0 <= i < 4
      ensures Internal(ops[i].path) == TOP[i]
    {
      TopStored(i);
    }
    hide InitialOps;
    SamePaths(ops, TOP, key);
  }

  lemma TopStored(i: nat)
    requires i < 4
    ensures InitialOps()[i].path == TOP[i] && Internal(TOP[i]) == TOP[i]
  {
    hide Internal;
    InternalFixed(TOP[i]);
  }

  lemma SamePaths(ops: seq<Op>, paths: seq<CString>, key: CString)
    requires |ops| == |paths| && forall i :: 0 <= i < |ops| ==> Internal(ops[i].path) == paths[i]
    ensures (exists i :: 0 <= i < |ops| && Internal(ops[i].path) == key) <==> key in paths
  {
    hide Internal;
    assert forall i :: 0 <= i < |paths| ==> Internal(ops[i].path) == paths[i] && paths[i] in paths;
  }

  /** Making directories adds exactly their paths, and leaves what is there. */
  lemma {:induction false} DirsMade(m: Tree, ops: seq<Op>, key: CString)
    requires forall i :: 0 <= i < |ops| ==> ops[i].MakeDir?
    ensures key in RunMap(m, ops) <==> key in m || exists i :: 0 <= i < |ops| && Internal(ops[i].path) == key
    ensures key in RunMap(m, ops) ==> RunMap(m, ops)[key] == if key in m then m[key] else Dir
  {
    hide Internal;
    if ops != [] {
      var n := |ops| - 1;
      DirsMade(m, ops[..n], key);
      assert forall i :: 0 <= i < n ==> ops[..n][i] == ops[i];
      assert RunMap(m, ops) == ApplyMap(RunMap(m, ops[..n]), ops[n]);
      hide RunMap;
    }
  }

  class Store {
    const bad: set<nat>
    var entries: seq<Entry>
    var disk: Disk
    var persistEnabled: bool

    constructor (disk: Disk, bad: set<nat>)
      ensures entries == [] && this.disk == disk && this.bad == bad && persistEnabled
    {
      this.bad, this.entries, this.disk, this.persistEnabled := bad, [], disk, true;
    }

    method FindFirst(wanted: set<CString>) returns (i: nat)
      ensures i == First(entries, wanted)
    {
      i := 0;
      while i < |entries| && entries[i].path !in wanted
        invariant i <= |entries| && forall k :: 0 <= k < i ==> entries[k].path !in wanted
      {
        i := i + 1;
      }
      FirstIs(entries, wanted, i);
    }

    /** The saved form of the list. */
    method Serialize() returns (buf: seq<byte>)
      requires Saveable(entries)
      ensures buf == Blob(entries)
    {
      var payload := 0;
      var i := 0;
      buf := [];
      while i < |entries|
        invariant i <= |entries| && AllStorable(entries[..i])
        invariant buf == Records(entries[..i]) && payload == |buf|
      {
        var e := entries[i];
        assert entries[..i + 1] == entries[..i] + [e];
        RecordsAppend(entries[..i], e);
        payload := payload + 7 + |e.path| + |e.data|;
        buf := buf + RecordHead(e) + e.path + e.data;
        assert buf == Records(entries[..i]) + Record(e);
        i := i + 1;
      }
      assert entries[..i] == entries;
      buf := Header(|entries|, payload) + buf;
    }

    /** Writes a blob sector by sector, stopping at the first sector that cannot be written. */
    method WriteArea(blob: seq<byte>) returns (ok: bool)
      requires blob != []
      modifies this`disk
      ensures |disk| == |old(disk)|
      ensures forall s :: 0 <= s < |disk| && !(PERSIST_LBA <= s < PERSIST_LBA + SectorCount(|blob|)) ==> disk[s] == old(disk)[s]
      ensures ok == Readable(disk, bad, |blob|)
      ensures ok ==> Saved(disk, blob)
    {
      var k := 0;
      var written := 0;
      while written < |blob|
        invariant k <= SectorCount(|blob|) && written == Min(SECTOR * k, |blob|)
        invariant |disk| == |old(disk)|
        invariant k > 0 ==> PERSIST_LBA + k <= |disk|
        invariant forall s :: PERSIST_LBA <= s < PERSIST_LBA + k ==> s !in bad
        invariant forall s :: 0 <= s < |disk| && !(PERSIST_LBA <= s < PERSIST_LBA + k) ==> disk[s] == old(disk)[s]
        invariant forall s :: PERSIST_LBA <= s < PERSIST_LBA + k ==> disk[s] == SectorOf(blob, s - PERSIST_LBA)
      {
        var lba := PERSIST_LBA + k;
        if lba >= |disk| || lba in bad {
          return false;
        }
        var toCopy := Min(|blob| - written, SECTOR);
        var buf := blob[written..written + toCopy] + Zeros(SECTOR - toCopy);
        assert buf == SectorOf(blob, k);
        disk := disk[lba := buf];
        written := written + toCopy;
        k := k + 1;
      }
      assert k == SectorCount(|blob|);
      ok := true;
    }
  
    method Persist() returns (ok: bool)
      requires Saveable(entries)
      modifies this`disk
      ensures Persisted(old(disk), disk, bad, entries)
      ensures ok == Readable(old(disk), bad, |Blob(entries)|)
    {
      var buf := Serialize();
      hide Saveable, Blob, Saved;
      ok := WriteArea(buf);
    }

    /** Whether a write to this path is persisted. */
    predicate Persists(path: CString)
      reads this
    {
      Internal(path) != HISTORY && persistEnabled
    }

    /** Replaces whatever the path stands for. */
    method WriteFile(path: CString, data: seq<byte>) returns (ok: bool)
      requires Persists(path) ==> Saveable(Apply(entries, Write(path, data)))
      modifies this`entries, this`disk
      ensures ok && entries == Apply(old(entries), Write(path, data))
      ensures if old(persistEnabled) && Internal(path) != HISTORY then Persisted(old(disk), disk, bad, entries) else disk == old(disk)
    {
      var ipath, plain, drive := Resolve(path);
      var i := FindFirst({ipath});
      entries := Without(entries, i);
      entries := [Entry(ipath, false, data)] + entries;
      if ipath != HISTORY && persistEnabled {
        var saved := Persist();
      }
      ok := true;
    }

    method CreateFile(path: CString) returns (ok: bool)
      requires Persists(path) ==> Saveable(Apply(entries, Write(path, [])))
      modifies this`entries, this`disk
      ensures ok && entries == Apply(old(entries), Write(path, []))
      ensures if old(persistEnabled) && Internal(path) != HISTORY then Persisted(old(disk), disk, bad, entries) else disk == old(disk)
    {
      ok := WriteFile(path, []);
    }

    method Unlink(path: CString) returns (ok: bool)
      requires Saveable(Apply(entries, HanaModel.Unlink(path)))
      modifies this`entries, this`disk
      ensures entries == Apply(old(entries), HanaModel.Unlink(path)) && ok == Succeeds(old(entries), HanaModel.Unlink(path))
      ensures if ok then Persisted(old(disk), disk, bad, entries) else disk == old(disk)
    {
      var ipath, plain, drive := Resolve(path);
      var i := FindFirst(if drive < 0 then {ipath, plain} else {ipath});
      ok := i < |entries|;
      if ok {
        entries := Without(entries, i);
        var saved := Persist();
      }
    }

    method MakeDir(path: CString) returns (ok: bool)
      requires Saveable(Apply(entries, HanaModel.MakeDir(path)))
      modifies this`entries, this`disk
      ensures entries == Apply(old(entries), HanaModel.MakeDir(path)) && ok == Succeeds(old(entries), HanaModel.MakeDir(path))
      ensures if ok then Persisted(old(disk), disk, bad, entries) else disk == old(disk)
    {
      var ipath, plain, drive := Resolve(path);
      var i := FindFirst(if drive < 0 then {ipath, plain} else {ipath});
      ok := i == |entries|;
      if ok {
        entries := [Entry(ipath, true, [])] + entries;
        var saved := Persist();
      }
    }

    /** A copy of the file's bytes; nothing for a directory or a path that stands for nothing. */
    method GetFile(path: CString) returns (r: Option<seq<byte>>)
      ensures r == match Find(entries, Internal(path))
                   case Some(File(d)) => Some(d)
                   case _ => None
    {
      var ipath, plain, drive := Resolve(path);
      var i := FindFirst({ipath});
      if i == |entries| || entries[i].isDir {
        return None;
      }
      r := Some(entries[i].data);
    }

    /** A root and four directories, unless there is something already. */
    method Init()
      modifies this`entries, this`disk
      ensures old(entries) != [] ==> entries == old(entries) && disk == old(disk)
      ensures old(entries) == [] ==>
                && entries == Run([ROOT_ENTRY], InitialOps())
                && Refines(entries, RunMap(map[ROOT := Dir], InitialOps()))
    {
      if entries != [] {
        return;
      }
      hide Run, RunMap, Apply, InitialOps, Refines, Saveable, Persisted;
      entries := [ROOT_ENTRY];
      InitialRefines();
      assert InitialOps()[..0] == [];
      var i := 0;
      while i < 4
        invariant 0 <= i <= 4 <= |InitialOps()| && entries == Run([ROOT_ENTRY], InitialOps()[..i])
        invariant FewDirectories(entries, i + 1)
      {
        InitialStep(i);
        OneMoreDirectory(entries, i + 1, TOP[i]);
        var made := MakeDir(TOP[i]);
        i := i + 1;
      }
    }
  
    /** The first `total` bytes of the persistence area, unless a sector cannot be read. */
    method ReadArea(total: nat) returns (ok: bool, buf: seq<byte>)
      requires Readable(disk, bad, 1) && total >= 16
      ensures ok == Readable(disk, bad, total)
      ensures ok ==> buf == AreaBytes(disk, total)
    {
      buf := disk[PERSIST_LBA][..Min(SECTOR, total)];
      var k := 1;
      while |buf| < total
        invariant 1 <= k <= SectorCount(total) && |buf| == Min(SECTOR * k, total)
        invariant PERSIST_LBA + k <= |disk| && forall s :: PERSIST_LBA <= s < PERSIST_LBA + k ==> s !in bad
        invariant forall i :: 0 <= i < |buf| ==> buf[i] == disk[PERSIST_LBA + i / SECTOR][i % SECTOR]
      {
        var lba := PERSIST_LBA + k;
        if lba >= |disk| || lba in bad {
          return false, [];
        }
        var toCopy := Min(total - |buf|, SECTOR);
        buf := buf + disk[lba][..toCopy];
        k := k + 1;
      }
      ok := true;
    }

    /** Rebuilds the list from the records, each in front of the ones before it. */
    method Rebuild(buf: seq<byte>, count: nat)
      requires Parse(buf, 16, count, [ROOT_ENTRY]).Some?
      modifies this`entries
      ensures entries == Parse(buf, 16, count, [ROOT_ENTRY]).value
    {
      entries := [ROOT_ENTRY];
      var pos := 16;
      var ei := 0;
      while ei < count
        invariant ei <= count && Parse(buf, 16, count, [ROOT_ENTRY]) == Parse(buf, pos, count - ei, entries)
      {
        var r := ReadRecord(buf, pos);
        if r.Stop? {
          return;
        }
        entries := [r.entry] + entries;
        pos := r.next;
        ei := ei + 1;
      }
    }

    /** Loading changes nothing unless the area has the magic and can be read to its end. */
    method LoadFromAta() returns (ok: bool)
      requires Load(disk, bad) != Undefined
      modifies this`entries
      ensures match Load(disk, bad)
              case Loaded(es) => ok && entries == es
              case _ => !ok && entries == old(entries)
    {
      if PERSIST_LBA >= |disk| || PERSIST_LBA in bad {
        return false;
      }
      var first := disk[PERSIST_LBA];
      if first[..4] != MAGIC {
        return false;
      }
      var count := Word32(first[8..12]);
      var total := 16 + Word32(first[12..16]);
      hide Parse, AreaBytes, Word32;
      var read, buf := ReadArea(total);
      if !read {
        return false;
      }
      Rebuild(buf, count);
      ok := true;
    }
  }
}
