/** The saved form of HanaFS: records, sectors, what loading them gives, and that saving and loading
    keeps every lookup. */
module HanaImage {
  import opened Bytes
  import opened HanaPath
  import opened HanaModel

  const PERSIST_LBA: nat := 2048
  const MAGIC: seq<byte> := [72, 65, 78, 65]

  /** Lengths that fit their fields. */
  predicate Storable(e: Entry) {
    |e.path| < 0x10000 && |e.data| < TWO32 && (e.isDir ==> e.data == [])
  }

  predicate AllStorable(es: seq<Entry>) {
    forall i :: 0 <= i < |es| ==> Storable(es[i])
  }

  function RecordHead(e: Entry): (r: seq<byte>)
    requires Storable(e)
    ensures |r| == 7
  {
    [|e.path| % 256, |e.path| / 256, if e.isDir then 1 else 0] + Le32(|e.data|)
  }

  function Record(e: Entry): (r: seq<byte>)
    requires Storable(e)
    ensures |r| == 7 + |e.path| + |e.data|
  {
    RecordHead(e) + e.path + e.data
  }

  function Records(es: seq<Entry>): (r: seq<byte>)
    requires AllStorable(es)
  {
    if es == [] then [] else Record(es[0]) + Records(es[1..])
  }

  lemma {:induction false} RecordsAppend(es: seq<Entry>, e: Entry)
    requires AllStorable(es) && Storable(e)
    ensures AllStorable(es + [e]) && Records(es + [e]) == Records(es) + Record(e)
  {
    hide Record, Storable;
    if es == [] {
      assert es + [e] == [e];
      assert Records([e]) == Record(e) + Records([]);
    } else {
      assert (es + [e])[1..] == es[1..] + [e];
      RecordsAppend(es[1..], e);
    }
  }

  /** The lengths and the count fit the header. */
  ghost predicate Saveable(es: seq<Entry>) {
    AllStorable(es) && |es| < TWO32 && |Records(es)| < TWO32
  }

  function Header(count: nat, payload: nat): (r: seq<byte>)
    requires count < TWO32 && payload < TWO32
    ensures |r| == 16
  {
    MAGIC + Le32(1) + Le32(count) + Le32(payload)
  }

  ghost function Blob(es: seq<Entry>): (r: seq<byte>)
    requires Saveable(es)
    ensures |r| == 16 + |Records(es)|
  {
    Header(|es|, |Records(es)|) + Records(es)
  }

  /** The saved form starts with "HANA", version 1, the number of entries and the number of bytes behind. */
  lemma BlobStart(es: seq<Entry>)
    requires Saveable(es)
    ensures var b := Blob(es);
            && b[..4] == [72, 65, 78, 65] && LittleEndian(b[4..8]) == 1
            && LittleEndian(b[8..12]) == |es| && LittleEndian(b[12..16]) == |b| - 16
  {
    var b := Blob(es);
    var n := |Records(es)|;
    hide Records, Le32, Word32, LittleEndian;
    assert b[4..8] == Le32(1) && b[8..12] == Le32(|es|) && b[12..16] == Le32(n);
    LittleEndianOfLe32(1);
    LittleEndianOfLe32(|es|);
    LittleEndianOfLe32(n);
  }

  // --- Parsing --------------------------------------------------------------------------------

  /** One record: missing, running past the end of the buffer, or read with the place after it. */
  datatype Parsed = Stop | Overrun | Got(entry: Entry, next: nat)

  function ReadRecord(buf: seq<byte>, pos: nat): (r: Parsed)
    ensures r.Got? ==> r.next <= |buf|
  {
    if pos + 7 > |buf| then Stop
    else
      var plen := (buf[pos] as int) + 256 * (buf[pos + 1] as int);
      var dlen := Word32(buf[pos + 3..pos + 7]);
      var p := pos + 7;
      if p + plen > |buf| then Stop
      else
        var path := UpTo(buf[p..p + plen], 0);
        if buf[pos + 2] != 0 then Got(Entry(path, true, []), p + plen)
        else if p + plen + dlen > |buf| then Overrun
        else Got(Entry(path, false, buf[p + plen..p + plen + dlen]), p + plen + dlen)
  }

  /** `count` records from `pos` on, each put in front of what is there; none if one runs past the end. */
  function Parse(buf: seq<byte>, pos: nat, count: nat, es: seq<Entry>): (r: Option<seq<Entry>>)
    decreases count
  {
    if count == 0 then Some(es)
    else match ReadRecord(buf, pos)
      case Stop => Some(es)
      case Overrun => None
      case Got(e, next) => Parse(buf, next, count - 1, [e] + es)
  }

  lemma RecordFields(buf: seq<byte>, pos: nat, e: Entry)
    requires Storable(e) && pos + |Record(e)| <= |buf| && buf[pos..pos + |Record(e)|] == Record(e)
    ensures var n := |e.path|;
            && (buf[pos] as int) + 256 * (buf[pos + 1] as int) == n && (buf[pos + 2] != 0 <==> e.isDir)
            && Word32(buf[pos + 3..pos + 7]) == |e.data|
            && buf[pos + 7..pos + 7 + n] == e.path && buf[pos + 7 + n..pos + 7 + n + |e.data|] == e.data
  {
    var r := Record(e);
    var n := |e.path|;
    assert r[3..7] == Le32(|e.data|) && r[7..7 + n] == e.path && r[7 + n..] == e.data;
    assert r[0] == n % 256 && r[1] == n / 256 && r[2] == if e.isDir then 1 else 0;
    Word32OfLe32(|e.data|);
    hide Record, RecordHead, Le32, Word32;
    assert buf[pos] == r[0] && buf[pos + 1] == r[1] && buf[pos + 2] == r[2];
    SubSlice(buf, pos, pos + |r|, 3, 7);
    SubSlice(buf, pos, pos + |r|, 7, 7 + n);
    SubSlice(buf, pos, pos + |r|, 7 + n, |r|);
  }

  lemma RecordReadsBack(buf: seq<byte>, pos: nat, e: Entry)
    requires Storable(e) && pos + |Record(e)| <= |buf| && buf[pos..pos + |Record(e)|] == Record(e)
    ensures ReadRecord(buf, pos) == Got(e, pos + |Record(e)|)
  {
    RecordFields(buf, pos, e);
    UpToAll(e.path, [], 0);
    assert e.path + [] == e.path;
    hide Record, UpTo, Word32;
  }

  lemma ParseNothing(buf: seq<byte>, pos: nat, es: seq<Entry>)
    ensures Parse(buf, pos, 0, es) == Some(es)
  {
  }

  lemma ParseStep(buf: seq<byte>, pos: nat, count: nat, es: seq<Entry>, e: Entry, next: nat)
    requires count > 0 && ReadRecord(buf, pos) == Got(e, next)
    ensures Parse(buf, pos, count, es) == Parse(buf, next, count - 1, [e] + es)
  {
    hide ReadRecord;
  }

  /** Parsing what was saved gives the entries in reverse. */
  lemma {:induction false} ParseRecords(buf: seq<byte>, pos: nat, es: seq<Entry>, acc: seq<Entry>)
    requires AllStorable(es) && pos <= |buf| && buf[pos..] == Records(es)
    ensures Parse(buf, pos, |es|, acc) == Some(Reversed(es) + acc)
    decreases |es|
  {
    hide ReadRecord, Storable, Record, Parse;
    if es == [] {
      ParseNothing(buf, pos, acc);
      assert Reversed(es) + acc == acc;
      return;
    }
    var n := |Record(es[0])|;
    RecordsFirst(buf, pos, es);
    hide Records, Reversed;
    RecordReadsBack(buf, pos, es[0]);
    ParseStep(buf, pos, |es|, acc, es[0], pos + n);
    ParseRecords(buf, pos + n, es[1..], [es[0]] + acc);
    RevFirst(es, acc);
  }

  lemma RevFirst(es: seq<Entry>, acc: seq<Entry>)
    requires es != []
    ensures Reversed(es[1..]) + ([es[0]] + acc) == Reversed(es) + acc
  {
    var t, f := Reversed(es[1..]), [es[0]];
    assert t + (f + acc) == t + f + acc;
  }

  lemma RecordsFirst(buf: seq<byte>, pos: nat, es: seq<Entry>)
    requires AllStorable(es) && es != [] && pos <= |buf| && buf[pos..] == Records(es)
    ensures var n := |Record(es[0])|;
            pos + n <= |buf| && buf[pos..pos + n] == Record(es[0]) && buf[pos + n..] == Records(es[1..])
  {
    var n := |Record(es[0])|;
    var rest := Records(es[1..]);
    assert Records(es) == Record(es[0]) + rest;
    hide Record, Records;
    assert buf[pos..pos + n] == buf[pos..][..n];
    assert buf[pos + n..] == buf[pos..][n..];
  }

  // --- Sectors --------------------------------------------------------------------------------

  function SectorCount(n: nat): (k: nat) {
    (n + SECTOR - 1) / SECTOR
  }

  /** Sector `i` of a blob, the last one filled up with zeros. */
  function SectorOf(blob: seq<byte>, i: nat): (s: Sector) {
    seq(SECTOR, j requires 0 <= j < SECTOR => if SECTOR * i + j < |blob| then blob[SECTOR * i + j] else 0)
  }

  ghost predicate Saved(disk: Disk, blob: seq<byte>) {
    && PERSIST_LBA + SectorCount(|blob|) <= |disk|
    && forall i :: 0 <= i < SectorCount(|blob|) ==> disk[PERSIST_LBA + i] == SectorOf(blob, i)
  }

  /** The first `total` bytes of the persistence area. */
  function AreaBytes(disk: Disk, total: nat): (r: seq<byte>)
    requires PERSIST_LBA + SectorCount(total) <= |disk|
    ensures |r| == total
  {
    seq(total, i requires 0 <= i < total => disk[PERSIST_LBA + i / SECTOR][i % SECTOR])
  }

  lemma SavedBytes(disk: Disk, blob: seq<byte>)
    requires Saved(disk, blob)
    ensures AreaBytes(disk, |blob|) == blob
  {
    forall i | 0 <= i < |blob|
      ensures AreaBytes(disk, |blob|)[i] == blob[i]
    {
      var k := i / SECTOR;
      assert k < SectorCount(|blob|) && SECTOR * k + i % SECTOR == i;
      assert disk[PERSIST_LBA + k] == SectorOf(blob, k);
    }
  }

  // --- Loading --------------------------------------------------------------------------------

  /** Every sector of the area that holds `total` bytes can be read. */
  ghost predicate Readable(disk: Disk, bad: set<nat>, total: nat) {
    && PERSIST_LBA + SectorCount(total) <= |disk|
    && forall s :: PERSIST_LBA <= s < PERSIST_LBA + SectorCount(total) ==> s !in bad
  }

  /** Loading fails and changes nothing, runs past its buffer, or replaces the entries. */
  datatype Outcome = Failed | Undefined | Loaded(entries: seq<Entry>)

  ghost function Load(disk: Disk, bad: set<nat>): (r: Outcome) {
    if !Readable(disk, bad, 1) then Failed
    else
      var first := disk[PERSIST_LBA];
      if first[..4] != MAGIC then Failed
      else
        var total := 16 + Word32(first[12..16]);
        if !Readable(disk, bad, total) then Failed
        else match Parse(AreaBytes(disk, total), 16, Word32(first[8..12]), [ROOT_ENTRY])
          case None => Undefined
          case Some(es) => Loaded(es)
  }

  lemma HeaderFields(es: seq<Entry>)
    requires Saveable(es)
    ensures var b := Blob(es);
            && b[..4] == MAGIC && b[8..12] == Le32(|es|) && b[12..16] == Le32(|Records(es)|) && b[16..] == Records(es)
  {
  }

  lemma SectorCountMonotone(a: nat, b: nat)
    requires a <= b
    ensures SectorCount(a) <= SectorCount(b)
  {
  }

  lemma ReadableLess(disk: Disk, bad: set<nat>, a: nat, b: nat)
    requires a <= b && Readable(disk, bad, b)
    ensures Readable(disk, bad, a)
  {
    SectorCountMonotone(a, b);
    hide SectorCount;
  }

  /** What loading sees in the first sector of a saved list. */
  lemma FirstSector(disk: Disk, es: seq<Entry>)
    requires Saveable(es) && Saved(disk, Blob(es))
    ensures PERSIST_LBA < |disk|
    ensures var first := disk[PERSIST_LBA];
            first[..4] == MAGIC && Word32(first[8..12]) == |es| && Word32(first[12..16]) == |Records(es)|
  {
    var b := Blob(es);
    HeaderFields(es);
    SectorCountMonotone(1, |b|);
    hide Blob, Records, Le32, Word32, SectorCount;
    assert disk[PERSIST_LBA + 0] == SectorOf(b, 0);
    var first := disk[PERSIST_LBA];
    assert forall i :: 0 <= i < 16 ==> first[i] == b[i];
    assert first[..4] == b[..4] && first[8..12] == b[8..12] && first[12..16] == b[12..16];
    Word32OfLe32(|es|);
    Word32OfLe32(|Records(es)|);
  }

  /** Loading a saved list gives it reversed, followed by a fresh root. */
  lemma LoadSaved(disk: Disk, bad: set<nat>, es: seq<Entry>)
    requires Saveable(es) && Saved(disk, Blob(es)) && Readable(disk, bad, |Blob(es)|)
    ensures Load(disk, bad) == Loaded(Reversed(es) + [ROOT_ENTRY])
  {
    hide Parse, Reversed, AllStorable, Records, Blob, AreaBytes, Word32, Le32, SectorCount, SectorOf, Readable, Saved;
    var b := Blob(es);
    HeaderFields(es);
    FirstSector(disk, es);
    SavedBytes(disk, b);
    ReadableLess(disk, bad, 1, |b|);
    ParseRecords(b, 16, es, [ROOT_ENTRY]);
  }

  /** Entries with the same path are the same. */
  ghost predicate Consistent(es: seq<Entry>) {
    forall i, j :: 0 <= i < |es| && 0 <= j < |es| && es[i].path == es[j].path ==> es[i] == es[j]
  }

  lemma LoadedAt(es: seq<Entry>)
    ensures var r := Reversed(es) + [ROOT_ENTRY];
            && |r| == |es| + 1 && r[|es|] == ROOT_ENTRY
            && forall j :: 0 <= j < |es| ==> r[j] == es[|es| - 1 - j]
  {
    forall j | 0 <= j < |es|
      ensures (Reversed(es) + [ROOT_ENTRY])[j] == es[|es| - 1 - j]
    {
      ReversedAt(es, j);
    }
  }

  /** Reversing and adding a root keeps every lookup exactly when there was a root already. */
  lemma LoadedLookups(es: seq<Entry>)
    requires Consistent(es)
    ensures (forall q :: Find(Reversed(es) + [ROOT_ENTRY], q) == Find(es, q)) <==> Present(es, ROOT)
    ensures Find(es, ROOT) == Some(Dir) && AllStorable(es) ==> Consistent(Reversed(es) + [ROOT_ENTRY])
  {
    var r := Reversed(es) + [ROOT_ENTRY];
    LoadedAt(es);
    hide First;
    if Present(es, ROOT) {
      forall q
        ensures Find(r, q) == Find(es, q)
      {
        LoadedLookup(es, q);
      }
    } else {
      assert Find(r, ROOT) != None;
    }
    if Find(es, ROOT) == Some(Dir) && AllStorable(es) {
      var k := First(es, {ROOT});
      assert es[k] == ROOT_ENTRY;
      forall i, j | 0 <= i < |r| && 0 <= j < |r| && r[i].path == r[j].path
        ensures r[i] == r[j]
      {
        var i' := if i < |es| then |es| - 1 - i else k;
        var j' := if j < |es| then |es| - 1 - j else k;
        assert r[i] == es[i'] && r[j] == es[j'];
      }
    }
  }

  lemma LoadedLookup(es: seq<Entry>, q: CString)
    requires Consistent(es) && Present(es, ROOT)
    ensures Find(Reversed(es) + [ROOT_ENTRY], q) == Find(es, q)
  {
    var r := Reversed(es) + [ROOT_ENTRY];
    LoadedAt(es);
    var i := First(r, {q});
    var k := First(es, {q});
    hide First;
    if k < |es| {
      assert r[|es| - 1 - k] == es[k];
    }
  }

  /** Saving, then loading: every path stands for what it stood for, and doing it again changes nothing
      more. */
  lemma SaveLoadKeepsLookups(disk: Disk, bad: set<nat>, es: seq<Entry>)
    requires Saveable(es) && Saved(disk, Blob(es)) && Readable(disk, bad, |Blob(es)|)
    requires Consistent(es) && Find(es, ROOT) == Some(Dir)
    ensures Load(disk, bad).Loaded?
    ensures forall q :: Find(Load(disk, bad).entries, q) == Find(es, q)
    ensures Consistent(Load(disk, bad).entries)
  {
    LoadSaved(disk, bad, es);
    LoadedLookups(es);
  }

  lemma RefinesConsistent(es: seq<Entry>, m: Tree)
    requires Refines(es, m)
    ensures Consistent(es)
  {
  }

  /** After any run from the initial contents, saving and loading leaves every path standing for what the
      map of that run says, as long as the root is still a directory. */
  lemma RunSurvivesReload(ops: seq<Op>, m: Tree, disk: Disk, bad: set<nat>)
    requires m == RunMap(map[ROOT := Dir], ops) && ROOT in m && m[ROOT] == Dir
    requires Saveable(Run([ROOT_ENTRY], ops))
    requires Saved(disk, Blob(Run([ROOT_ENTRY], ops))) && Readable(disk, bad, |Blob(Run([ROOT_ENTRY], ops))|)
    ensures Load(disk, bad).Loaded?
    ensures forall q :: Find(Load(disk, bad).entries, q) == if q in m then Some(m[q]) else None
  {
    var es := Run([ROOT_ENTRY], ops);
    RootRefines();
    RunRefines([ROOT_ENTRY], map[ROOT := Dir], ops);
    RefinesConsistent(es, m);
    FindAgrees(es, m, ROOT);
    hide Run, RunMap, Saveable, Saved, Readable, Blob, Load, Refines, Find;
    SaveLoadKeepsLookups(disk, bad, es);
    forall q
      ensures Find(es, q) == if q in m then Some(m[q]) else None
    {
      FindAgrees(es, m, q);
    }
  }

  /** A reloaded list has its root twice, so that unlinking it leaves it there. */
  lemma ReloadedRootStays(es: seq<Entry>)
    requires Present(es, ROOT)
    ensures var r := Reversed(es) + [ROOT_ENTRY];
            !Distinct(r) && Succeeds(r, Unlink(ROOT)) && Present(Apply(r, Unlink(ROOT)), ROOT)
  {
    var r := Reversed(es) + [ROOT_ENTRY];
    LoadedAt(es);
    InternalFixed(ROOT);
    assert Wanted(ROOT) == {ROOT} by {
      assert Normalize(WithoutDrive(ROOT)) == ROOT;
    }
    var k := First(es, {ROOT});
    var i := First(r, Wanted(ROOT));
    assert r[|es| - 1 - k] == es[k];
    hide First;
    var r' := Without(r, i);
    assert i < |es| && r'[|es| - 1] == r[|es|];
  }
}
