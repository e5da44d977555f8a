/** File contents on a FAT32 volume: what reading a chain yields, and when a chain holds a buffer. */
module Fat32File {
  import opened Bytes
  import opened Fat32Layout
  import opened Fat32Chain

  /** The device refuses sectors past its end and the ones in `bad`. */
  function SectorAt(bad: set<nat>, d: Disk, lba: nat): (r: Option<Sector>) {
    if lba < |d| && lba !in bad then Some(d[lba]) else None
  }

  /** The link read for any cluster number, in the table or not. */
  function FatRead(g: Geometry, bad: set<nat>, d: Disk, c: nat): (v: nat) {
    match SectorAt(bad, d, g.FatSector(0, c / 128))
    case None => BAD_CLUSTER
    case Some(s) => Link(s, c % 128)
  }

  predicate EndsChain(v: nat) {
    v == 0 || v == BAD_CLUSTER || v >= EOC_MIN
  }

  ghost predicate FatsSpared(g: Geometry, bad: set<nat>) {
    forall lba :: lba in bad ==> !(g.rsvd <= lba < g.ClusterBegin())
  }

  lemma FatReadIsTable(g: Geometry, bad: set<nat>, d: Disk, c: nat)
    requires HasFats(g, d) && FatsSpared(g, bad) && c < g.Entries()
    ensures FatRead(g, bad, d, c) == Fat(g, d)[c]
  {
    FatSectorInjective(g, 0, c / 128, 0, c / 128);
  }

  /** The bytes copied from sectors `s..` of a cluster, at most `want` of them. */
  function ClusterBytes(g: Geometry, bad: set<nat>, d: Disk, c: nat, s: nat, want: nat): (r: Option<seq<byte>>)
    requires s <= g.secPerClus
    ensures r.Some? ==> |r.value| == Min(want, (g.secPerClus - s) * SECTOR)
    decreases g.secPerClus - s
  {
    if s == g.secPerClus || want == 0 then Some([])
    else
      match SectorAt(bad, d, g.DataLba(c, s))
      case None => None
      case Some(sec) =>
        var n := Min(want, SECTOR);
        match ClusterBytes(g, bad, d, c, s + 1, want - n)
        case None => None
        case Some(rest) => Some(sec[..n] + rest)
  }

  /** The bytes read by following the chain from `c`, at most `want` of them. */
  function FileBytes(g: Geometry, bad: set<nat>, d: Disk, c: nat, want: nat): (r: Option<seq<byte>>)
    requires 1 <= g.secPerClus
    ensures r.Some? ==> |r.value| <= want
    decreases want
  {
    if EndsChain(c) || want == 0 then Some([])
    else
      match ClusterBytes(g, bad, d, c, 0, want)
      case None => None
      case Some(b) =>
        var next := FatRead(g, bad, d, c);
        if |b| >= want || EndsChain(next) || next == c then Some(b)
        else
          match FileBytes(g, bad, d, next, want - |b|)
          case None => None
          case Some(rest) => Some(b + rest)
  }

  /** The sector image of the data at `pos`: up to 512 bytes, padded with zeros. */
  function Chunk(data: seq<byte>, pos: nat): (r: Sector)
    requires pos <= |data|
    ensures r[..Min(SECTOR, |data| - pos)] == data[pos..pos + Min(SECTOR, |data| - pos)]
  {
    var n := Min(SECTOR, |data| - pos);
    data[pos..pos + n] + Zeros(SECTOR - n)
  }

  /** Cluster `c` holds the data from `pos` on, as far as it reaches. */
  ghost predicate ClusterHolds(g: Geometry, bad: set<nat>, d: Disk, c: nat, data: seq<byte>, pos: nat) {
    forall s :: 0 <= s < g.secPerClus && pos + SECTOR * s < |data| ==>
                  SectorAt(bad, d, g.DataLba(c, s)) == Some(Chunk(data, pos + SECTOR * s))
  }

  ghost function ClusterSize(g: Geometry): nat {
    g.secPerClus * SECTOR
  }

  /** The clusters `cs` hold the data in order. */
  ghost predicate ChainHolds(g: Geometry, bad: set<nat>, d: Disk, cs: seq<nat>, data: seq<byte>) {
    forall i :: 0 <= i < |cs| ==> ClusterHolds(g, bad, d, cs[i], data, i * ClusterSize(g))
  }

  lemma {:induction false} ClusterReadsBack(g: Geometry, bad: set<nat>, d: Disk, c: nat, s: nat, data: seq<byte>, pos: nat)
    requires s <= g.secPerClus && pos + SECTOR * s <= |data|
    requires ClusterHolds(g, bad, d, c, data, pos)
    ensures ClusterBytes(g, bad, d, c, s, |data| - pos - SECTOR * s)
         == Some(data[pos + SECTOR * s..Min(|data|, pos + g.secPerClus * SECTOR)])
    decreases g.secPerClus - s
  {
    var from := pos + SECTOR * s;
    var n := Min(|data| - from, SECTOR);
    if s < g.secPerClus && from < |data| {
      assert SectorAt(bad, d, g.DataLba(c, s)) == Some(Chunk(data, from));
      if from + SECTOR <= |data| {
        ClusterReadsBack(g, bad, d, c, s + 1, data, pos);
        var end := Min(|data|, pos + g.secPerClus * SECTOR);
        assert data[from..from + n] + data[from + n..end] == data[from..end];
      } else {
        assert ClusterBytes(g, bad, d, c, s + 1, 0) == Some([]);
        assert Chunk(data, from)[..n] + [] == data[from..|data|];
        assert Min(|data|, pos + g.secPerClus * SECTOR) == |data|;
      }
    } else {
      assert data[from..Min(|data|, pos + g.secPerClus * SECTOR)] == [];
    }
  }

  /** One cluster of the walk: the data ends here, or the rest is read through the link. */
  lemma FileStep(g: Geometry, bad: set<nat>, d: Disk, c: nat, data: seq<byte>, pos: nat)
    requires 1 <= g.secPerClus && pos < |data| && !EndsChain(c)
    requires ClusterHolds(g, bad, d, c, data, pos)
    requires |data| > pos + ClusterSize(g) ==>
               var next := FatRead(g, bad, d, c);
               && !EndsChain(next) && next != c
               && FileBytes(g, bad, d, next, |data| - pos - ClusterSize(g)) == Some(data[pos + ClusterSize(g)..])
    ensures FileBytes(g, bad, d, c, |data| - pos) == Some(data[pos..])
  {
    hide FatRead, ClusterBytes, ClusterHolds, EndsChain;
    var end := Min(|data|, pos + ClusterSize(g));
    assert ClusterBytes(g, bad, d, c, 0, |data| - pos) == Some(data[pos..end]) by {
      ClusterReadsBack(g, bad, d, c, 0, data, pos);
    }
    hide ClusterSize;
    if end == |data| {
      assert data[pos..end] == data[pos..];
    } else {
      assert data[pos..end] + data[end..] == data[pos..];
    }
  }

  // --- What is read, byte by byte -------------------------------------------------------------

  /** The byte of sector `q` of cluster `c` at offset `k`, if the sector can be read. */
  function DataByte(g: Geometry, bad: set<nat>, d: Disk, c: nat, q: nat, k: nat): (r: Option<byte>)
    requires k < SECTOR
  {
    match SectorAt(bad, d, g.DataLba(c, q))
    case None => None
    case Some(sec) => Some(sec[k])
  }

  /** Every sector of the cluster from `s` on that `want` bytes need can be read. */
  ghost predicate ClusterReadable(g: Geometry, bad: set<nat>, d: Disk, c: nat, s: nat, want: nat) {
    forall q :: s <= q < g.secPerClus && SECTOR * (q - s) < want ==> SectorAt(bad, d, g.DataLba(c, q)).Some?
  }

  lemma {:induction false} ClusterReads(g: Geometry, bad: set<nat>, d: Disk, c: nat, s: nat, want: nat)
    requires s <= g.secPerClus
    ensures ClusterBytes(g, bad, d, c, s, want).Some? <==> ClusterReadable(g, bad, d, c, s, want)
    decreases g.secPerClus - s
  {
    hide Geometry.DataLba, SectorAt;
    if s < g.secPerClus && want > 0 {
      var n := Min(want, SECTOR);
      ClusterReads(g, bad, d, c, s + 1, want - n);
      if ClusterReadable(g, bad, d, c, s, want) {
        assert SectorAt(bad, d, g.DataLba(c, s)).Some?;
        forall q | s + 1 <= q < g.secPerClus && SECTOR * (q - (s + 1)) < want - n
          ensures SectorAt(bad, d, g.DataLba(c, q)).Some?
        {
          assert SECTOR * (q - s) < want;
        }
      }
    }
  }

  lemma {:induction false} ClusterByte(g: Geometry, bad: set<nat>, d: Disk, c: nat, s: nat, want: nat, k: nat)
    requires s <= g.secPerClus && ClusterBytes(g, bad, d, c, s, want).Some? && k < |ClusterBytes(g, bad, d, c, s, want).value|
    ensures DataByte(g, bad, d, c, s + k / SECTOR, k % SECTOR) == Some(ClusterBytes(g, bad, d, c, s, want).value[k])
    decreases g.secPerClus - s
  {
    hide Geometry.DataLba, SectorAt;
    if k >= SECTOR {
      ClusterByte(g, bad, d, c, s + 1, want - SECTOR, k - SECTOR);
      assert (k - SECTOR) / SECTOR == k / SECTOR - 1 && (k - SECTOR) % SECTOR == k % SECTOR;
    }
  }

  lemma TailChain(t: seq<nat>, cs: seq<nat>)
    requires IsChain(t, cs) && |cs| > 1
    ensures IsChain(t, cs[1..])
  {
    var rest := cs[1..];
    forall i | 0 <= i < |rest| - 1
      ensures LinksOn(t, rest, i)
    {
      assert LinksOn(t, cs, i + 1);
    }
  }

  /** Reading a chain: its first cluster, then the rest of it if more is wanted. */
  lemma FileUnfold(g: Geometry, bad: set<nat>, d: Disk, cs: seq<nat>, want: nat)
    requires HasFats(g, d) && FatsSpared(g, bad) && IsChain(Fat(g, d), cs) && want > 0
    ensures g.secPerClus >= 1
    ensures var b := ClusterBytes(g, bad, d, cs[0], 0, want);
            FileBytes(g, bad, d, cs[0], want) ==
            if b.None? || want <= ClusterSize(g) || |cs| == 1 then b
            else match FileBytes(g, bad, d, cs[1], want - ClusterSize(g))
              case None => None
              case Some(rest) => Some(b.value + rest)
  {
    hide HasFats, FatCopy, FatsSpared, FatRead, ClusterBytes, IsChain, EndsChain;
    ChainStart(g, bad, d, cs);
  }

  /** The first step along a chain, as the reader takes it. */
  lemma ChainStart(g: Geometry, bad: set<nat>, d: Disk, cs: seq<nat>)
    requires HasFats(g, d) && FatsSpared(g, bad) && IsChain(Fat(g, d), cs)
    ensures g.secPerClus >= 1 && !EndsChain(cs[0])
    ensures var next := FatRead(g, bad, d, cs[0]);
            if |cs| == 1 then EndsChain(next) else next == cs[1] != cs[0] && !EndsChain(next)
  {
    var t := Fat(g, d);
    assert |t| <= BAD_CLUSTER;
    FatReadIsTable(g, bad, d, cs[0]);
    hide FatCopy, FatRead, FatsSpared;
    ChainLink(t, cs, 0);
    if |cs| > 1 {
      ChainDistinct(t, cs, 0, 1);
      ChainLink(t, cs, 1);
    }
  }

  /** Every sector that the first `want` bytes of the chain need can be read. */
  ghost predicate ChainReadable(g: Geometry, bad: set<nat>, d: Disk, cs: seq<nat>, want: nat) {
    forall i :: 0 <= i < |cs| && i * ClusterSize(g) < want ==> ClusterReadable(g, bad, d, cs[i], 0, want - i * ClusterSize(g))
  }

  /** Reading a chain succeeds exactly when every sector needed can be read, and then delivers as many bytes
      as are wanted or as the chain has. */
  lemma {:induction false} ChainReads(g: Geometry, bad: set<nat>, d: Disk, cs: seq<nat>, want: nat)
    requires HasFats(g, d) && FatsSpared(g, bad) && IsChain(Fat(g, d), cs) && want > 0
    ensures g.secPerClus >= 1
    ensures FileBytes(g, bad, d, cs[0], want).Some? <==> ChainReadable(g, bad, d, cs, want)
    ensures FileBytes(g, bad, d, cs[0], want).Some? ==> |FileBytes(g, bad, d, cs[0], want).value| == Min(want, |cs| * ClusterSize(g))
    decreases |cs|
  {
    FileUnfold(g, bad, d, cs, want);
    ClusterReads(g, bad, d, cs[0], 0, want);
    var size := ClusterSize(g);
    if |cs| > 1 && want > size {
      TailChain(Fat(g, d), cs);
      ChainReads(g, bad, d, cs[1..], want - size);
      TailReadable(g, bad, d, cs, want);
      assert |cs| * size == size + |cs[1..]| * size;
    } else {
      OnlyFirst(g, bad, d, cs, want);
    }
    hide FatCopy, FileBytes, ClusterBytes, ChainReadable, ClusterReadable;
  }

  lemma TailReadable(g: Geometry, bad: set<nat>, d: Disk, cs: seq<nat>, want: nat)
    requires |cs| > 1 && want > ClusterSize(g)
    ensures ChainReadable(g, bad, d, cs, want) <==>
            ClusterReadable(g, bad, d, cs[0], 0, want) && ChainReadable(g, bad, d, cs[1..], want - ClusterSize(g))
  {
    hide ClusterReadable;
    var size := ClusterSize(g);
    hide ClusterSize;
    assert forall i :: 0 <= i < |cs| - 1 ==> cs[1..][i] == cs[i + 1] && (i + 1) * size == i * size + size;
    if ClusterReadable(g, bad, d, cs[0], 0, want) && ChainReadable(g, bad, d, cs[1..], want - size) {
      forall i | 0 <= i < |cs| && i * size < want
        ensures ClusterReadable(g, bad, d, cs[i], 0, want - i * size)
      {
        if i > 0 {
          assert cs[1..][i - 1] == cs[i] && (i - 1) * size == i * size - size;
        }
      }
    }
    if ChainReadable(g, bad, d, cs, want) {
      assert 0 * size == 0;
      forall i | 0 <= i < |cs[1..]| && i * size < want - size
        ensures ClusterReadable(g, bad, d, cs[1..][i], 0, want - size - i * size)
      {
        assert (i + 1) * size == i * size + size;
      }
    }
  }

  lemma OnlyFirst(g: Geometry, bad: set<nat>, d: Disk, cs: seq<nat>, want: nat)
    requires |cs| > 0 && want > 0 && g.secPerClus >= 1 && (|cs| == 1 || want <= ClusterSize(g))
    ensures ChainReadable(g, bad, d, cs, want) <==> ClusterReadable(g, bad, d, cs[0], 0, want)
    ensures Min(want, |cs| * ClusterSize(g)) == Min(want, ClusterSize(g))
  {
    hide ClusterReadable;
    var size := ClusterSize(g);
    hide ClusterSize;
    assert 0 * size == 0;
    if |cs| > 1 {
      MulMonotone(1, |cs|, size);
      forall i | 0 < i < |cs|
        ensures i * size >= want
      {
        MulMonotone(1, i, size);
      }
    }
  }

  /** Where byte `o` of cluster number `j` of a chain stands among the bytes read. */
  function Offset(g: Geometry, j: nat, o: nat): (k: nat) {
    j * (g.secPerClus * SECTOR) + o
  }

  lemma OffsetStep(g: Geometry, j: nat, o: nat)
    ensures Offset(g, 0, o) == o && (j > 0 ==> Offset(g, j, o) == ClusterSize(g) + Offset(g, j - 1, o))
  {
    if j > 0 {
      var size := ClusterSize(g);
      assert j * size == (j - 1) * size + size;
    }
  }

  /** And byte `o` of what cluster `j` of the chain contributes is the byte at its place on the disk. */
  lemma {:induction false} ChainByte(g: Geometry, bad: set<nat>, d: Disk, cs: seq<nat>, want: nat, j: nat, o: nat)
    requires HasFats(g, d) && FatsSpared(g, bad) && IsChain(Fat(g, d), cs) && want > 0 && g.secPerClus >= 1
    requires FileBytes(g, bad, d, cs[0], want).Some? && j < |cs| && o < ClusterSize(g)
    requires Offset(g, j, o) < |FileBytes(g, bad, d, cs[0], want).value|
    ensures DataByte(g, bad, d, cs[j], o / SECTOR, o % SECTOR) == Some(FileBytes(g, bad, d, cs[0], want).value[Offset(g, j, o)])
    decreases j
  {
    hide HasFats, FatCopy, FatsSpared, FileBytes, ClusterBytes, IsChain, DataByte, ClusterSize, Offset;
    OffsetStep(g, j, o);
    ChainParts(g, bad, d, cs, want);
    var size := ClusterSize(g);
    if j == 0 {
      ClusterByte(g, bad, d, cs[0], 0, want, o);
    } else {
      TailChain(Fat(g, d), cs);
      ChainByte(g, bad, d, cs[1..], want - size, j - 1, o);
    }
  }

  /** What is read: what the first cluster contributes, and behind it what the rest of the chain does. */
  lemma ChainParts(g: Geometry, bad: set<nat>, d: Disk, cs: seq<nat>, want: nat)
    requires HasFats(g, d) && FatsSpared(g, bad) && IsChain(Fat(g, d), cs) && want > 0 && g.secPerClus >= 1
    requires FileBytes(g, bad, d, cs[0], want).Some?
    ensures var r, b, size := FileBytes(g, bad, d, cs[0], want).value, ClusterBytes(g, bad, d, cs[0], 0, want), ClusterSize(g);
            && b.Some? && |b.value| == Min(want, size)
            && (forall k :: 0 <= k < |b.value| ==> k < |r| && r[k] == b.value[k])
            && (|r| > size ==>
                  && |cs| > 1 && want > size && FileBytes(g, bad, d, cs[1], want - size).Some?
                  && r[size..] == FileBytes(g, bad, d, cs[1], want - size).value)
  {
    FileUnfold(g, bad, d, cs, want);
    hide FatCopy, FileBytes, IsChain;
  }

  /** The outcome of reading `want` bytes of a chain: it succeeds exactly when every sector needed can be read,
      and then has as many bytes as wanted or as the chain has, each the one at its place on the disk. */
  ghost predicate Delivers(g: Geometry, bad: set<nat>, d: Disk, cs: seq<nat>, want: nat, r: Option<seq<byte>>) {
    && (r.Some? <==> ChainReadable(g, bad, d, cs, want))
    && (r.Some? ==>
          && |r.value| == Min(want, |cs| * ClusterSize(g))
          && forall j: nat, o: nat :: j < |cs| && o < ClusterSize(g) && Offset(g, j, o) < |r.value| ==>
               DataByte(g, bad, d, cs[j], o / SECTOR, o % SECTOR) == Some(r.value[Offset(g, j, o)]))
  }

  lemma ChainDelivers(g: Geometry, bad: set<nat>, d: Disk, cs: seq<nat>, want: nat)
    requires HasFats(g, d) && FatsSpared(g, bad) && IsChain(Fat(g, d), cs) && want > 0
    ensures g.secPerClus >= 1 && Delivers(g, bad, d, cs, want, FileBytes(g, bad, d, cs[0], want))
  {
    assert cs != [];
    hide HasFats, FatCopy, FatsSpared, IsChain, FileBytes, ChainReadable, ClusterSize, DataByte, Offset;
    ChainReads(g, bad, d, cs, want);
    var r := FileBytes(g, bad, d, cs[0], want);
    if r.Some? {
      forall j: nat, o: nat | j < |cs| && o < ClusterSize(g) && Offset(g, j, o) < |r.value|
        ensures DataByte(g, bad, d, cs[j], o / SECTOR, o % SECTOR) == Some(r.value[Offset(g, j, o)])
      {
        ChainByte(g, bad, d, cs, want, j, o);
      }
    }
  }

  /** Reading from cluster number `i` of a chain yields the rest of the data it holds. */
  lemma {:induction false} ChainReadsBackFrom(g: Geometry, bad: set<nat>, d: Disk, cs: seq<nat>, data: seq<byte>, i: nat, pos: nat)
    requires HasFats(g, d) && FatsSpared(g, bad) && IsChain(Fat(g, d), cs)
    requires ChainHolds(g, bad, d, cs, data) && |data| <= |cs| * ClusterSize(g)
    requires i < |cs| && pos == i * ClusterSize(g) && pos < |data|
    ensures FileBytes(g, bad, d, cs[i], |data| - pos) == Some(data[pos..])
    decreases |cs| - i
  {
    hide FatCopy, FatRead, FileBytes;
    var t := Fat(g, d);
    ChainLink(t, cs, i);
    FatReadIsTable(g, bad, d, cs[i]);
    assert (i + 1) * ClusterSize(g) == pos + ClusterSize(g);
    if |data| > pos + ClusterSize(g) {
      assert i + 1 < |cs|;
      ChainDistinct(t, cs, i, i + 1);
      ChainReadsBackFrom(g, bad, d, cs, data, i + 1, pos + ClusterSize(g));
    }
    FileStep(g, bad, d, cs[i], data, pos);
  }

  /** Following a chain that holds a buffer returns exactly the buffer. */
  lemma ChainReadsBack(g: Geometry, bad: set<nat>, d: Disk, cs: seq<nat>, data: seq<byte>)
    requires HasFats(g, d) && FatsSpared(g, bad) && IsChain(Fat(g, d), cs)
    requires ChainHolds(g, bad, d, cs, data) && 0 < |data| <= |cs| * ClusterSize(g)
    ensures FileBytes(g, bad, d, cs[0], |data|) == Some(data)
  {
    assert FileBytes(g, bad, d, cs[0], |data|) == Some(data[0..]) by {
      ChainReadsBackFrom(g, bad, d, cs, data, 0, 0);
    }
    assert data[0..] == data;
  }

  /** A disk change outside the clusters of `cs` and the FATs keeps what the chain holds. */
  lemma HoldsFrame(g: Geometry, bad: set<nat>, d: Disk, d': Disk, cs: seq<nat>, data: seq<byte>)
    requires g.Valid() && |d'| == |d| && ChainHolds(g, bad, d, cs, data)
    requires forall i :: 0 <= i < |cs| ==> 2 <= cs[i] < g.Entries()
    requires forall i: nat, lba: nat :: 0 <= i < |cs| && InCluster(g, cs[i], lba) && lba < |d| ==> d'[lba] == d[lba]
    ensures ChainHolds(g, bad, d', cs, data)
  {
    hide Geometry.DataLba, Geometry.Valid, InCluster, Chunk, ClusterSize;
    forall i | 0 <= i < |cs|
      ensures ClusterHolds(g, bad, d', cs[i], data, i * ClusterSize(g))
    {
      var pos := i * ClusterSize(g);
      assert ClusterHolds(g, bad, d, cs[i], data, pos);
      forall s | 0 <= s < g.secPerClus && pos + SECTOR * s < |data|
        ensures SectorAt(bad, d', g.DataLba(cs[i], s)) == Some(Chunk(data, pos + SECTOR * s))
      {
        DataLbaExact(g, cs[i], s);
      }
    }
  }

  /** Outside the FATs, at most the sectors of the clusters `cs` differ. */
  ghost predicate OnlyClusters(g: Geometry, cs: seq<nat>, d: Disk, d': Disk) {
    && |d'| == |d|
    && forall lba: nat :: lba < |d| && !(g.rsvd <= lba < g.ClusterBegin()) && d'[lba] != d[lba] ==>
                            exists i: nat :: i < |cs| && InCluster(g, cs[i], lba)
  }

  /** `k` clusters of `size` bytes are filled up to position `pos` of `len` bytes of data. */
  ghost predicate Filled(k: nat, size: nat, len: nat, pos: nat) {
    if pos < len then pos == k * size else pos == len && (k - 1) * size < len <= k * size
  }

  lemma FilledOneMore(k: nat, size: nat, len: nat, pos: nat)
    requires Filled(k, size, len, pos) && pos < len
    ensures Filled(k + 1, size, len, Min(len, pos + size))
  {
    assert (k + 1) * size == k * size + size;
  }

  lemma HoldsNothing(g: Geometry, bad: set<nat>, d: Disk, data: seq<byte>)
    ensures ChainHolds(g, bad, d, [], data) && OnlyClusters(g, [], d, d)
  {
  }

  lemma OnlyClustersStep(g: Geometry, cs: seq<nat>, c: nat, d: Disk, d1: Disk, d2: Disk, d3: Disk)
    requires OnlyClusters(g, cs, d, d1) && FatsOnly(g, d1, d2) && OnlyClusters(g, [c], d2, d3)
    ensures OnlyClusters(g, cs + [c], d, d3)
  {
    forall lba: nat | lba < |d| && !(g.rsvd <= lba < g.ClusterBegin()) && d3[lba] != d[lba]
      ensures exists i: nat :: i < |cs + [c]| && InCluster(g, (cs + [c])[i], lba)
    {
      if d1[lba] != d[lba] {
        var i: nat :| i < |cs| && InCluster(g, cs[i], lba);
        assert (cs + [c])[i] == cs[i];
      } else {
        var i: nat :| i < 1 && InCluster(g, [c][i], lba);
        assert (cs + [c])[|cs|] == c;
      }
    }
  }

  lemma OnlyClustersThenFats(g: Geometry, cs: seq<nat>, d: Disk, d1: Disk, d2: Disk)
    requires OnlyClusters(g, cs, d, d1) && FatsOnly(g, d1, d2)
    ensures OnlyClusters(g, cs, d, d2)
  {
    forall lba: nat | lba < |d| && !(g.rsvd <= lba < g.ClusterBegin()) && d2[lba] != d[lba]
      ensures exists i: nat :: i < |cs| && InCluster(g, cs[i], lba)
    {
      assert d1[lba] != d[lba];
    }
  }

  /** Linking a cluster and then writing inside it adds what it holds to what the chain holds. */
  lemma HoldsOneMore(g: Geometry, bad: set<nat>, d1: Disk, d2: Disk, d3: Disk, cs: seq<nat>, c: nat, data: seq<byte>)
    requires ChainHolds(g, bad, d1, cs, data) && FatsOnly(g, d1, d2) && OnlyClusters(g, [c], d2, d3)
    requires Ascending(cs + [c]) && forall i :: 0 <= i < |cs| ==> 2 <= cs[i] < g.Entries()
    requires ClusterHolds(g, bad, d3, c, data, |cs| * ClusterSize(g))
    ensures ChainHolds(g, bad, d3, cs + [c], data)
  {
    hide Geometry.Valid, InCluster, ClusterHolds, ClusterSize, Mirrored;
    forall i: nat, lba: nat | i < |cs| && InCluster(g, cs[i], lba) && lba < |d1|
      ensures d3[lba] == d1[lba]
    {
      ClusterAboveFat(g, cs[i], lba);
      assert d2[lba] == d1[lba];
      assert (cs + [c])[i] < (cs + [c])[|cs|];
      if d3[lba] != d2[lba] {
        assert InCluster(g, [c][0], lba);
        ClustersDisjoint(g, c, cs[i], lba);
      }
    }
    HoldsFrame(g, bad, d1, d3, cs, data);
    forall i | 0 <= i < |cs + [c]|
      ensures ClusterHolds(g, bad, d3, (cs + [c])[i], data, i * ClusterSize(g))
    {
    }
  }

  // --- Room for a file ------------------------------------------------------------------------

  /** A sector of a disk of `n` sectors can be written: it is there and not among those refused. */
  predicate Writable(refused: set<nat>, n: nat, lba: nat) {
    lba < n && lba !in refused
  }

  /** Every sector of cluster `c` that `len` bytes of data need from `pos` on can be written. */
  ghost predicate ClusterWritable(g: Geometry, refused: set<nat>, n: nat, c: nat, len: nat, pos: nat) {
    forall s :: 0 <= s < g.secPerClus && pos + SECTOR * s < len ==> Writable(refused, n, g.DataLba(c, s))
  }

  /** The first `k` clusters of the list can be written as far as the data needs them. */
  ghost predicate ClustersWritable(g: Geometry, refused: set<nat>, n: nat, fs: seq<nat>, k: nat, len: nat)
    requires k <= |fs|
  {
    forall i :: 0 <= i < k ==> ClusterWritable(g, refused, n, fs[i], len, i * ClusterSize(g))
  }

  /** Clusters of `size` bytes that `len` bytes need. */
  function ClustersNeeded(len: nat, size: nat): (k: nat)
    requires size > 0
  {
    (len + size - 1) / size
  }

  lemma NeededIs(len: nat, size: nat, k: nat)
    requires size > 0 && (k - 1) * size < len <= k * size
    ensures ClustersNeeded(len, size) == k
  {
    var r := len + size - 1 - k * size;
    assert k * size == (k - 1) * size + size;
    DivUnique(size, k, r);
  }

  lemma NeededMore(len: nat, size: nat, k: nat)
    requires size > 0 && k * size < len
    ensures ClustersNeeded(len, size) > k
  {
    var q := ClustersNeeded(len, size);
    var x := len + size - 1;
    assert x < q * size + size;
    if q <= k {
      MulMonotone(q, k, size);
    }
  }

  /** There are enough free clusters for `len` bytes, and the lowest of them can be written as far as the
      data needs them. */
  ghost predicate Room(g: Geometry, refused: set<nat>, n: nat, t: seq<nat>, len: nat) {
    && g.secPerClus >= 1
    && var k := ClustersNeeded(len, ClusterSize(g));
    k <= |FreeList(t)| && ClustersWritable(g, refused, n, FreeList(t), k, len)
  }
}
