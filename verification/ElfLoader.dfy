/** The ELF64 loader: span of the loadable segments, copying them into a fresh image, and the entry
    point inside it. */
module ElfLoader {
  import opened Bytes
  import opened KernelHeap

  const EHDR_SIZE: nat := 64
  const PHDR_SIZE: nat := 56
  const PT_LOAD: nat := 1
  const MAX_USER_IMAGE: nat := 0x400_0000

  function Word16(b: seq<byte>): (v: nat)
    requires |b| == 2
    ensures v < 0x10000
  {
    (b[0] as int) + 256 * (b[1] as int)
  }

  function Word64(b: seq<byte>): (v: nat)
    requires |b| == 8
    ensures v < TWO64
  {
    Word32(b[..4]) + TWO32 * Word32(b[4..])
  }

  /** The header fields that are used. */
  datatype Ehdr = Ehdr(entry: nat, phoff: nat, phentsize: nat, phnum: nat)

  function ReadEhdr(data: seq<byte>): (h: Ehdr)
    requires |data| >= EHDR_SIZE
  {
    Ehdr(Word64(data[24..32]), Word64(data[32..40]), Word16(data[54..56]), Word16(data[56..58]))
  }

  predicate IsElf(data: seq<byte>)
    requires |data| >= EHDR_SIZE
  {
    data[..4] == [0x7F, 69, 76, 70]
  }

  datatype Phdr = Phdr(kind: nat, offset: nat, vaddr: nat, filesz: nat, memsz: nat) {
    predicate Covers(a: nat) { kind == PT_LOAD && vaddr <= a < vaddr + filesz }

    predicate Occupies(a: nat) { kind == PT_LOAD && vaddr <= a < vaddr + memsz }
  }

  function ReadPhdr(data: seq<byte>, at: nat): (p: Phdr)
    requires at + PHDR_SIZE <= |data|
  {
    Phdr(Word32(data[at..at + 4]), Word64(data[at + 8..at + 16]), Word64(data[at + 16..at + 24]),
         Word64(data[at + 32..at + 40]), Word64(data[at + 40..at + 48]))
  }

  /** The program headers, at the distances the header gives. */
  function Segments(data: seq<byte>, at: nat, step: nat, n: nat): (ps: seq<Phdr>)
    requires n > 0 ==> at + (n - 1) * step + PHDR_SIZE <= |data|
    ensures |ps| == n
  {
    seq(n, i requires 0 <= i < n => PlaceInTable(at, step, i, n); ReadPhdr(data, at + i * step))
  }

  lemma PlaceInTable(at: nat, step: nat, i: nat, n: nat)
    requires i < n
    ensures at + i * step <= at + (n - 1) * step
  {
    MulMonotone(i, n - 1, step);
  }

  // --- Span -----------------------------------------------------------------------------------

  /** Lowest address of the loadable segments among the first `n`, and the end of the highest. */
  function Low(ps: seq<Phdr>, n: nat): (a: nat)
    requires n <= |ps|
    ensures a < TWO64
    ensures forall i :: 0 <= i < n && ps[i].kind == PT_LOAD ==> a <= ps[i].vaddr
    ensures a < TWO64 - 1 ==> exists i :: 0 <= i < n && ps[i].kind == PT_LOAD && ps[i].vaddr == a
  {
    if n == 0 then TWO64 - 1
    else
      var a := Low(ps, n - 1);
      if ps[n - 1].kind == PT_LOAD && ps[n - 1].vaddr < a then ps[n - 1].vaddr else a
  }

  function High(ps: seq<Phdr>, n: nat): (a: nat)
    requires n <= |ps|
    ensures forall i :: 0 <= i < n && ps[i].kind == PT_LOAD ==> ps[i].vaddr + ps[i].memsz <= a
    ensures a > 0 ==> exists i :: 0 <= i < n && ps[i].kind == PT_LOAD && ps[i].vaddr + ps[i].memsz == a
  {
    if n == 0 then 0
    else
      var a := High(ps, n - 1);
      if ps[n - 1].kind == PT_LOAD && ps[n - 1].vaddr + ps[n - 1].memsz > a then ps[n - 1].vaddr + ps[n - 1].memsz else a
  }

  // --- Image ----------------------------------------------------------------------------------

  /** Segment `p` can be copied: its bytes are in the file and end inside the span. */
  predicate Copyable(p: Phdr, size: nat, high: nat) {
    p.kind == PT_LOAD ==> p.offset + p.filesz <= size && p.vaddr + p.filesz <= high
  }

  ghost predicate AllCopyable(ps: seq<Phdr>, n: nat, size: nat)
    requires n <= |ps|
  {
    forall i :: 0 <= i < n ==> Copyable(ps[i], size, High(ps, |ps|))
  }

  /** Byte at address `a` once the first `n` segments are copied in order over zeros. */
  ghost function ByteAt(data: seq<byte>, ps: seq<Phdr>, n: nat, a: nat): (b: byte)
    requires n <= |ps| && AllCopyable(ps, n, |data|)
  {
    if n == 0 then 0
    else
      assert Copyable(ps[n - 1], |data|, High(ps, |ps|));
      if ps[n - 1].Covers(a) then data[ps[n - 1].offset + (a - ps[n - 1].vaddr)]
      else ByteAt(data, ps, n - 1, a)
  }

  /** The last segment that covers an address decides its byte; an address no segment covers is zero. */
  lemma {:induction false} LastCoverWins(data: seq<byte>, ps: seq<Phdr>, n: nat, a: nat, k: nat)
    requires n <= |ps| && AllCopyable(ps, n, |data|) && k <= n
    requires k < n ==> ps[k].Covers(a)
    requires forall i :: (if k < n then k + 1 else 0) <= i < n ==> !ps[i].Covers(a)
    ensures if k < n then Copyable(ps[k], |data|, High(ps, |ps|)) && ByteAt(data, ps, n, a) == data[ps[k].offset + (a - ps[k].vaddr)]
            else ByteAt(data, ps, n, a) == 0
  {
    if n > 0 && !ps[n - 1].Covers(a) {
      LastCoverWins(data, ps, n - 1, a, if k < n then k else n - 1);
    }
  }

  /** Loadable segments occupy disjoint memory and none has more file than memory. */
  ghost predicate Disjoint(ps: seq<Phdr>) {
    && (forall i :: 0 <= i < |ps| ==> ps[i].filesz <= ps[i].memsz)
    && (forall i, j, a :: 0 <= i < j < |ps| && ps[i].Occupies(a) ==> !ps[j].Occupies(a))
  }

  /** Program loading as the ABI defines it: each segment has its file bytes, then zeros. */
  lemma LoadedAsDefined(data: seq<byte>, ps: seq<Phdr>, k: nat, a: nat)
    requires AllCopyable(ps, |ps|, |data|) && Disjoint(ps) && k < |ps| && ps[k].Occupies(a)
    ensures Copyable(ps[k], |data|, High(ps, |ps|))
    ensures ByteAt(data, ps, |ps|, a) == if a < ps[k].vaddr + ps[k].filesz then data[ps[k].offset + (a - ps[k].vaddr)] else 0
  {
    forall i | 0 <= i < |ps| && i != k
      ensures !ps[i].Covers(a)
    {
      assert ps[i].filesz <= ps[i].memsz;
      assert !ps[i].Occupies(a);
    }
    LastCoverWins(data, ps, |ps|, a, if ps[k].Covers(a) then k else |ps|);
    assert Copyable(ps[k], |data|, High(ps, |ps|));
  }

  lemma {:induction false} SomeCoverShows(data: seq<byte>, ps: seq<Phdr>, n: nat, a: nat, k: nat)
    requires n <= |ps| && AllCopyable(ps, n, |data|) && k < n && ps[k].Covers(a)
    requires forall i :: 0 <= i < |data| ==> data[i] == 1
    ensures ByteAt(data, ps, n, a) == 1
  {
    if !ps[n - 1].Covers(a) {
      SomeCoverShows(data, ps, n - 1, a, k);
    } else {
      assert Copyable(ps[n - 1], |data|, High(ps, |ps|));
    }
  }

  /** An address is zero whatever the bytes of the file are exactly when no segment covers it; so for the
      tail of a segment, exactly when no other segment has file bytes there. */
  lemma ZeroExactly(ps: seq<Phdr>, size: nat, a: nat)
    requires AllCopyable(ps, |ps|, size)
    ensures (forall data: seq<byte> :: |data| == size ==> ByteAt(data, ps, |ps|, a) == 0) <==>
            forall i :: 0 <= i < |ps| ==> !ps[i].Covers(a)
  {
    if forall i :: 0 <= i < |ps| ==> !ps[i].Covers(a) {
      forall data: seq<byte> | |data| == size
        ensures ByteAt(data, ps, |ps|, a) == 0
      {
        LastCoverWins(data, ps, |ps|, a, |ps|);
      }
    } else {
      var k :| 0 <= k < |ps| && ps[k].Covers(a);
      var ones: seq<byte> := seq(size, _ => 1);
      SomeCoverShows(ones, ps, |ps|, a, k);
    }
  }

  // --- Loading --------------------------------------------------------------------------------

  function TableEnd(h: Ehdr): (n: nat) {
    h.phoff + h.phnum * h.phentsize
  }

  /** The header is right and its table lies in the file. */
  predicate HasTable(data: seq<byte>) {
    && |data| >= EHDR_SIZE && IsElf(data)
    && var h := ReadEhdr(data);
    h.phoff != 0 && h.phnum != 0 && TableEnd(h) <= |data|
  }

  /** Table entries have at least the size of a program header. */
  predicate WideEntries(data: seq<byte>) {
    HasTable(data) ==> ReadEhdr(data).phentsize >= PHDR_SIZE
  }

  lemma TableFits(h: Ehdr)
    requires h.phnum > 0 && h.phentsize >= PHDR_SIZE
    ensures h.phoff + (h.phnum - 1) * h.phentsize + PHDR_SIZE <= TableEnd(h)
  {
    MulStep(h.phnum - 1, h.phnum, h.phentsize);
  }

  function Table(data: seq<byte>): (ps: seq<Phdr>)
    requires HasTable(data) && WideEntries(data)
  {
    var h := ReadEhdr(data);
    TableFits(h);
    Segments(data, h.phoff, h.phentsize, h.phnum)
  }

  /** None of the sums the loader forms exceeds 64 bits. */
  predicate NoWrap(data: seq<byte>)
    requires WideEntries(data)
  {
    HasTable(data) ==>
      && TableEnd(ReadEhdr(data)) < TWO64
      && forall i :: 0 <= i < |Table(data)| ==>
           var p := Table(data)[i];
           p.kind == PT_LOAD ==> p.vaddr + p.memsz < TWO64 && p.offset + p.filesz < TWO64
  }

  /** What a file must be like to be loaded: a sane span, every segment inside it and inside the file,
      and an entry point inside the span. */
  ghost predicate Accepts(data: seq<byte>)
    requires WideEntries(data)
  {
    && HasTable(data)
    && var ps := Table(data);
    var lo, hi := Low(ps, |ps|), High(ps, |ps|);
    && lo != TWO64 - 1 && lo < hi <= lo + MAX_USER_IMAGE
    && AllCopyable(ps, |ps|, |data|) && lo <= ReadEhdr(data).entry < hi
  }

  /** A file with two program headers: one byte at address 0, and two zero bytes from address 0 on. */
  function OverlapByte(i: nat): (b: byte) {
    if i == 0 then 0x7F else if i == 1 then 69 else if i == 2 then 76 else if i == 3 then 70
    else if i == 32 then 64 else if i == 54 then 56 else if i == 56 then 2
    else if i == 64 then 1 else if i == 72 then 176 else if i == 96 then 1 else if i == 104 then 1
    else if i == 120 then 1 else if i == 128 then 177 else if i == 160 then 2
    else if i == 176 then 7 else if i == 177 then 8 else 0
  }

  const OVERLAP: seq<byte> := seq(178, i requires 0 <= i < 178 => OverlapByte(i))

  lemma OverlapWord64(at: nat, v: byte)
    requires at + 8 <= 178 && OverlapByte(at) == v
    requires OverlapByte(at + 1) == 0 && OverlapByte(at + 2) == 0 && OverlapByte(at + 3) == 0 && OverlapByte(at + 4) == 0
    requires OverlapByte(at + 5) == 0 && OverlapByte(at + 6) == 0 && OverlapByte(at + 7) == 0
    ensures Word64(OVERLAP[at..at + 8]) == v
  {
    hide OverlapByte;
    var w := OVERLAP[at..at + 8];
    assert w[0] == v && w[1] == 0 && w[2] == 0 && w[3] == 0 && w[4] == 0 && w[5] == 0 && w[6] == 0 && w[7] == 0;
  }

  lemma OverlapLoad(at: nat)
    requires at + 4 <= 178 && OverlapByte(at) == 1
    requires OverlapByte(at + 1) == 0 && OverlapByte(at + 2) == 0 && OverlapByte(at + 3) == 0
    ensures Word32(OVERLAP[at..at + 4]) == PT_LOAD
  {
    hide OverlapByte;
    var w := OVERLAP[at..at + 4];
    assert w[0] == 1 && w[1] == 0 && w[2] == 0 && w[3] == 0;
  }

  lemma OverlapHeader()
    ensures HasTable(OVERLAP) && WideEntries(OVERLAP) && ReadEhdr(OVERLAP) == Ehdr(0, 64, 56, 2)
  {
    OverlapWord64(24, 0);
    OverlapWord64(32, 64);
    hide Word64;
    assert OVERLAP[54..56] == [56, 0] && OVERLAP[56..58] == [2, 0];
    assert OVERLAP[..4] == [0x7F, 69, 76, 70];
  }

  lemma OverlapFirst()
    ensures ReadPhdr(OVERLAP, 64) == Phdr(PT_LOAD, 176, 0, 1, 1)
  {
    OverlapLoad(64);
    OverlapWord64(72, 176);
    OverlapWord64(80, 0);
    OverlapWord64(96, 1);
    OverlapWord64(104, 1);
    hide Word64, Word32, OverlapByte;
  }

  lemma OverlapSecond()
    ensures ReadPhdr(OVERLAP, 120) == Phdr(PT_LOAD, 177, 0, 0, 2)
  {
    OverlapLoad(120);
    OverlapWord64(128, 177);
    OverlapWord64(136, 0);
    OverlapWord64(152, 0);
    OverlapWord64(160, 2);
    hide Word64, Word32, OverlapByte;
  }

  lemma OverlapSegments()
    ensures HasTable(OVERLAP) && WideEntries(OVERLAP)
    ensures Table(OVERLAP) == [Phdr(PT_LOAD, 176, 0, 1, 1), Phdr(PT_LOAD, 177, 0, 0, 2)]
  {
    hide ReadPhdr, ReadEhdr, HasTable, OverlapByte;
    OverlapHeader();
    OverlapFirst();
    OverlapSecond();
    var ps := Table(OVERLAP);
    assert ps[0] == ReadPhdr(OVERLAP, 64) && ps[1] == ReadPhdr(OVERLAP, 120);
  }

  /** The loader accepts a file whose second segment should start with zero bytes but holds a byte of the
      first one. */
  lemma OverlapNotZeroed()
    ensures WideEntries(OVERLAP) && NoWrap(OVERLAP) && Accepts(OVERLAP)
    ensures var ps := Table(OVERLAP);
            && AllCopyable(ps, |ps|, |OVERLAP|) && ps[1].Occupies(0) && !ps[1].Covers(0)
            && ByteAt(OVERLAP, ps, |ps|, 0) == 7
  {
    assert OVERLAP[176] == 7;
    hide Table, ReadEhdr, HasTable, OverlapByte;
    OverlapHeader();
    OverlapSegments();
    var ps := Table(OVERLAP);
    assert Low(ps, 1) == 0 && Low(ps, 2) == 0 && High(ps, 1) == 1 && High(ps, 2) == 2;
    assert Copyable(ps[0], 178, 2) && Copyable(ps[1], 178, 2);
    assert ByteAt(OVERLAP, ps, 1, 0) == 7;
  }

  method Span(ps: seq<Phdr>) returns (lo: nat, hi: nat)
    ensures lo == Low(ps, |ps|) && hi == High(ps, |ps|)
  {
    lo, hi := TWO64 - 1, 0;
    var i := 0;
    while i < |ps|
      invariant i <= |ps| && lo == Low(ps, i) && hi == High(ps, i)
    {
      if ps[i].kind == PT_LOAD {
        if ps[i].vaddr < lo {
          lo := ps[i].vaddr;
        }
        if ps[i].vaddr + ps[i].memsz > hi {
          hi := ps[i].vaddr + ps[i].memsz;
        }
      }
      i := i + 1;
    }
  }

  /** The image after the first `n` segments. */
  ghost predicate Shows(image: seq<byte>, data: seq<byte>, ps: seq<Phdr>, n: nat, lo: nat)
    requires n <= |ps| && AllCopyable(ps, n, |data|)
  {
    forall x :: 0 <= x < |image| ==> image[x] == ByteAt(data, ps, n, lo + x)
  }

  /** Copies one segment; every byte lands inside the image. */
  method CopySegment(image: array<byte>, data: seq<byte>, p: Phdr, lo: nat)
    requires p.kind == PT_LOAD && lo <= p.vaddr && p.vaddr + p.filesz <= lo + image.Length && p.offset + p.filesz <= |data|
    modifies image
    ensures forall x :: 0 <= x < image.Length ==>
              image[x] == if p.Covers(lo + x) then data[p.offset + (lo + x - p.vaddr)] else old(image[x])
  {
    var dest := p.vaddr - lo;
    var i := 0;
    while i < p.filesz
      invariant i <= p.filesz
      invariant forall x :: 0 <= x < image.Length ==>
                  image[x] == if dest <= x < dest + i then data[p.offset + (x - dest)] else old(image[x])
    {
      image[dest + i] := data[p.offset + i];
      i := i + 1;
    }
  }

  /** Copies the segments in order, up to the first that does not fit. */
  method CopySegments(image: array<byte>, data: seq<byte>, ps: seq<Phdr>, lo: nat) returns (ok: bool)
    requires lo == Low(ps, |ps|) && High(ps, |ps|) == lo + image.Length && forall x :: 0 <= x < image.Length ==> image[x] == 0
    modifies image
    ensures ok == AllCopyable(ps, |ps|, |data|)
    ensures ok ==> Shows(image[..], data, ps, |ps|, lo)
  {
    hide Low, High;
    var i := 0;
    while i < |ps|
      invariant i <= |ps| && AllCopyable(ps, i, |data|) && Shows(image[..], data, ps, i, lo)
    {
      var p := ps[i];
      if p.kind == PT_LOAD {
        if p.offset + p.filesz > |data| {
          return false;
        }
        if p.vaddr - lo + p.filesz > image.Length {
          return false;
        }
        ghost var was := image[..];
        CopySegment(image, data, p, lo);
        ShowsMore(was, image[..], data, ps, i, lo);
      } else {
        ShowsMore(image[..], image[..], data, ps, i, lo);
      }
      i := i + 1;
    }
    ok := true;
  }

  lemma ShowsMore(was: seq<byte>, now: seq<byte>, data: seq<byte>, ps: seq<Phdr>, i: nat, lo: nat)
    requires i < |ps| && AllCopyable(ps, i, |data|) && Copyable(ps[i], |data|, High(ps, |ps|)) && |was| == |now|
    requires Shows(was, data, ps, i, lo)
    requires forall x :: 0 <= x < |now| ==> now[x] == if ps[i].Covers(lo + x) then data[ps[i].offset + (lo + x - ps[i].vaddr)] else was[x]
    ensures AllCopyable(ps, i + 1, |data|) && Shows(now, data, ps, i + 1, lo)
  {
    hide High;
    forall x | 0 <= x < |now|
      ensures now[x] == ByteAt(data, ps, i + 1, lo + x)
    {
      assert was[x] == ByteAt(data, ps, i, lo + x);
    }
  }

  /** A loaded program: where its memory is, what is in it, and where it starts. */
  datatype Image = Image(mem: nat, bytes: seq<byte>, entry: nat)

  /** The image of a file: it has at every address of the span what the last segment covering it says and
      zero elsewhere, and the entry is the file's, moved along. */
  ghost predicate ImageOf(data: seq<byte>, image: Image)
    requires WideEntries(data) && Accepts(data)
  {
    var ps := Table(data);
    var lo := Low(ps, |ps|);
    && |image.bytes| == High(ps, |ps|) - lo && Shows(image.bytes, data, ps, |ps|, lo)
    && image.entry == image.mem + (ReadEhdr(data).entry - lo)
  }

  /** Loads exactly the files it accepts, into page aligned memory never handed out before. */
  method LoadFromMemory(data: seq<byte>, bump: Bump) returns (r: Option<Image>)
    requires |data| < TWO64 && WideEntries(data) && NoWrap(data)
    requires bump.ptr + MAX_USER_IMAGE + 0x4000 < TWO64
    modifies bump
    ensures r.Some? <==> Accepts(data)
    ensures r.Some? ==>
              && ImageOf(data, r.value) && r.value.mem <= r.value.entry < r.value.mem + |r.value.bytes|
              && r.value.mem % 0x1000 == 0 && old(bump.ptr) <= r.value.mem && r.value.mem + |r.value.bytes| <= bump.ptr
  {
    if !HasTable(data) {
      return None;
    }
    var h := ReadEhdr(data);
    var ps := Table(data);
    var lo, hi := Span(ps);
    if lo == TWO64 - 1 || hi <= lo || hi - lo > MAX_USER_IMAGE {
      return None;
    }
    var total := hi - lo;
    var mem := bump.Alloc(total, 0x1000);
    var image := new byte[total](_ => 0);
    hide Low, High, HasTable, Table, WideEntries, NoWrap, AllCopyable, Shows;
    var ok := CopySegments(image, data, ps, lo);
    if !ok || h.entry < lo || h.entry >= hi {
      return None;
    }
    r := Some(Image(mem, image[..], mem + (h.entry - lo)));
  }

  // --- The file format ------------------------------------------------------------------------

  lemma ReadsWords(b: seq<byte>)
    ensures |b| == 2 ==> LittleEndian(b) == Word16(b)
    ensures |b| == 4 ==> LittleEndian(b) == Word32(b)
    ensures |b| == 8 ==> LittleEndian(b) == Word64(b)
  {
    LittleEndianWords(b);
    if |b| == 8 {
      LittleEndian32(b);
      LittleEndian32(b[4..]);
      assert b[4..][..4] == b[4..] && b[4..][4..] == [];
    }
  }

  /** An executable: its entry point, and its program headers with their place and distance. */
  datatype Executable = Executable(entry: nat, phoff: nat, phentsize: nat, ps: seq<Phdr>)

  /** The fields of a program header at `at`, as the ELF-64 format places them. */
  predicate IsPhdr(data: seq<byte>, at: nat, p: Phdr) {
    && at + 56 <= |data|
    && LittleEndian(data[at..at + 4]) == p.kind
    && LittleEndian(data[at + 8..at + 16]) == p.offset
    && LittleEndian(data[at + 16..at + 24]) == p.vaddr
    && LittleEndian(data[at + 32..at + 40]) == p.filesz
    && LittleEndian(data[at + 40..at + 48]) == p.memsz
  }

  /** A file of the ELF-64 format for the executable; the fields that loading does not use are free. */
  ghost predicate IsFile(data: seq<byte>, f: Executable) {
    && |data| >= 64 && data[0] == 0x7F && data[1] == 69 && data[2] == 76 && data[3] == 70
    && LittleEndian(data[24..32]) == f.entry
    && LittleEndian(data[32..40]) == f.phoff != 0
    && LittleEndian(data[54..56]) == f.phentsize >= 56
    && LittleEndian(data[56..58]) == |f.ps| != 0
    && f.phoff + |f.ps| * f.phentsize <= |data| < TWO64
    && forall i :: 0 <= i < |f.ps| ==> IsPhdr(data, f.phoff + i * f.phentsize, f.ps[i])
  }

  lemma PhdrReads(data: seq<byte>, at: nat, p: Phdr)
    requires IsPhdr(data, at, p)
    ensures ReadPhdr(data, at) == p
  {
    ReadsWords(data[at..at + 4]);
    ReadsWords(data[at + 8..at + 16]);
    ReadsWords(data[at + 16..at + 24]);
    ReadsWords(data[at + 32..at + 40]);
    ReadsWords(data[at + 40..at + 48]);
    hide Word32, Word64, LittleEndian;
  }

  lemma EhdrReads(data: seq<byte>, f: Executable)
    requires IsFile(data, f)
    ensures IsElf(data) && ReadEhdr(data) == Ehdr(f.entry, f.phoff, f.phentsize, |f.ps|)
  {
    ReadsWords(data[24..32]);
    ReadsWords(data[32..40]);
    ReadsWords(data[54..56]);
    ReadsWords(data[56..58]);
    hide Word16, Word64, LittleEndian;
  }

  /** Every file of the format is read as what it describes. */
  lemma FileReads(data: seq<byte>, f: Executable)
    requires IsFile(data, f)
    ensures HasTable(data) && WideEntries(data) && ReadEhdr(data).entry == f.entry && Table(data) == f.ps
  {
    EhdrReads(data, f);
    TableFits(ReadEhdr(data));
    hide ReadEhdr, IsElf, LittleEndian, IsPhdr, Segments;
    SegmentsRead(data, f.phoff, f.phentsize, f.ps);
  }

  lemma SegmentsRead(data: seq<byte>, at: nat, step: nat, ps: seq<Phdr>)
    requires |ps| > 0 ==> at + (|ps| - 1) * step + PHDR_SIZE <= |data|
    requires forall i :: 0 <= i < |ps| ==> IsPhdr(data, at + i * step, ps[i])
    ensures Segments(data, at, step, |ps|) == ps
  {
    hide IsPhdr, ReadPhdr;
    forall i | 0 <= i < |ps|
      ensures Segments(data, at, step, |ps|)[i] == ps[i]
    {
      PlaceInTable(at, step, i, |ps|);
      PhdrReads(data, at + i * step, ps[i]);
    }
  }

  // --- What is loaded -------------------------------------------------------------------------

  /** `lo` is the lowest start and `hi` the highest end of the loadable segments, of which there is one. */
  ghost predicate Spans(ps: seq<Phdr>, lo: nat, hi: nat) {
    && (exists i :: 0 <= i < |ps| && ps[i].kind == 1 && ps[i].vaddr == lo)
    && (exists i :: 0 <= i < |ps| && ps[i].kind == 1 && ps[i].vaddr + ps[i].memsz == hi)
    && (forall i :: 0 <= i < |ps| && ps[i].kind == 1 ==> lo <= ps[i].vaddr && ps[i].vaddr + ps[i].memsz <= hi)
  }

  /** The sums over loadable segments fit 64 bits. */
  predicate SumsFit(ps: seq<Phdr>) {
    forall i :: 0 <= i < |ps| && ps[i].kind == 1 ==> ps[i].vaddr + ps[i].memsz < TWO64 && ps[i].offset + ps[i].filesz < TWO64
  }

  lemma SpanIs(ps: seq<Phdr>, lo: nat, hi: nat)
    requires Spans(ps, lo, hi) && SumsFit(ps)
    ensures Low(ps, |ps|) == lo && High(ps, |ps|) == hi
  {
  }

  /** A file of the format is accepted exactly when its segments span at most 64 MiB, have their bytes in the
      file and end inside the span, and the entry point is in it. */
  lemma FileAccepted(data: seq<byte>, f: Executable, lo: nat, hi: nat)
    requires IsFile(data, f) && SumsFit(f.ps) && Spans(f.ps, lo, hi)
    ensures WideEntries(data) && NoWrap(data)
    ensures Accepts(data) <==>
            && lo < hi <= lo + 0x400_0000 && lo <= f.entry < hi
            && forall i :: 0 <= i < |f.ps| && f.ps[i].kind == 1 ==>
                 f.ps[i].offset + f.ps[i].filesz <= |data| && f.ps[i].vaddr + f.ps[i].filesz <= hi
  {
    FileSums(data, f);
    FileReads(data, f);
    SpanIs(f.ps, lo, hi);
    hide Table, HasTable, WideEntries, NoWrap, ReadEhdr, Low, High, IsFile, Spans;
    assert SumsFit(f.ps);
  }

  lemma FileSums(data: seq<byte>, f: Executable)
    requires IsFile(data, f) && SumsFit(f.ps)
    ensures WideEntries(data) && NoWrap(data)
  {
    FileReads(data, f);
    EhdrReads(data, f);
    hide Table, HasTable, ReadEhdr, IsPhdr, LittleEndian;
  }

  /** A file without loadable segments is not. */
  lemma NothingToLoad(data: seq<byte>, f: Executable)
    requires IsFile(data, f) && forall i :: 0 <= i < |f.ps| ==> f.ps[i].kind != 1
    ensures WideEntries(data) && NoWrap(data) && !Accepts(data)
  {
    FileReads(data, f);
    FileSums(data, f);
    hide Table, HasTable, WideEntries, NoWrap, ReadEhdr, IsFile;
  }

  /** What its image is: as long as the span, with the entry as far from the start as in the file, and at every
      address the byte of the last segment `k` that has one there, or zero if none has (`k` is then the
      number of segments). */
  lemma FileLoaded(data: seq<byte>, f: Executable, lo: nat, hi: nat, image: Image, a: nat, k: nat)
    requires IsFile(data, f) && SumsFit(f.ps) && Spans(f.ps, lo, hi) && WideEntries(data) && Accepts(data) && ImageOf(data, image)
    requires lo <= a < hi && k <= |f.ps|
    requires k < |f.ps| ==> f.ps[k].kind == 1 && f.ps[k].vaddr <= a < f.ps[k].vaddr + f.ps[k].filesz
    requires forall i :: (if k < |f.ps| then k + 1 else 0) <= i < |f.ps| && f.ps[i].kind == 1 ==>
               !(f.ps[i].vaddr <= a < f.ps[i].vaddr + f.ps[i].filesz)
    ensures |image.bytes| == hi - lo && image.entry - image.mem == f.entry - lo
    ensures k == |f.ps| ==> image.bytes[a - lo] == 0
    ensures k < |f.ps| ==> f.ps[k].offset + (a - f.ps[k].vaddr) < |data| &&
                             image.bytes[a - lo] == data[f.ps[k].offset + (a - f.ps[k].vaddr)]
  {
    hide *;
    ImageShows(data, f, lo, hi, image);
    ShownByte(data, f.ps, lo, image.bytes, a, k);
  }

  lemma ImageShows(data: seq<byte>, f: Executable, lo: nat, hi: nat, image: Image)
    requires IsFile(data, f) && SumsFit(f.ps) && Spans(f.ps, lo, hi) && WideEntries(data) && Accepts(data) && ImageOf(data, image)
    ensures |image.bytes| == hi - lo && image.entry - image.mem == f.entry - lo
    ensures AllCopyable(f.ps, |f.ps|, |data|) && Shows(image.bytes, data, f.ps, |f.ps|, lo)
  {
    FileReads(data, f);
    SpanIs(f.ps, lo, hi);
    hide Table, HasTable, WideEntries, ReadEhdr, Low, High, Spans, IsFile, Shows, AllCopyable;
  }

  lemma ShownByte(data: seq<byte>, ps: seq<Phdr>, lo: nat, bytes: seq<byte>, a: nat, k: nat)
    requires AllCopyable(ps, |ps|, |data|) && Shows(bytes, data, ps, |ps|, lo) && lo <= a < lo + |bytes| && k <= |ps|
    requires k < |ps| ==> ps[k].kind == 1 && ps[k].vaddr <= a < ps[k].vaddr + ps[k].filesz
    requires forall i :: (if k < |ps| then k + 1 else 0) <= i < |ps| && ps[i].kind == 1 ==>
               !(ps[i].vaddr <= a < ps[i].vaddr + ps[i].filesz)
    ensures k == |ps| ==> bytes[a - lo] == 0
    ensures k < |ps| ==> ps[k].offset + (a - ps[k].vaddr) < |data| && bytes[a - lo] == data[ps[k].offset + (a - ps[k].vaddr)]
  {
    hide High;
    LastCoverWins(data, ps, |ps|, a, k);
    assert bytes[a - lo] == ByteAt(data, ps, |ps|, lo + (a - lo));
  }
}
