/** The kernel heap as it lies in memory: a linked free list threaded through block headers, and the
    page bump allocator behind it; proved to do what the model of the heap does. */
module KernelHeap {
  import opened Bytes
  import opened HeapModel

  const STATIC_HEAP: nat := 0x100000  // bytes

  /** Header at the start of every block; `next` means something while the block is free. */
  datatype Header = Header(size: nat, next: nat)

  type Memory = map<nat, Header>

  /** Address of free block `j`, null past the end. */
  function AddrAt(free: seq<Block>, j: nat): (a: nat) {
    if j < |free| then free[j].addr else 0
  }

  ghost predicate Node(mem: Memory, free: seq<Block>, j: nat)
    requires j < |free|
  {
    free[j].addr in mem && mem[free[j].addr] == Header(free[j].size, AddrAt(free, j + 1))
  }

  /** Following the links from `head` visits exactly the blocks of `free`, in order. */
  ghost predicate Listed(mem: Memory, head: nat, free: seq<Block>) {
    head == AddrAt(free, 0) && forall j: nat :: j < |free| ==> Node(mem, free, j)
  }

  ghost predicate LiveHeaders(mem: Memory, live: seq<Live>) {
    forall k :: 0 <= k < |live| ==> live[k].block.addr in mem && mem[live[k].block.addr].size == live[k].block.size
  }

  ghost predicate DistinctBlocks(h: Heap) {
    && (forall i, j :: 0 <= i < j < |h.free| ==> h.free[i].addr != h.free[j].addr)
    && (forall i, k :: 0 <= i < |h.free| && 0 <= k < |h.live| ==> h.free[i].addr != h.live[k].block.addr)
    && (forall i :: 0 <= i < |h.free| ==> h.free[i].addr > 0)
  }

  lemma Distinct(h: Heap)
    requires Conserved(h)
    ensures DistinctBlocks(h)
  {
    assert forall i :: 0 <= i < |h.free| ==> Sized(h.free[i]);
    forall i, j | 0 <= i < j < |h.free|
      ensures h.free[i].addr != h.free[j].addr
    {
      BlocksDisjoint(h, i, j, h.free[i].addr);
    }
    forall i, k | 0 <= i < |h.free| && 0 <= k < |h.live|
      ensures h.free[i].addr != h.live[k].block.addr
    {
      assert Sized(h.live[k].block);
      BlocksDisjoint(h, i, k, h.free[i].addr);
    }
  }

  lemma SoundDistinct(s: System)
    requires Sound(s)
    ensures DistinctBlocks(s.heap)
  {
    Distinct(s.heap);
  }

  /** No other header lies inside free block `i`. */
  lemma InsideFree(h: Heap, i: nat, a: nat)
    requires Conserved(h) && i < |h.free| && h.free[i].addr < a < h.free[i].End()
    ensures forall j :: 0 <= j < |h.free| ==> h.free[j].addr != a
    ensures forall k :: 0 <= k < |h.live| ==> h.live[k].block.addr != a
  {
    forall j | 0 <= j < |h.free|
      ensures h.free[j].addr != a
    {
      assert Sized(h.free[j]);
      BlocksDisjoint(h, i, j, a);
      BlocksDisjoint(h, j, i, a);
    }
    forall k | 0 <= k < |h.live|
      ensures h.live[k].block.addr != a
    {
      assert Sized(h.live[k].block);
      BlocksDisjoint(h, i, k, a);
    }
  }

  /** Blocks `lo..hi` of the list are replaced by `m`: its header is written and the block before it,
      or the head, is pointed at it. */
  lemma SpliceListed(mem: Memory, head: nat, free: seq<Block>, lo: nat, m: Block, hi: nat, mem': Memory, head': nat)
    requires lo <= hi <= |free| && Listed(mem, head, free)
    requires forall j :: (0 <= j < lo - 1 || hi <= j < |free|) && free[j].addr in mem ==> free[j].addr in mem' && mem'[free[j].addr] == mem[free[j].addr]
    requires lo > 0 ==> free[lo - 1].addr in mem' && mem'[free[lo - 1].addr] == Header(free[lo - 1].size, m.addr) && head' == head
    requires lo == 0 ==> head' == m.addr
    requires m.addr in mem' && mem'[m.addr] == Header(m.size, AddrAt(free, hi))
    ensures Listed(mem', head', free[..lo] + [m] + free[hi..])
  {
    var r := free[..lo] + [m] + free[hi..];
    forall j: nat | j < |r|
      ensures Node(mem', r, j)
    {
      if j > lo {
        var k: nat := hi + (j - lo - 1);
        assert Node(mem, free, k);
        assert r[j] == free[k] && AddrAt(r, j + 1) == AddrAt(free, k + 1);
      } else if j < lo {
        assert Node(mem, free, j);
      }
    }
  }

  /** Block `i` leaves the list. */
  lemma UnlinkListed(mem: Memory, head: nat, free: seq<Block>, i: nat, mem': Memory, head': nat)
    requires i < |free| && Listed(mem, head, free)
    requires forall j :: 0 <= j < |free| && j != i && j != i - 1 && free[j].addr in mem ==> free[j].addr in mem' && mem'[free[j].addr] == mem[free[j].addr]
    requires i > 0 ==> free[i - 1].addr in mem' && mem'[free[i - 1].addr] == Header(free[i - 1].size, AddrAt(free, i + 1)) && head' == head
    requires i == 0 ==> head' == AddrAt(free, 1)
    ensures Listed(mem', head', free[..i] + free[i + 1..])
  {
    var r := free[..i] + free[i + 1..];
    forall j: nat | j < |r|
      ensures Node(mem', r, j)
    {
      var k: nat := if j < i then j else j + 1;
      assert Node(mem, free, k);
      assert r[j] == free[k];
      assert j != i - 1 ==> AddrAt(r, j + 1) == AddrAt(free, k + 1);
    }
  }

  /** `next` of the block before, or the head of the list, set to `to`. */
  function Relinked(mem: Memory, prev: nat, to: nat): (mem': Memory)
    requires prev != 0 ==> prev in mem
  {
    if prev == 0 then mem else mem[prev := mem[prev].(next := to)]
  }

  /** Memory and list head after a block of `size` bytes is taken from the free block at `cur`. */
  function Carved(mem: Memory, prev: nat, cur: nat, size: nat): (mem': Memory)
    requires cur in mem && mem[cur].size >= size && (prev != 0 ==> prev in mem)
  {
    if mem[cur].size >= size + (HEADER + 16) then
      Relinked(mem[cur + size := Header(mem[cur].size - size, mem[cur].next)][cur := Header(size, mem[cur].next)], prev, cur + size)
    else Relinked(mem, prev, mem[cur].next)
  }

  function CarvedHead(mem: Memory, head: nat, prev: nat, cur: nat, size: nat): (head': nat)
    requires cur in mem
  {
    if prev != 0 then head
    else if mem[cur].size >= size + (HEADER + 16) then cur + size else mem[cur].next
  }

  ghost predicate Represents(mem: Memory, head: nat, h: Heap) {
    Listed(mem, head, h.free) && LiveHeaders(mem, h.live)
  }

  ghost predicate DistinctAddrs(free: seq<Block>) {
    && (forall i, j :: 0 <= i < j < |free| ==> free[i].addr != free[j].addr)
    && (forall i :: 0 <= i < |free| ==> free[i].addr > 0)
  }

  lemma CarvedSplit(mem: Memory, head: nat, free: seq<Block>, i: nat, prev: nat, size: nat)
    requires Listed(mem, head, free) && DistinctAddrs(free) && i < |free| && Splits(free[i], size) && size > 0
    requires forall j :: 0 <= j < |free| ==> free[j].addr != free[i].addr + size
    requires prev == if i == 0 then 0 else free[i - 1].addr
    requires free[i].addr in mem && mem[free[i].addr] == Header(free[i].size, AddrAt(free, i + 1)) && (prev != 0 ==> prev in mem)
    ensures Listed(Carved(mem, prev, free[i].addr, size), CarvedHead(mem, head, prev, free[i].addr, size), FreeAfter(free, i, size))
  {
    var b := free[i];
    assert i > 0 ==> Node(mem, free, i - 1);
    var m := Block(b.addr + size, b.size - size);
    var mem' := Carved(mem, prev, b.addr, size);
    var head' := CarvedHead(mem, head, prev, b.addr, size);
    assert FreeAfter(free, i, size) == free[..i] + [m] + free[i + 1..];
    hide Listed;
    SpliceListed(mem, head, free, i, m, i + 1, mem', head');
  }

  lemma CarvedWhole(mem: Memory, head: nat, free: seq<Block>, i: nat, prev: nat, size: nat)
    requires Listed(mem, head, free) && DistinctAddrs(free) && i < |free| && !Splits(free[i], size) && free[i].size >= size
    requires prev == if i == 0 then 0 else free[i - 1].addr
    requires free[i].addr in mem && mem[free[i].addr] == Header(free[i].size, AddrAt(free, i + 1)) && (prev != 0 ==> prev in mem)
    ensures Listed(Carved(mem, prev, free[i].addr, size), CarvedHead(mem, head, prev, free[i].addr, size), FreeAfter(free, i, size))
  {
    assert i > 0 ==> Node(mem, free, i - 1);
    hide Listed;
    UnlinkListed(mem, head, free, i, Carved(mem, prev, free[i].addr, size), CarvedHead(mem, head, prev, free[i].addr, size));
  }

  lemma CarvedLive(mem: Memory, h: Heap, i: nat, prev: nat, size: nat, request: nat)
    requires DistinctBlocks(h) && LiveHeaders(mem, h.live) && i < |h.free| && h.free[i].size >= size > 0
    requires Splits(h.free[i], size) ==> forall k :: 0 <= k < |h.live| ==> h.live[k].block.addr != h.free[i].addr + size
    requires prev == if i == 0 then 0 else h.free[i - 1].addr
    requires h.free[i].addr in mem && mem[h.free[i].addr].size == h.free[i].size && (prev != 0 ==> prev in mem)
    ensures LiveHeaders(Carved(mem, prev, h.free[i].addr, size), Allocated(h, i, size, request).live)
  {
    var mem' := Carved(mem, prev, h.free[i].addr, size);
    var live' := Allocated(h, i, size, request).live;
    assert live' == h.live + [Live(Taken(h.free[i], size), request)];
    forall k | 0 <= k < |h.live|
      ensures h.live[k].block.addr in mem' && mem'[h.live[k].block.addr].size == h.live[k].block.size
    {
      assert i > 0 ==> h.free[i - 1].addr != h.live[k].block.addr;
    }
  }

  /** Taking a block in memory does what taking it does in the model. */
  lemma CarvedRepresents(mem: Memory, head: nat, h: Heap, i: nat, prev: nat, size: nat, request: nat)
    requires Conserved(h) && Represents(mem, head, h) && i < |h.free| && h.free[i].size >= size > 0
    requires prev == if i == 0 then 0 else h.free[i - 1].addr
    ensures h.free[i].addr in mem && mem[h.free[i].addr].size == h.free[i].size && (prev != 0 ==> prev in mem)
    ensures Represents(Carved(mem, prev, h.free[i].addr, size), CarvedHead(mem, head, prev, h.free[i].addr, size), Allocated(h, i, size, request))
  {
    Distinct(h);
    assert DistinctAddrs(h.free);
    if Splits(h.free[i], size) {
      InsideFree(h, i, h.free[i].addr + size);
    }
    assert Node(mem, h.free, i);
    assert i > 0 ==> Node(mem, h.free, i - 1);
    hide Conserved, Carved, CarvedHead, Listed, LiveHeaders, DistinctBlocks, DistinctAddrs, FreeAfter;
    CarvedLive(mem, h, i, prev, size, request);
    if Splits(h.free[i], size) {
      CarvedSplit(mem, head, h.free, i, prev, size);
    } else {
      CarvedWhole(mem, head, h.free, i, prev, size);
    }
  }

  /** Memory after the block at `b` is put between `prev` and `cur` and merged with those it touches. */
  function Merge(mem: Memory, prev: nat, cur: nat, b: nat): (mem': Memory)
    requires b in mem && (prev != 0 ==> prev in mem) && (cur != 0 ==> cur in mem)
  {
    var left := prev != 0 && prev + mem[prev].size == b;
    var blk := if left then prev else b;
    var size := if left then mem[prev].size + mem[b].size else mem[b].size;
    var linked := if left then mem else Relinked(mem, prev, b);
    if cur != 0 && blk + size == cur then linked[blk := Header(size + mem[cur].size, mem[cur].next)]
    else linked[blk := Header(size, cur)]
  }

  lemma MergeListed(mem: Memory, head: nat, free: seq<Block>, i: nat, prev: nat, b: Block)
    requires Listed(mem, head, free) && DistinctAddrs(free) && i <= |free|
    requires forall j :: 0 <= j < |free| ==> free[j].addr != b.addr
    requires prev == if i == 0 then 0 else free[i - 1].addr
    requires b.addr in mem && mem[b.addr].size == b.size
    requires i > 0 ==> prev in mem && mem[prev] == Header(free[i - 1].size, AddrAt(free, i))
    requires i < |free| ==> free[i].addr in mem && mem[free[i].addr] == Header(free[i].size, AddrAt(free, i + 1))
    ensures Listed(Merge(mem, prev, AddrAt(free, i), b.addr), if prev == 0 then b.addr else head, Inserted(free, i, b))
  {
    var lo: nat := if JoinsLeft(free, i, b) then i - 1 else i;
    var hi: nat := if JoinsRight(free, i, b) then i + 1 else i;
    assert 0 < lo < i ==> Node(mem, free, lo - 1);
    var mem' := Merge(mem, prev, AddrAt(free, i), b.addr);
    var m := Merged(free, i, b);
    var head' := if prev == 0 then b.addr else head;
    assert lo == 0 ==> head' == m.addr by {
      assert Listed(mem, head, free);
    }
    hide Listed;
    assert m.addr in mem' && mem'[m.addr] == Header(m.size, AddrAt(free, hi));
    assert lo > 0 ==> free[lo - 1].addr in mem' && mem'[free[lo - 1].addr] == Header(free[lo - 1].size, m.addr);
    MergeElsewhere(mem, free, i, prev, b);
    hide Merge, Merged, JoinsLeft, JoinsRight;
    SpliceListed(mem, head, free, lo, m, hi, mem', head');
  }

  lemma MergeElsewhere(mem: Memory, free: seq<Block>, i: nat, prev: nat, b: Block)
    requires DistinctAddrs(free) && i <= |free|
    requires forall j :: 0 <= j < |free| ==> free[j].addr != b.addr
    requires prev == if i == 0 then 0 else free[i - 1].addr
    requires b.addr in mem && (i > 0 ==> prev in mem) && (i < |free| ==> free[i].addr in mem)
    ensures forall j :: 0 <= j < |free| && j != i - 1 && free[j].addr in mem ==>
              var mem' := Merge(mem, prev, AddrAt(free, i), b.addr);
              free[j].addr in mem' && mem'[free[j].addr] == mem[free[j].addr]
  {
    forall j | 0 <= j < |free| && j != i - 1 && free[j].addr in mem
      ensures var mem' := Merge(mem, prev, AddrAt(free, i), b.addr);
              free[j].addr in mem' && mem'[free[j].addr] == mem[free[j].addr]
    {
      assert i > 0 ==> free[j].addr != free[i - 1].addr;
    }
  }

  lemma MergeLive(mem: Memory, h: Heap, k: nat, i: nat, prev: nat)
    requires DistinctBlocks(h) && LiveHeaders(mem, h.live) && k < |h.live| && i <= |h.free|
    requires forall j :: 0 <= j < |h.live| && j != k ==> h.live[j].block.addr != h.live[k].block.addr
    requires prev == if i == 0 then 0 else h.free[i - 1].addr
    requires prev != 0 ==> prev in mem
    requires i < |h.free| ==> h.free[i].addr in mem
    ensures LiveHeaders(Merge(mem, prev, AddrAt(h.free, i), h.live[k].block.addr), h.live[..k] + h.live[k + 1..])
  {
    var b := h.live[k].block;
    var mem' := Merge(mem, prev, AddrAt(h.free, i), b.addr);
    forall j | 0 <= j < |h.live| && j != k
      ensures h.live[j].block.addr in mem' && mem'[h.live[j].block.addr].size == h.live[j].block.size
    {
      assert i > 0 ==> h.free[i - 1].addr != h.live[j].block.addr;
    }
    hide Merge;
  }

  lemma DistinctLive(h: Heap, k: nat)
    requires Conserved(h) && k < |h.live|
    ensures forall j :: 0 <= j < |h.live| && j != k ==> h.live[j].block.addr != h.live[k].block.addr
  {
    forall j | 0 <= j < |h.live| && j != k
      ensures h.live[j].block.addr != h.live[k].block.addr
    {
      assert Sized(h.live[j].block) && Sized(h.live[k].block);
      BlocksDisjoint(h, j, k, h.live[j].block.addr);
      BlocksDisjoint(h, k, j, h.live[j].block.addr);
    }
  }

  /** Freeing a block in memory does what freeing it does in the model. */
  lemma MergeRepresents(mem: Memory, head: nat, h: Heap, k: nat, i: nat, prev: nat)
    requires Conserved(h) && Represents(mem, head, h) && k < |h.live|
    requires i == InsertPos(h.free, h.live[k].block.addr)
    requires prev == if i == 0 then 0 else h.free[i - 1].addr
    ensures h.live[k].block.addr in mem && (prev != 0 ==> prev in mem) && (AddrAt(h.free, i) != 0 ==> AddrAt(h.free, i) in mem)
    ensures Represents(Merge(mem, prev, AddrAt(h.free, i), h.live[k].block.addr),
                       if prev == 0 then h.live[k].block.addr else head, Released(h, k))
  {
    Distinct(h);
    DistinctLive(h, k);
    assert DistinctAddrs(h.free);
    assert i > 0 ==> Node(mem, h.free, i - 1);
    assert i < |h.free| ==> Node(mem, h.free, i);
    assert h.live[k].block.addr in mem && mem[h.live[k].block.addr].size == h.live[k].block.size;
    hide Conserved, Merge, Listed, LiveHeaders, DistinctAddrs, InsertPos, Inserted;
    MergeLive(mem, h, k, i, prev);
    MergeListed(mem, head, h.free, i, prev, h.live[k].block);
  }

  /** Pages fresh from the bump allocator: page aligned already, so they start where it stood. */
  lemma FreshPages(ptr: nat, size: nat, addr: nat, ptr': nat)
    requires ptr % PAGE == 0 && size % PAGE == 0
    requires ptr <= addr < ptr + PAGE && addr % PAGE == 0
    requires addr + size <= ptr' < addr + size + PAGE && ptr' % PAGE == 0
    ensures addr == ptr && ptr' == ptr + size
  {
  }

  lemma GrownSum(h: Heap, b: Block)
    ensures Sum(Grown(h, b).given) == Sum(h.given) + b.size
  {
    TallyConcat(h.given, [b], 0);
    TallyOne(b, 0);
  }

  lemma GrownRepresents(mem: Memory, head: nat, s: System, b: Block)
    requires Sound(s) && Represents(mem, head, s.heap) && b.addr == s.bump
    ensures Represents(mem[b.addr := Header(b.size, head)], b.addr, Grown(s.heap, b))
  {
    BlocksUnder(s);
    hide Sound;
    var free' := [b] + s.heap.free;
    SpliceListed(mem, head, s.heap.free, 0, b, 0, mem[b.addr := Header(b.size, head)], b.addr);
    assert s.heap.free[..0] + [b] + s.heap.free[0..] == free';
    assert Grown(s.heap, b).free == free';
  }

  /** All that a free needs: the neighbours are in memory and apart, and the heap stays in step. */
  lemma FreeFacts(mem: Memory, head: nat, s: System, k: nat, i: nat, prev: nat)
    requires Sound(s) && Represents(mem, head, s.heap) && k < |s.heap.live|
    requires i == InsertPos(s.heap.free, s.heap.live[k].block.addr)
    requires prev == if i == 0 then 0 else s.heap.free[i - 1].addr
    ensures var b, cur := s.heap.live[k].block.addr, AddrAt(s.heap.free, i);
            && b in mem && (prev != 0 ==> prev in mem) && (cur != 0 ==> cur in mem)
            && prev != b && cur != b && (prev != 0 ==> prev != cur)
            && Represents(Merge(mem, prev, cur, b), if prev == 0 then b else head, Released(s.heap, k))
            && Sound(s.(heap := Released(s.heap, k)))
            && Step(s, HeapModel.Free(k)) == s.(heap := Released(s.heap, k))
  {
    MergeRepresents(mem, head, s.heap, k, i, prev);
    StepSound(s, HeapModel.Free(k));
    Distinct(s.heap);
    assert Sized(s.heap.live[k].block);
    hide Merge, Conserved, Represents, InsertPos, Inserted, Sound;
  }

  /** The two ways an allocation goes. */
  lemma MallocSteps(s: System, request: nat)
    requires Sound(s) && Feasible(s, request) && request > 0 && s.heap.free != []
    ensures var size := BlockSize(request);
            var i := FirstFit(s.heap.free, size);
            && size % 16 == 0 && size >= MIN_BLOCK && request + HEADER <= size < request + 32
            && (i == |s.heap.free| ==>
                  size <= GrowPages(size) * PAGE && s.bump + GrowPages(size) * PAGE + 2 * PAGE < TWO64)
            && Step(s, HeapModel.Malloc(request)) ==
               if i < |s.heap.free| then s.(heap := Allocated(s.heap, i, size, request))
               else
                 var b := Block(s.bump, GrowPages(size) * PAGE);
                 System(Allocated(Grown(s.heap, b), 0, size, request), b.End())
  {
    BlockSizeFits(request);
    if FirstFit(s.heap.free, BlockSize(request)) == |s.heap.free| {
      GrowPagesEnough(BlockSize(request));
    }
  }

  /** The heap right after its initialisation: one free block, which is the whole region. */
  lemma InitialReady(mem: Memory, b: Block, ptr: nat)
    requires Sized(b) && b.End() <= ptr && ptr % PAGE == 0 && b.addr in mem && mem[b.addr] == Header(b.size, 0)
    ensures var h := Heap([b], [], [b]);
            Sound(System(h, ptr)) && Represents(mem, b.addr, h) && Sum(h.given) == b.size
  {
    OneRegionConserved(b);
    TallyOne(b, 0);
    assert Node(mem, [b], 0);
  }

  lemma StepNothing(s: System, request: nat)
    ensures request == 0 || s.heap.free == [] ==> Step(s, HeapModel.Malloc(request)) == s
  {
  }

  /** The free list is null exactly when no block is free. */
  lemma HeadIsFirst(mem: Memory, head: nat, s: System)
    requires Sound(s) && Represents(mem, head, s.heap)
    ensures head == 0 <==> s.heap.free == []
  {
    Distinct(s.heap);
  }

  method TotalSize(request: nat) returns (total: nat)
    ensures total == BlockSize(request)
  {
    total := (AlignUp(request, 16) + HEADER) % TWO64;
  }

  /** Pages to grow by: enough for the block, and at least four. */
  method PagesFor(total: nat) returns (pages: nat)
    ensures pages == GrowPages(total) >= 4
  {
    pages := AlignUp(total, PAGE) / PAGE;
    if pages == 0 {
      pages := 1;
    }
    if pages < 4 {
      pages := 4;
    }
  }

  // --- The allocators -------------------------------------------------------------------------

  /** Page bump allocator: hands out addresses from `ptr` upwards and never takes any back. */
  class Bump {
    var ptr: nat

    constructor (kernelEnd: nat)
      requires kernelEnd + PAGE <= TWO64
      ensures kernelEnd <= ptr < kernelEnd + PAGE && ptr % PAGE == 0
    {
      ptr := AlignUp(kernelEnd, PAGE);
      AlignUpExact(kernelEnd, PAGE);
    }

    /** Aligned, above everything handed out before, and the next allocation starts above it. */
    method Alloc(size: nat, align: nat) returns (addr: nat)
      requires ptr + align + size + PAGE < TWO64
      modifies this
      ensures old(ptr) <= addr && (align > 0 ==> addr < old(ptr) + align && addr % align == 0) && (align == 0 ==> addr == old(ptr))
      ensures addr + size <= ptr < addr + size + PAGE && ptr % PAGE == 0
    {
      var a := if align != 0 then align else 1;
      addr := AlignUp(ptr, a);
      AlignUpExact(ptr, a);
      ptr := AlignUp(addr + size, PAGE);
      AlignUpExact(addr + size, PAGE);
    }
  }

  class Allocator {
    const bump: Bump
    const staticHeap: nat
    var freeList: nat
    var heapStart: nat
    var heapSize: nat
    var mem: Memory
    ghost var model: Heap

    ghost function State(): (s: System)
      reads this, bump
    {
      System(model, bump.ptr)
    }

    ghost predicate Valid()
      reads this, bump
    {
      Sound(State()) && Represents(mem, freeList, model) && heapSize == Sum(model.given)
    }

    /** The static buffer lies in the kernel image, below the pages the bump allocator gives out. */
    constructor (bump: Bump, staticHeap: nat)
      requires staticHeap > 0 && staticHeap + STATIC_HEAP <= bump.ptr && bump.ptr % PAGE == 0
      ensures Valid() && this.bump == bump && this.staticHeap == staticHeap && heapStart == 0
      ensures model == Heap([], [], [])
    {
      this.bump, this.staticHeap := bump, staticHeap;
      freeList, heapStart, heapSize, mem := 0, 0, 0, map[];
      model := Heap([], [], []);
      new;
      assert BlocksOf([]) == [];
    }

    /** The first call makes the static buffer, up to the size asked for, one free block; later calls do
        nothing. Asking for nothing (or wrapping to it) makes a block too small to be one. */
    method Init(size: nat)
      requires size < TWO64
      requires Valid() && (heapStart == 0 ==> model == Heap([], [], []))
      requires staticHeap > 0 && staticHeap + STATIC_HEAP <= bump.ptr
      modifies this
      ensures old(heapStart) != 0 ==> model == old(model) && mem == old(mem) && freeList == old(freeList) && Valid()
      ensures old(heapStart) == 0 ==>
                var b := Block(staticHeap, InitialSize(size));
                model == Heap([b], [], [b]) && freeList == staticHeap && heapSize == InitialSize(size)
      ensures heapStart == if old(heapStart) != 0 then old(heapStart) else staticHeap
      ensures old(heapStart) == 0 && InitialSize(size) > 0 ==> Valid()
    {
      InitialExact(size);
      assert bump.ptr % PAGE == 0;
      hide Sound, Represents, Sum;
      if heapStart != 0 {
        return;
      }
      var allocSize := AlignUp(size, PAGE);
      if allocSize > STATIC_HEAP {
        allocSize := STATIC_HEAP;
      }
      heapStart := staticHeap;
      heapSize := allocSize;
      freeList := heapStart;
      mem := mem[freeList := Header(heapSize, 0)];
      ghost var b := Block(staticHeap, allocSize);
      model := Heap([b], [], [b]);
      if allocSize > 0 {
        InitialReady(mem, b, bump.ptr);
      }
    }

    /** Fresh pages are put at the head of the free list. */
    method GrowHeap(pages: nat)
      requires Valid() && pages > 0 && bump.ptr + pages * PAGE + 2 * PAGE < TWO64
      modifies this, bump
      ensures Valid() && heapStart == old(heapStart)
      ensures bump.ptr == old(bump.ptr) + pages * PAGE
      ensures model == Grown(old(model), Block(old(bump.ptr), pages * PAGE))
    {
      ghost var s := State();
      assert s.bump % PAGE == 0;
      hide Sound, Represents, Sum, Grown;
      var growSize := pages * PAGE;
      var blk := bump.Alloc(growSize, PAGE);
      FreshPages(s.bump, growSize, blk, bump.ptr);
      GrowSound(s, growSize);
      ghost var b := Block(blk, growSize);
      GrownSum(model, b);
      GrownRepresents(mem, freeList, s, b);
      mem := mem[blk := Header(growSize, freeList)];
      freeList := blk;
      heapSize := heapSize + growSize;
      model := Grown(model, b);
    }

    /** First block of the free list that is large enough, and the one before it. */
    method FindFit(total: nat) returns (prev: nat, cur: nat, ghost i: nat)
      requires Valid()
      ensures i == FirstFit(model.free, total) && cur == AddrAt(model.free, i)
      ensures prev == if i == 0 then 0 else model.free[i - 1].addr
      ensures i < |model.free| ==> cur in mem && mem[cur].size == model.free[i].size
      ensures cur == 0 <==> i == |model.free|
    {
      hide Sound, FirstFit, LiveHeaders, Sum;
      SoundDistinct(State());
      prev, cur, i := 0, freeList, 0;
      while cur != 0
        invariant i <= |model.free| && cur == AddrAt(model.free, i)
        invariant prev == if i == 0 then 0 else model.free[i - 1].addr
        invariant forall k :: 0 <= k < i ==> model.free[k].size < total
        decreases |model.free| - i
      {
        assert Node(mem, model.free, i);
        if mem[cur].size >= total {
          FitUnique(model.free, total, i);
          return;
        }
        prev := cur;
        cur := mem[cur].next;
        i := i + 1;
      }
      FitUnique(model.free, total, i);
    }

    method Carve(prev: nat, cur: nat, total: nat)
      requires cur in mem && mem[cur].size >= total > 0 && prev != cur && (prev != 0 ==> prev in mem)
      modifies this`mem, this`freeList
      ensures mem == Carved(old(mem), prev, cur, total) && freeList == CarvedHead(old(mem), old(freeList), prev, cur, total)
    {
      var next;
      if mem[cur].size >= total + (HEADER + 16) {
        next := cur + total;
        mem := mem[next := Header(mem[cur].size - total, mem[cur].next)];
        mem := mem[cur := mem[cur].(size := total)];
      } else {
        next := mem[cur].next;
      }
      if prev != 0 {
        mem := mem[prev := mem[prev].(next := next)];
      } else {
        freeList := next;
      }
    }

    /** One pass over the free list: null when nothing fits, else the payload of the block taken. */
    method TryTake(total: nat, request: nat) returns (p: nat)
      requires Valid() && total % 16 == 0 && total >= MIN_BLOCK && request + HEADER <= total < request + 32
      modifies this
      ensures Valid() && heapStart == old(heapStart)
      ensures var i := FirstFit(old(model).free, total);
              if i < |old(model).free| then
                model == Allocated(old(model), i, total, request) && p == old(model).free[i].addr + HEADER
              else model == old(model) && p == 0
    {
      var prev, cur, i := FindFit(total);
      if cur == 0 {
        return 0;
      }
      ghost var s := State();
      CarvedRepresents(mem, freeList, model, i, prev, total, request);
      AllocatedConserved(model, i, total, request);
      Distinct(model);
      Carve(prev, cur, total);
      model := Allocated(model, i, total, request);
      p := cur + HEADER;
    }

    /** First fit, growing once when nothing fits. The result is null exactly when nothing was asked for
        or the free list is empty; otherwise it points past the header of the block the model hands out. */
    method Malloc(request: nat) returns (p: nat)
      requires Valid() && Feasible(State(), request)
      modifies this, bump
      ensures Valid() && heapStart == old(heapStart)
      ensures State() == Step(old(State()), HeapModel.Malloc(request))
      ensures p == 0 <==> request == 0 || old(model.free) == []
      ensures p != 0 ==> |model.live| == |old(model.live)| + 1 && p == model.live[|old(model.live)|].block.addr + HEADER
    {
      hide FirstFit, FreeAfter, Sound, Represents, BlockSize, Step, GrowPages, AlignUp, Feasible, Sum;
      HeadIsFirst(mem, freeList, State());
      StepNothing(State(), request);
      if freeList == 0 || request == 0 {
        return 0;
      }
      var total := TotalSize(request);
      MallocSteps(State(), request);
      p := TryTake(total, request);
      if p == 0 {
        var pages := PagesFor(total);
        GrowHeap(pages);
        FitUnique(model.free, total, 0);
        p := TryTake(total, request);
      }
    }

    /** Position of a block in the free list by address, and its neighbours there. */
    method FindPlace(blk: nat) returns (prev: nat, cur: nat, ghost i: nat)
      requires Valid()
      ensures i == InsertPos(model.free, blk) && cur == AddrAt(model.free, i)
      ensures prev == if i == 0 then 0 else model.free[i - 1].addr
    {
      hide Sound, InsertPos, LiveHeaders, Sum;
      SoundDistinct(State());
      prev, cur, i := 0, freeList, 0;
      while cur != 0 && cur < blk
        invariant i <= |model.free| && cur == AddrAt(model.free, i)
        invariant prev == if i == 0 then 0 else model.free[i - 1].addr
        invariant forall k :: 0 <= k < i ==> model.free[k].addr < blk
        decreases |model.free| - i
      {
        assert Node(mem, model.free, i);
        prev := cur;
        cur := mem[cur].next;
        i := i + 1;
      }
      PosUnique(model.free, blk, i);
    }

    method Coalesce(prev: nat, cur: nat, b: nat)
      requires b in mem && (prev != 0 ==> prev in mem) && (cur != 0 ==> cur in mem)
      requires prev != b && cur != b && (prev != 0 ==> prev != cur)
      modifies this`mem, this`freeList
      ensures mem == Merge(old(mem), prev, cur, b) && freeList == if prev == 0 then b else old(freeList)
    {
      var blk := b;
      if prev != 0 {
        if prev + mem[prev].size == blk {
          mem := mem[prev := mem[prev].(size := mem[prev].size + mem[blk].size)];
          blk := prev;
        } else {
          mem := mem[prev := mem[prev].(next := blk)];
        }
      } else {
        freeList := blk;
      }
      if cur != 0 {
        if blk + mem[blk].size == cur {
          mem := mem[blk := Header(mem[blk].size + mem[cur].size, mem[cur].next)];
        } else {
          mem := mem[blk := mem[blk].(next := cur)];
        }
      } else {
        mem := mem[blk := mem[blk].(next := 0)];
      }
    }

    /** Gives back a block that was handed out; null is ignored. */
    method Free(p: nat, ghost k: nat)
      requires Valid() && (p != 0 ==> k < |model.live| && p == model.live[k].block.addr + HEADER)
      modifies this
      ensures Valid() && heapStart == old(heapStart)
      ensures State() == if p == 0 then old(State()) else Step(old(State()), HeapModel.Free(k))
    {
      hide Merge, Sound, Represents, InsertPos, Inserted, Step, Sum;
      if p == 0 {
        return;
      }
      var blk := p - HEADER;
      var prev, cur, i := FindPlace(blk);
      FreeFacts(mem, freeList, State(), k, i, prev);
      Coalesce(prev, cur, blk);
      model := Released(model, k);
    }
  }
}
