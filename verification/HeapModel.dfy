/** The kernel heap on values: first-fit with splitting, address-ordered freeing with coalescing, and
    growth; conservation of the memory given to it and full coalescing. */
module HeapModel {
  import opened Bytes

  const HEADER: nat := 16
  const MIN_BLOCK: nat := 32
  const PAGE: nat := 0x1000

  /** Round up to a multiple of `a`, a power of two, in 64-bit arithmetic. */
  function AlignUp(v: nat, a: nat): (r: nat)
    requires a > 0
  {
    var w := (v + a - 1) % TWO64;
    RemainderBelow(w, a);
    w - w % a
  }

  lemma RemainderBelow(w: nat, a: nat)
    requires a > 0
    ensures w % a <= w
  {
  }

  /** Rounding up is exact when the addition does not wrap. */
  lemma AlignUpExact(v: nat, a: nat)
    requires a > 0 && v + a <= TWO64
    ensures v <= AlignUp(v, a) < v + a && AlignUp(v, a) % a == 0
  {
    var w := v + a - 1;
    assert w % TWO64 == w;
    var q := w / a;
    assert w - w % a == q * a + 0;
    DivUnique(a, q, 0);
  }

  /** Block size for a request: the aligned payload and the header, in 64-bit arithmetic. */
  function BlockSize(request: nat): (r: nat) {
    (AlignUp(request, 16) + HEADER) % TWO64
  }

  /** The block holds the request exactly when the two additions do not wrap. */
  lemma BlockSizeFits(request: nat)
    requires 0 < request < TWO64
    ensures BlockSize(request) >= request + HEADER <==> request <= TWO64 - 32
    ensures request <= TWO64 - 32 ==> BlockSize(request) % 16 == 0 && BlockSize(request) >= MIN_BLOCK
    ensures request <= TWO64 - 32 ==> BlockSize(request) < request + 32
  {
    var v := request + 15;
    if request <= TWO64 - 16 {
      assert v % TWO64 == v;
    }
  }

  datatype Block = Block(addr: nat, size: nat) {
    function End(): nat { addr + size }
  }

  predicate Holds(b: Block, x: nat) {
    b.addr <= x < b.End()
  }

  /** How many of the blocks hold address `x`, and how many bytes they have together. */
  function Count(bs: seq<Block>, x: nat): (n: nat) {
    if bs == [] then 0 else Count(bs[..|bs| - 1], x) + if Holds(bs[|bs| - 1], x) then 1 else 0
  }

  function Sum(bs: seq<Block>): (n: nat) {
    if bs == [] then 0 else Sum(bs[..|bs| - 1]) + bs[|bs| - 1].size
  }

  lemma {:induction false} TallyConcat(a: seq<Block>, b: seq<Block>, x: nat)
    ensures Count(a + b, x) == Count(a, x) + Count(b, x)
    ensures Sum(a + b) == Sum(a) + Sum(b)
  {
    if b == [] {
      assert a + b == a;
    } else {
      var n := |b| - 1;
      assert (a + b)[..|a + b| - 1] == a + b[..n];
      TallyConcat(a, b[..n], x);
    }
  }

  lemma TallyOne(b: Block, x: nat)
    ensures Count([b], x) == if Holds(b, x) then 1 else 0
    ensures Sum([b]) == b.size
  {
    assert [b][..0] == [];
  }

  /** Counting around position `i`. */
  lemma TallySplit(bs: seq<Block>, i: nat, x: nat)
    requires i < |bs|
    ensures Count(bs, x) == Count(bs[..i], x) + (if Holds(bs[i], x) then 1 else 0) + Count(bs[i + 1..], x)
    ensures Sum(bs) == Sum(bs[..i]) + bs[i].size + Sum(bs[i + 1..])
  {
    hide Holds;
    assert bs == bs[..i] + [bs[i]] + bs[i + 1..];
    TallyConcat(bs[..i] + [bs[i]], bs[i + 1..], x);
    TallyConcat(bs[..i], [bs[i]], x);
    TallyOne(bs[i], x);
  }

  /** Two blocks that hold the same address count twice. */
  lemma CountTwo(bs: seq<Block>, i: nat, j: nat, x: nat)
    requires i < j < |bs| && Holds(bs[i], x) && Holds(bs[j], x)
    ensures Count(bs, x) >= 2
  {
    hide Holds;
    TallySplit(bs, j, x);
    TallySplit(bs[..j], i, x);
  }

  lemma CountOne(bs: seq<Block>, i: nat, x: nat)
    requires i < |bs| && Holds(bs[i], x)
    ensures Count(bs, x) >= 1
  {
    hide Holds;
    TallySplit(bs, i, x);
  }

  lemma {:induction false} CountWitness(bs: seq<Block>, x: nat) returns (i: nat)
    requires Count(bs, x) >= 1
    ensures i < |bs| && Holds(bs[i], x)
  {
    var n := |bs| - 1;
    if Holds(bs[n], x) {
      i := n;
    } else {
      i := CountWitness(bs[..n], x);
    }
  }

  /** A block handed out, with the number of bytes asked for. */
  datatype Live = Live(block: Block, request: nat)

  function BlocksOf(live: seq<Live>): (bs: seq<Block>)
    ensures |bs| == |live| && forall i :: 0 <= i < |live| ==> bs[i] == live[i].block
  {
    seq(|live|, i requires 0 <= i < |live| => live[i].block)
  }

  /** Free list in list order, blocks handed out, and the regions given to the heap. */
  datatype Heap = Heap(free: seq<Block>, live: seq<Live>, given: seq<Block>)

  predicate Sized(b: Block) {
    b.size % 16 == 0 && b.size >= MIN_BLOCK && b.addr > 0
  }

  /** The block covers header and request; what rounding and the rule for splitting add stays below 32 bytes. */
  predicate Snug(l: Live) {
    l.request + HEADER <= l.block.size < l.request + HEADER + 32
  }

  /** Every address of the regions given to the heap lies in exactly one block, free or handed out, and
      no other address lies in any; block sizes are multiples of 16 of at least 32 and add up; every
      block covers its header and request, and exceeds the request by less than 48 bytes. */
  ghost predicate Conserved(h: Heap) {
    && (forall i :: 0 <= i < |h.free| ==> Sized(h.free[i]))
    && (forall i :: 0 <= i < |h.live| ==> Sized(h.live[i].block) && Snug(h.live[i]))
    && (forall x: nat :: Count(h.free, x) + Count(BlocksOf(h.live), x) == Count(h.given, x) <= 1)
    && Sum(h.free) + Sum(BlocksOf(h.live)) == Sum(h.given)
  }

  /** Any two different blocks of a conserved heap are disjoint. */
  lemma BlocksDisjoint(h: Heap, i: nat, j: nat, x: nat)
    requires Conserved(h)
    ensures i < j < |h.free| && Holds(h.free[i], x) ==> !Holds(h.free[j], x)
    ensures i < j < |h.live| && Holds(h.live[i].block, x) ==> !Holds(h.live[j].block, x)
    ensures i < |h.free| && j < |h.live| && Holds(h.free[i], x) ==> !Holds(h.live[j].block, x)
  {
    hide Holds, Count, Sum;
    var lb := BlocksOf(h.live);
    assert Count(h.free, x) + Count(lb, x) <= 1;
    if i < j < |h.free| && Holds(h.free[i], x) && Holds(h.free[j], x) {
      CountTwo(h.free, i, j, x);
    }
    if i < j < |h.live| && Holds(lb[i], x) && Holds(lb[j], x) {
      CountTwo(lb, i, j, x);
    }
    if i < |h.free| && j < |h.live| && Holds(h.free[i], x) && Holds(lb[j], x) {
      CountOne(h.free, i, x);
      CountOne(lb, j, x);
    }
  }

  // --- First fit ------------------------------------------------------------------------------

  function FirstFit(free: seq<Block>, size: nat): (i: nat)
    ensures i <= |free|
    ensures i < |free| ==> free[i].size >= size
    ensures forall k :: 0 <= k < i ==> free[k].size < size
  {
    if free == [] then 0 else if free[0].size >= size then 0 else 1 + FirstFit(free[1..], size)
  }

  lemma FitUnique(free: seq<Block>, size: nat, i: nat)
    requires i <= |free| && (i < |free| ==> free[i].size >= size)
    requires forall k :: 0 <= k < i ==> free[k].size < size
    ensures FirstFit(free, size) == i
  {
  }

  /** The block taken from free block `b`, and whether a rest stays behind. */
  predicate Splits(b: Block, size: nat) {
    b.size >= size + (HEADER + 16)
  }

  function Taken(b: Block, size: nat): (t: Block)
    requires b.size >= size
  {
    if Splits(b, size) then Block(b.addr, size) else b
  }

  function FreeAfter(free: seq<Block>, i: nat, size: nat): (r: seq<Block>)
    requires i < |free| && free[i].size >= size
  {
    if Splits(free[i], size) then free[i := Block(free[i].addr + size, free[i].size - size)]
    else free[..i] + free[i + 1..]
  }

  function Allocated(h: Heap, i: nat, size: nat, request: nat): (h': Heap)
    requires i < |h.free| && h.free[i].size >= size
  {
    h.(free := FreeAfter(h.free, i, size), live := h.live + [Live(Taken(h.free[i], size), request)])
  }

  lemma FreeAfterTally(free: seq<Block>, i: nat, size: nat, x: nat)
    requires i < |free| && free[i].size >= size
    ensures Count(FreeAfter(free, i, size), x) + (if Holds(Taken(free[i], size), x) then 1 else 0) == Count(free, x)
    ensures Sum(FreeAfter(free, i, size)) + Taken(free[i], size).size == Sum(free)
  {
    var r := FreeAfter(free, i, size);
    TallySplit(free, i, x);
    if Splits(free[i], size) {
      TallySplit(r, i, x);
      assert r[..i] == free[..i] && r[i + 1..] == free[i + 1..];
    } else {
      TallyConcat(free[..i], free[i + 1..], x);
    }
  }

  lemma LiveAppend(live: seq<Live>, l: Live, x: nat)
    ensures Count(BlocksOf(live + [l]), x) == Count(BlocksOf(live), x) + if Holds(l.block, x) then 1 else 0
    ensures Sum(BlocksOf(live + [l])) == Sum(BlocksOf(live)) + l.block.size
  {
    assert BlocksOf(live + [l]) == BlocksOf(live) + [l.block];
    TallyConcat(BlocksOf(live), [l.block], x);
    TallyOne(l.block, x);
  }

  lemma TakenSnug(b: Block, size: nat, request: nat)
    requires Sized(b) && b.size >= size && size % 16 == 0 && request + HEADER <= size < request + 32
    ensures Snug(Live(Taken(b, size), request))
  {
  }

  /** Taking a block conserves the memory. */
  lemma AllocatedConserved(h: Heap, i: nat, size: nat, request: nat)
    requires Conserved(h) && i < |h.free| && h.free[i].size >= size
    requires size % 16 == 0 && size >= MIN_BLOCK && request + HEADER <= size < request + 32
    ensures Conserved(Allocated(h, i, size, request))
  {
    var h' := Allocated(h, i, size, request);
    var l := Live(Taken(h.free[i], size), request);
    assert forall k :: 0 <= k < |h'.free| ==> Sized(h'.free[k]);
    TakenSnug(h.free[i], size, request);
    hide Count, Sum, FreeAfter, Taken, Holds, Snug;
    forall x: nat
      ensures Count(h'.free, x) + Count(BlocksOf(h'.live), x) == Count(h.given, x) <= 1
    {
      FreeAfterTally(h.free, i, size, x);
      LiveAppend(h.live, l, x);
    }
    FreeAfterTally(h.free, i, size, 0);
    LiveAppend(h.live, l, 0);
  }

  // --- Growth ---------------------------------------------------------------------------------

  /** A fresh region is put in front of the free list. */
  function Grown(h: Heap, b: Block): (h': Heap) {
    h.(free := [b] + h.free, given := h.given + [b])
  }

  lemma GrownConserved(h: Heap, b: Block)
    requires Conserved(h) && Sized(b) && forall x: nat :: Holds(b, x) ==> Count(h.given, x) == 0
    ensures Conserved(Grown(h, b))
  {
    var h' := Grown(h, b);
    hide Count, Sum, Holds;
    forall x: nat
      ensures Count(h'.free, x) + Count(BlocksOf(h'.live), x) == Count(h'.given, x) <= 1
      ensures Sum(h'.free) == Sum(h.free) + b.size && Sum(h'.given) == Sum(h.given) + b.size
    {
      TallyConcat([b], h.free, x);
      TallyConcat(h.given, [b], x);
      TallyOne(b, x);
    }
    TallyConcat([b], h.free, 0);
    TallyConcat(h.given, [b], 0);
    TallyOne(b, 0);
  }

  // --- Freeing --------------------------------------------------------------------------------

  /** Where a freed block is put: before the first block at a higher address. */
  function InsertPos(free: seq<Block>, addr: nat): (i: nat)
    ensures i <= |free|
    ensures i < |free| ==> free[i].addr >= addr
    ensures forall k :: 0 <= k < i ==> free[k].addr < addr
  {
    if free == [] || free[0].addr >= addr then 0 else 1 + InsertPos(free[1..], addr)
  }

  lemma PosUnique(free: seq<Block>, addr: nat, i: nat)
    requires i <= |free| && (i < |free| ==> free[i].addr >= addr)
    requires forall k :: 0 <= k < i ==> free[k].addr < addr
    ensures InsertPos(free, addr) == i
  {
  }

  predicate JoinsLeft(free: seq<Block>, i: nat, b: Block)
    requires i <= |free|
  {
    i > 0 && free[i - 1].End() == b.addr
  }

  predicate JoinsRight(free: seq<Block>, i: nat, b: Block)
    requires i <= |free|
  {
    i < |free| && b.End() == free[i].addr
  }

  /** The freed block, merged with the neighbours it touches. */
  function Merged(free: seq<Block>, i: nat, b: Block): (m: Block)
    requires i <= |free|
  {
    Block(if JoinsLeft(free, i, b) then free[i - 1].addr else b.addr,
          (if JoinsLeft(free, i, b) then free[i - 1].size else 0) + b.size
          + if JoinsRight(free, i, b) then free[i].size else 0)
  }

  function Inserted(free: seq<Block>, i: nat, b: Block): (r: seq<Block>)
    requires i <= |free|
  {
    free[..if JoinsLeft(free, i, b) then i - 1 else i] + [Merged(free, i, b)]
    + free[if JoinsRight(free, i, b) then i + 1 else i..]
  }

  function Released(h: Heap, k: nat): (h': Heap)
    requires k < |h.live|
  {
    var b := h.live[k].block;
    h.(free := Inserted(h.free, InsertPos(h.free, b.addr), b), live := h.live[..k] + h.live[k + 1..])
  }

  /** The merged block has the addresses and the bytes of its parts. */
  lemma MergedParts(free: seq<Block>, i: nat, b: Block, x: nat)
    requires i <= |free|
    ensures var m := Merged(free, i, b);
            var l := if JoinsLeft(free, i, b) then [free[i - 1]] else [];
            var r := if JoinsRight(free, i, b) then [free[i]] else [];
            && Count([m], x) == Count(l, x) + Count([b], x) + Count(r, x)
            && Sum([m]) == Sum(l) + Sum([b]) + Sum(r)
  {
    TallyOne(Merged(free, i, b), x);
    TallyOne(b, x);
    if JoinsLeft(free, i, b) {
      TallyOne(free[i - 1], x);
    }
    if JoinsRight(free, i, b) {
      TallyOne(free[i], x);
    }
  }

  lemma Tally3(a: seq<Block>, b: seq<Block>, c: seq<Block>, x: nat)
    ensures Count(a + b + c, x) == Count(a, x) + Count(b, x) + Count(c, x)
    ensures Sum(a + b + c) == Sum(a) + Sum(b) + Sum(c)
  {
    hide Holds;
    TallyConcat(a + b, c, x);
    TallyConcat(a, b, x);
  }

  /** The list around an insertion: what stays before, the neighbours merged, what stays after. */
  lemma InsertedParts(free: seq<Block>, i: nat, b: Block)
    returns (lo: seq<Block>, l: seq<Block>, r: seq<Block>, hi: seq<Block>)
    requires i <= |free|
    ensures Inserted(free, i, b) == lo + [Merged(free, i, b)] + hi && free == lo + (l + r) + hi
    ensures l == if JoinsLeft(free, i, b) then [free[i - 1]] else []
    ensures r == if JoinsRight(free, i, b) then [free[i]] else []
    ensures lo == free[..|lo|] && hi == free[|free| - |hi|..] && |lo| == i - |l| && |hi| == |free| - i - |r|
  {
    hide Merged;
    lo := free[..if JoinsLeft(free, i, b) then i - 1 else i];
    hi := free[if JoinsRight(free, i, b) then i + 1 else i..];
    l := if JoinsLeft(free, i, b) then [free[i - 1]] else [];
    r := if JoinsRight(free, i, b) then [free[i]] else [];
  }

  lemma InsertedTally(free: seq<Block>, i: nat, b: Block, x: nat)
    requires i <= |free|
    ensures Count(Inserted(free, i, b), x) == Count(free, x) + if Holds(b, x) then 1 else 0
    ensures Sum(Inserted(free, i, b)) == Sum(free) + b.size
  {
    hide Count, Sum, Holds, Inserted, Merged, JoinsLeft, JoinsRight;
    var lo, l, r, hi := InsertedParts(free, i, b);
    MergedParts(free, i, b, x);
    Tally3(lo, [Merged(free, i, b)], hi, x);
    Tally3(lo, l + r, hi, x);
    TallyConcat(l, r, x);
    TallyOne(b, x);
  }

  lemma LiveRemove(live: seq<Live>, k: nat, x: nat)
    requires k < |live|
    ensures Count(BlocksOf(live[..k] + live[k + 1..]), x) + (if Holds(live[k].block, x) then 1 else 0) == Count(BlocksOf(live), x)
    ensures Sum(BlocksOf(live[..k] + live[k + 1..])) + live[k].block.size == Sum(BlocksOf(live))
  {
    var bs := BlocksOf(live);
    assert BlocksOf(live[..k] + live[k + 1..]) == bs[..k] + bs[k + 1..];
    TallySplit(bs, k, x);
    TallyConcat(bs[..k], bs[k + 1..], x);
  }

  lemma InsertedSized(free: seq<Block>, i: nat, b: Block)
    requires i <= |free| && Sized(b) && forall j :: 0 <= j < |free| ==> Sized(free[j])
    ensures forall j :: 0 <= j < |Inserted(free, i, b)| ==> Sized(Inserted(free, i, b)[j])
  {
    assert Sized(Merged(free, i, b)) by {
      assert i > 0 ==> Sized(free[i - 1]);
      assert i < |free| ==> Sized(free[i]);
    }
    hide Sized, Merged;
  }

  /** Freeing a block conserves the memory, sorted list or not. */
  lemma ReleasedConserved(h: Heap, k: nat)
    requires Conserved(h) && k < |h.live|
    ensures Conserved(Released(h, k))
  {
    var h' := Released(h, k);
    var b := h.live[k].block;
    var i := InsertPos(h.free, b.addr);
    InsertedSized(h.free, i, b);
    hide Count, Sum, Holds, Inserted, InsertPos, Sized;
    forall x: nat
      ensures Count(h'.free, x) + Count(BlocksOf(h'.live), x) == Count(h.given, x) <= 1
    {
      InsertedTally(h.free, i, b, x);
      LiveRemove(h.live, k, x);
    }
    InsertedTally(h.free, i, b, 0);
    LiveRemove(h.live, k, 0);
  }

  // --- Coalescing -----------------------------------------------------------------------------

  /** Free blocks in address order, no two touching. */
  ghost predicate Coalesced(free: seq<Block>) {
    forall i, j :: 0 <= i < j < |free| ==> free[i].End() < free[j].addr
  }

  lemma FreeAfterCoalesced(free: seq<Block>, i: nat, size: nat)
    requires Coalesced(free) && i < |free| && free[i].size >= size
    ensures Coalesced(FreeAfter(free, i, size))
  {
  }

  /** The freed block lies between the two free blocks around its position. */
  lemma FreedBetween(h: Heap, k: nat)
    requires Conserved(h) && k < |h.live|
    ensures var b, i := h.live[k].block, InsertPos(h.free, h.live[k].block.addr);
            && (i > 0 ==> h.free[i - 1].End() <= b.addr)
            && (i < |h.free| ==> b.End() <= h.free[i].addr)
  {
    hide InsertPos, Count, Sum;
    var b, i := h.live[k].block, InsertPos(h.free, h.live[k].block.addr);
    assert Sized(b);
    if i > 0 {
      assert Sized(h.free[i - 1]);
      BlocksDisjoint(h, i - 1, k, b.addr);
    }
    if i < |h.free| {
      assert Sized(h.free[i]);
      BlocksDisjoint(h, i, k, h.free[i].addr);
    }
  }

  lemma CoalescedAround(lo: seq<Block>, m: Block, hi: seq<Block>)
    requires Coalesced(lo) && Coalesced(hi)
    requires lo != [] ==> lo[|lo| - 1].End() < m.addr
    requires hi != [] ==> m.End() < hi[0].addr
    ensures Coalesced(lo + [m] + hi)
  {
    var r := lo + [m] + hi;
    forall p, q | 0 <= p < q < |r|
      ensures r[p].End() < r[q].addr
    {
      var n := |lo|;
      assert p < n - 1 ==> lo[p].End() < lo[n - 1].addr;
      assert q > n + 1 ==> hi[0].End() < hi[q - n - 1].addr;
    }
  }

  lemma CoalescedEnds(free: seq<Block>, k: nat, n: nat)
    requires Coalesced(free) && k <= |free| && n <= |free|
    ensures Coalesced(free[..k]) && Coalesced(free[n..])
  {
  }

  /** Gaps remain on both sides of the merged block. */
  lemma MergedGaps(free: seq<Block>, i: nat, b: Block)
    requires Coalesced(free) && i <= |free|
    requires i > 0 ==> free[i - 1].End() <= b.addr
    requires i < |free| ==> b.End() <= free[i].addr
    ensures var k := if JoinsLeft(free, i, b) then i - 1 else i;
            k > 0 ==> free[k - 1].End() < Merged(free, i, b).addr
    ensures var n := if JoinsRight(free, i, b) then i + 1 else i;
            n < |free| ==> Merged(free, i, b).End() < free[n].addr
  {
    assert 1 < i ==> free[i - 2].End() < free[i - 1].addr;
    assert i + 1 < |free| ==> free[i].End() < free[i + 1].addr;
    hide Coalesced;
  }

  lemma InsertedCoalesced(free: seq<Block>, i: nat, b: Block)
    requires Coalesced(free) && i <= |free|
    requires i > 0 ==> free[i - 1].End() <= b.addr
    requires i < |free| ==> b.End() <= free[i].addr
    ensures Coalesced(Inserted(free, i, b))
  {
    var k := if JoinsLeft(free, i, b) then i - 1 else i;
    var n := if JoinsRight(free, i, b) then i + 1 else i;
    assert k >= 0 && n <= |free|;
    hide Coalesced, Merged, JoinsLeft, JoinsRight;
    MergedGaps(free, i, b);
    CoalescedEnds(free, k, n);
    CoalescedAround(free[..k], Merged(free, i, b), free[n..]);
  }

  /** Freeing keeps the list in order with no two blocks touching. */
  lemma ReleasedCoalesced(h: Heap, k: nat)
    requires Conserved(h) && Coalesced(h.free) && k < |h.live|
    ensures Coalesced(Released(h, k).free)
  {
    FreedBetween(h, k);
    hide InsertPos, Inserted, Conserved, Coalesced;
    InsertedCoalesced(h.free, InsertPos(h.free, h.live[k].block.addr), h.live[k].block);
  }

  /** With one region and nothing handed out, a coalesced free list is that region. */
  lemma AllFreeIsInitial(h: Heap, region: Block)
    requires Conserved(h) && Coalesced(h.free) && h.live == [] && h.given == [region] && region.size > 0
    ensures h.free == [region]
  {
    forall x: nat
      ensures Count(h.free, x) == if Holds(region, x) then 1 else 0
    {
      TallyOne(region, x);
      assert BlocksOf(h.live) == [];
    }
    var f := CountWitness(h.free, region.addr);
    hide Count, Sum;
    forall i | 0 <= i < |h.free|
      ensures region.addr <= h.free[i].addr && h.free[i].End() <= region.End()
    {
      assert Sized(h.free[i]);
      CountOne(h.free, i, h.free[i].addr);
      CountOne(h.free, i, h.free[i].End() - 1);
    }
    assert h.free[0].End() >= region.End() by {
      if h.free[0].End() < region.End() {
        var k := CountWitness(h.free, h.free[0].End());
        assert false;
      }
    }
    assert f == 0;
  }

  // --- Runs -----------------------------------------------------------------------------------

  /** Heap and the address from which the page allocator hands out fresh pages. */
  datatype System = System(heap: Heap, bump: nat)

  datatype Op = Malloc(request: nat) | Free(k: nat)

  /** Pages asked for when nothing fits: at least four. */
  function GrowPages(size: nat): (n: nat) {
    var n := AlignUp(size, PAGE) / PAGE;
    if n < 4 then 4 else n
  }

  lemma GrowPagesEnough(size: nat)
    requires size + PAGE <= TWO64
    ensures size <= GrowPages(size) * PAGE <= size + 4 * PAGE
    ensures GrowPages(size) >= 4 && (GrowPages(size) > 4 ==> (GrowPages(size) - 1) * PAGE < size)
  {
  }

  /** The request does not wrap, and where the heap must grow the address space has room above the pages
      handed out. */
  predicate Feasible(s: System, request: nat) {
    request == 0 || s.heap.free == []
    || (&& request <= TWO64 - 32
        && (FirstFit(s.heap.free, BlockSize(request)) < |s.heap.free| || s.bump + request + 8 * PAGE < TWO64))
  }

  /** Size of the first region: what is asked for in whole pages, at most the static buffer. */
  function InitialSize(size: nat): (r: nat) {
    var r := AlignUp(size, PAGE);
    if r > 0x100000 then 0x100000 else r
  }

  /** There is a first block unless nothing is asked for or rounding up wraps to nothing: the least number of
      whole pages that holds what is asked for, and the whole static buffer for more than that. */
  lemma InitialExact(size: nat)
    requires size < TWO64
    ensures InitialSize(size) > 0 <==> 0 < size <= TWO64 - PAGE
    ensures InitialSize(size) > 0 ==> InitialSize(size) % PAGE == 0 && InitialSize(size) >= PAGE
    ensures size <= 0x100000 ==> size <= InitialSize(size) < size + PAGE
    ensures 0x100000 < size <= TWO64 - PAGE ==> InitialSize(size) == 0x100000
  {
    if size <= TWO64 - PAGE {
      AlignUpExact(size, PAGE);
    }
  }

  lemma OneRegionConserved(b: Block)
    requires Sized(b)
    ensures Conserved(Heap([b], [], [b]))
  {
    forall x: nat
      ensures Count([b], x) <= 1
    {
      TallyOne(b, x);
    }
    assert BlocksOf([]) == [];
  }

  /** What one call does; a call the kernel may not make leaves the heap alone. */
  function Step(s: System, op: Op): (s': System) {
    match op
    case Free(k) => if k < |s.heap.live| then s.(heap := Released(s.heap, k)) else s
    case Malloc(request) =>
      if request == 0 || s.heap.free == [] || !Feasible(s, request) then s
      else
        var size := BlockSize(request);
        var i := FirstFit(s.heap.free, size);
        if i < |s.heap.free| then s.(heap := Allocated(s.heap, i, size, request))
        else
          BlockSizeFits(request);
          GrowPagesEnough(size);
          var b := Block(s.bump, GrowPages(size) * PAGE);
          System(Allocated(Grown(s.heap, b), 0, size, request), b.End())
  }

  function Run(s: System, ops: seq<Op>): (s': System) {
    if ops == [] then s else Step(Run(s, ops[..|ops| - 1]), ops[|ops| - 1])
  }

  /** The heap is conserved and lies below the fresh pages. */
  ghost predicate Sound(s: System) {
    && Conserved(s.heap) && s.bump % PAGE == 0 && s.bump > 0
    && (forall i :: 0 <= i < |s.heap.given| ==> s.heap.given[i].End() <= s.bump)
  }

  lemma {:induction false} NothingAbove(bs: seq<Block>, limit: nat, x: nat)
    requires x >= limit && forall i :: 0 <= i < |bs| ==> bs[i].End() <= limit
    ensures Count(bs, x) == 0
  {
    if bs != [] {
      NothingAbove(bs[..|bs| - 1], limit, x);
    }
  }

  lemma Pages(a: nat, n: nat)
    requires a % PAGE == 0 && n % PAGE == 0
    ensures (a + n) % PAGE == 0 && n % 16 == 0
    ensures n > 0 ==> n >= PAGE
  {
  }

  /** Fresh pages are disjoint from everything the heap has. */
  lemma GrowSound(s: System, size: nat)
    requires Sound(s) && size > 0 && size % PAGE == 0
    ensures Sound(System(Grown(s.heap, Block(s.bump, size)), s.bump + size))
  {
    var b := Block(s.bump, size);
    Pages(s.bump, size);
    assert Sized(b);
    hide Sized, Conserved;
    forall x: nat | Holds(b, x)
      ensures Count(s.heap.given, x) == 0
    {
      NothingAbove(s.heap.given, s.bump, x);
    }
    GrownConserved(s.heap, b);
  }

  lemma StepSound(s: System, op: Op)
    requires Sound(s)
    ensures Sound(Step(s, op))
  {
    hide FirstFit, BlockSize, GrowPages, Conserved, FreeAfter, Taken, Inserted, InsertPos;
    match op
    case Free(k) =>
      if k < |s.heap.live| {
        ReleasedConserved(s.heap, k);
      }
    case Malloc(request) =>
      if !(request == 0 || s.heap.free == [] || !Feasible(s, request)) {
        BlockSizeFits(request);
        var size := BlockSize(request);
        var i := FirstFit(s.heap.free, size);
        if i < |s.heap.free| {
          AllocatedConserved(s.heap, i, size, request);
        } else {
          GrowPagesEnough(size);
          var b := Block(s.bump, GrowPages(size) * PAGE);
          GrowSound(s, b.size);
          AllocatedConserved(Grown(s.heap, b), 0, size, request);
        }
      }
  }

  /** Over every run of allocations and frees the memory is conserved. */
  lemma {:induction false} RunSound(s: System, ops: seq<Op>)
    requires Sound(s)
    ensures Sound(Run(s, ops))
  {
    hide Sound, Step;
    if ops != [] {
      RunSound(s, ops[..|ops| - 1]);
      StepSound(Run(s, ops[..|ops| - 1]), ops[|ops| - 1]);
    }
  }

  /** A step either keeps the regions and the order of the free list, or adds a region. */
  lemma StepCoalesced(s: System, op: Op)
    requires Sound(s)
    ensures Step(s, op).heap.given == s.heap.given || |Step(s, op).heap.given| == |s.heap.given| + 1
    ensures Step(s, op).heap.given == s.heap.given && Coalesced(s.heap.free) ==> Coalesced(Step(s, op).heap.free)
  {
    hide FirstFit, BlockSize, GrowPages, Conserved, FreeAfter, Inserted, InsertPos, Coalesced;
    if Coalesced(s.heap.free) {
      match op
      case Free(k) =>
        if k < |s.heap.live| {
          ReleasedCoalesced(s.heap, k);
        }
      case Malloc(request) =>
        var i := FirstFit(s.heap.free, BlockSize(request));
        if i < |s.heap.free| {
          FreeAfterCoalesced(s.heap.free, i, BlockSize(request));
        }
    }
  }

  lemma {:induction false} RunCoalesced(s: System, ops: seq<Op>)
    requires Sound(s) && Coalesced(s.heap.free)
    ensures |Run(s, ops).heap.given| >= |s.heap.given|
    ensures |Run(s, ops).heap.given| == |s.heap.given| ==> Run(s, ops).heap.given == s.heap.given && Coalesced(Run(s, ops).heap.free)
  {
    hide Sound, Step, Coalesced;
    if ops != [] {
      RunSound(s, ops[..|ops| - 1]);
      RunCoalesced(s, ops[..|ops| - 1]);
      StepCoalesced(Run(s, ops[..|ops| - 1]), ops[|ops| - 1]);
    }
  }

  /** A run that starts from one free region and did not grow the heap: once everything handed out is
      back, the free list is that one region again, whatever the order of the calls. */
  lemma RunRestores(s: System, ops: seq<Op>, region: Block)
    requires Sound(s) && s.heap == Heap([region], [], [region]) && region.size > 0
    requires |Run(s, ops).heap.given| == 1 && Run(s, ops).heap.live == []
    ensures Run(s, ops) == s
  {
    assert Coalesced(s.heap.free);
    RunSound(s, ops);
    RunCoalesced(s, ops);
    AllFreeIsInitial(Run(s, ops).heap, region);
    RunFresh(s, ops);
  }

  lemma {:induction false} RunFresh(s: System, ops: seq<Op>)
    ensures |Run(s, ops).heap.given| >= |s.heap.given|
    ensures |Run(s, ops).heap.given| == |s.heap.given| ==> Run(s, ops).bump == s.bump
  {
    hide FirstFit, BlockSize, GrowPages, FreeAfter, Inserted, InsertPos;
    if ops != [] {
      RunFresh(s, ops[..|ops| - 1]);
    }
  }

  /** What is left of the block in front has the highest address, so the list is in order only if nothing
      is left of it. */
  lemma FrontHighest(free: seq<Block>, b: Block)
    requires free != [] && free[0].addr < b.addr
    ensures !Coalesced([b] + free)
  {
    var f := [b] + free;
    assert f[0] == b && f[1] == free[0];
  }

  /** From an ordered list, an allocation leaves an ordered list exactly when some free block fits, or
      the heap grows by a block that is used whole. */
  lemma OrderKeptExactly(s: System, request: nat)
    requires Sound(s) && Coalesced(s.heap.free) && s.heap.free != [] && request > 0 && Feasible(s, request)
    ensures var size := BlockSize(request);
            Coalesced(Step(s, Malloc(request)).heap.free) <==>
            || FirstFit(s.heap.free, size) < |s.heap.free|
            || !Splits(Block(s.bump, GrowPages(size) * PAGE), size)
  {
    BlockSizeFits(request);
    BlocksUnder(s);
    hide Sound, Coalesced, FirstFit, BlockSize, GrowPages;
    var size := BlockSize(request);
    var i := FirstFit(s.heap.free, size);
    if i < |s.heap.free| {
      FreeAfterCoalesced(s.heap.free, i, size);
    } else {
      GrowPagesEnough(size);
      var b := Block(s.bump, GrowPages(size) * PAGE);
      var f := Grown(s.heap, b).free;
      assert Step(s, Malloc(request)).heap.free == FreeAfter(f, 0, size);
      if Splits(b, size) {
        var rest := Block(b.addr + size, b.size - size);
        assert FreeAfter(f, 0, size) == [rest] + s.heap.free;
        FrontHighest(s.heap.free, rest);
      } else {
        assert FreeAfter(f, 0, size) == s.heap.free;
      }
    }
  }

  /** Every block lies below the pages still to be handed out. */
  lemma BlocksUnder(s: System)
    requires Sound(s)
    ensures forall i :: 0 <= i < |s.heap.free| ==> s.heap.free[i].addr < s.bump
    ensures forall i :: 0 <= i < |s.heap.live| ==> s.heap.live[i].block.addr < s.bump
  {
    var h := s.heap;
    forall i | 0 <= i < |h.free|
      ensures h.free[i].addr < s.bump
    {
      assert Sized(h.free[i]);
      CountOne(h.free, i, h.free[i].addr);
      if h.free[i].addr >= s.bump {
        NothingAbove(h.given, s.bump, h.free[i].addr);
      }
    }
    forall i | 0 <= i < |h.live|
      ensures h.live[i].block.addr < s.bump
    {
      assert Sized(h.live[i].block);
      CountOne(BlocksOf(h.live), i, h.live[i].block.addr);
      if h.live[i].block.addr >= s.bump {
        NothingAbove(h.given, s.bump, h.live[i].block.addr);
      }
    }
  }

  const SMALL: System := System(Heap([Block(0x100000, 0x1000)], [], [Block(0x100000, 0x1000)]), 0x200000)

  lemma SmallSound()
    ensures Sound(SMALL)
  {
    OneRegionConserved(Block(0x100000, 0x1000));
  }

  const GROWN: System :=
    System(Heap([Block(0x202010, 0x1FF0), Block(0x100020, 0xFE0)],
                [Live(Block(0x100000, 0x20), 16), Live(Block(0x200000, 0x2010), 0x2000)],
                [Block(0x100000, 0x1000), Block(0x200000, 0x4000)]), 0x204000)

  lemma SmallSizes()
    ensures BlockSize(16) == 0x20 && BlockSize(0x2000) == 0x2010 && GrowPages(0x2010) == 4
  {
  }

  lemma SmallGrows()
    ensures Step(Step(SMALL, Malloc(16)), Malloc(0x2000)) == GROWN
  {
    SmallSizes();
    hide BlockSize, GrowPages;
    var h := Step(SMALL, Malloc(16)).heap;
    assert FirstFit(SMALL.heap.free, 0x20) == 0;
    assert h.free == [Block(0x100020, 0xFE0)];
    assert h.live == [Live(Block(0x100000, 0x20), 16)];
    assert FirstFit(h.free, 0x2010) == 1;
  }

  lemma GrownFreed()
    ensures Step(Step(GROWN, Free(0)), Free(0)).heap ==
            Heap([Block(0x100000, 0x20), Block(0x200000, 0x4000), Block(0x100020, 0xFE0)], [], GROWN.heap.given)
  {
    var b := Block(0x100000, 0x20);
    assert InsertPos(GROWN.heap.free, b.addr) == 0;
    assert Inserted(GROWN.heap.free, 0, b) == [b, Block(0x202010, 0x1FF0), Block(0x100020, 0xFE0)];
    var h := Step(GROWN, Free(0)).heap;
    assert h == Heap([b, Block(0x202010, 0x1FF0), Block(0x100020, 0xFE0)], [Live(Block(0x200000, 0x2010), 0x2000)], GROWN.heap.given);
    assert InsertPos(h.free, 0x200000) == 1;
  }

  /** Out of order, touching free blocks can stay apart for good: everything is back, in three pieces. */
  lemma FragmentedAfterGrowth()
    ensures Sound(SMALL)
    ensures var h := Run(SMALL, [Malloc(16), Malloc(0x2000), Free(0), Free(0)]).heap;
            && h.live == []
            && h.free == [Block(0x100000, 0x20), Block(0x200000, 0x4000), Block(0x100020, 0xFE0)]
            && h.free[0].End() == h.free[2].addr
  {
    SmallSound();
    SmallGrows();
    GrownFreed();
    hide Step, Sound;
    var ops := [Malloc(16), Malloc(0x2000), Free(0), Free(0)];
    assert ops[..3] == [Malloc(16), Malloc(0x2000), Free(0)] && ops[..3][..2] == [Malloc(16), Malloc(0x2000)];
    assert ops[..3][..2][..1] == [Malloc(16)] && ops[..3][..2][..1][..0] == [];
    assert Run(SMALL, ops[..3][..2][..1]) == Step(SMALL, Malloc(16));
    assert Run(SMALL, ops[..3][..2]) == GROWN;
    assert Run(SMALL, ops[..3]) == Step(GROWN, Free(0));
  }
}
