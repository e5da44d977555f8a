/** The pseudo-terminal and pipe ring buffers, proved to be bounded queues. */
module Rings {
  import opened Bytes

  // --- Bounded queues -------------------------------------------------------------------------

  /** A queue of at most `cap` bytes with everything it ever took and gave. */
  datatype Queue = Queue(cap: nat, held: seq<byte>, accepted: seq<byte>, delivered: seq<byte>)

  /** How many bytes a write takes: what is asked, as far as there is room. */
  function Room(q: Queue, n: nat): (r: nat)
    requires |q.held| <= q.cap
  {
    Min(n, q.cap - |q.held|)
  }

  function Put(q: Queue, src: seq<byte>): (r: Queue)
    requires |q.held| <= q.cap
  {
    var n := Room(q, |src|);
    q.(held := q.held + src[..n], accepted := q.accepted + src[..n])
  }

  function Get(q: Queue, n: nat): (r: Queue) {
    var k := Min(n, |q.held|);
    q.(held := q.held[k..], delivered := q.delivered + q.held[..k])
  }

  /** A write takes a prefix of what is offered, and leaves something out only when the queue is full then. */
  lemma PutAllOrFull(q: Queue, src: seq<byte>)
    requires |q.held| <= q.cap
    ensures var r, n := Put(q, src), Room(q, |src|);
            n <= |src| && r.held == q.held + src[..n] && |r.held| <= q.cap && (n < |src| ==> |r.held| == q.cap)
  {
  }

  /** A read takes the oldest bytes, and fewer than asked only when the queue is empty then. */
  lemma GetAllOrEmpty(q: Queue, n: nat)
    ensures var r := Get(q, n);
            var got := r.delivered[|q.delivered|..];
            q.delivered <= r.delivered && got + r.held == q.held && |got| <= n && (|got| < n ==> r.held == [])
  {
    var k := Min(n, |q.held|);
    assert (q.delivered + q.held[..k])[|q.delivered|..] == q.held[..k];
  }

  /** Bytes delivered followed by bytes held are the bytes accepted. */
  ghost predicate Conserving(q: Queue) {
    |q.held| <= q.cap && q.delivered + q.held == q.accepted
  }

  datatype Op = PutOp(src: seq<byte>) | GetOp(n: nat)

  function Step(q: Queue, op: Op): (r: Queue)
    requires |q.held| <= q.cap
    ensures |r.held| <= r.cap == q.cap
  {
    match op
    case PutOp(src) => Put(q, src)
    case GetOp(n) => Get(q, n)
  }

  lemma StepConserves(q: Queue, op: Op)
    requires Conserving(q)
    ensures Conserving(Step(q, op))
  {
    match op
    case PutOp(src) =>
      var n := Room(q, |src|);
      assert q.delivered + (q.held + src[..n]) == (q.delivered + q.held) + src[..n];
    case GetOp(n) =>
      var k := Min(n, |q.held|);
      assert q.delivered + q.held[..k] + q.held[k..] == q.delivered + q.held;
  }

  /** What a read leaves, once the bytes are taken. */
  lemma Gives(q: Queue, n: nat, got: seq<byte>, held: seq<byte>)
    requires Conserving(q) && q.held == got + held && |got| == Min(n, |q.held|)
    ensures var r := Get(q, n);
            r.cap == q.cap && r.held == held && r.delivered == q.delivered + got && Conserving(r)
  {
    StepConserves(q, GetOp(n));
  }

  function Run(q: Queue, ops: seq<Op>): (r: Queue)
    requires |q.held| <= q.cap
    ensures |r.held| <= r.cap == q.cap
  {
    if ops == [] then q else Step(Run(q, ops[..|ops| - 1]), ops[|ops| - 1])
  }

  /** For every interleaving of writes and reads nothing is lost, repeated or reordered. */
  lemma {:induction false} RunConserves(q: Queue, ops: seq<Op>)
    requires Conserving(q)
    ensures Conserving(Run(q, ops))
  {
    if ops != [] {
      RunConserves(q, ops[..|ops| - 1]);
      StepConserves(Run(q, ops[..|ops| - 1]), ops[|ops| - 1]);
    }
  }

  // --- Ring contents --------------------------------------------------------------------------

  /** `n` bytes of a ring from `start` on, going round. */
  function Around(buf: seq<byte>, start: nat, n: nat): (r: seq<byte>)
    requires |buf| > 0
    ensures |r| == n
  {
    seq(n, i requires 0 <= i < n => buf[(start + i) % |buf|])
  }

  /** Two places less than a whole turn apart are different. */
  lemma PlacesDiffer(a: nat, d: nat, cap: nat)
    requires 0 < d < cap
    ensures (a + d) % cap != a % cap
  {
    var q, r := a / cap, a % cap;
    assert a == q * cap + r;
    if r + d < cap {
      DivUnique(cap, q, r + d);
      assert a + d == q * cap + (r + d);
    } else {
      DivUnique(cap, q + 1, r + d - cap);
      assert a + d == (q + 1) * cap + (r + d - cap);
    }
  }

  /** Storing a byte behind the contents appends it. */
  lemma AroundPush(buf: seq<byte>, start: nat, n: nat, b: byte)
    requires n < |buf|
    ensures Around(buf[(start + n) % |buf| := b], start, n + 1) == Around(buf, start, n) + [b]
  {
    var buf' := buf[(start + n) % |buf| := b];
    forall i | 0 <= i < n
      ensures Around(buf', start, n + 1)[i] == Around(buf, start, n)[i]
    {
      PlacesDiffer(start + i, n - i, |buf|);
    }
  }

  lemma AroundDrop(buf: seq<byte>, start: nat, n: nat)
    requires |buf| > 0 && n > 0
    ensures Around(buf, start, n)[0] == buf[start % |buf|]
    ensures Around(buf, start, n)[1..] == Around(buf, start + 1, n - 1)
  {
    forall i | 0 <= i < n - 1
      ensures Around(buf, start, n)[1..][i] == Around(buf, start + 1, n - 1)[i]
    {
      assert start + (i + 1) == start + 1 + i;
    }
  }

  lemma AroundAt(buf: seq<byte>, start: nat, n: nat, i: nat)
    requires |buf| > 0 && i < n
    ensures Around(buf, start, n)[i] == buf[(start + i) % |buf|]
  {
  }

  /** Only the place of the start matters. */
  lemma AroundMod(buf: seq<byte>, start: nat, n: nat)
    requires |buf| > 0
    ensures Around(buf, start % |buf|, n) == Around(buf, start, n)
  {
    hide Around;
    var a, b := Around(buf, start % |buf|, n), Around(buf, start, n);
    forall i | 0 <= i < n
      ensures a[i] == b[i]
    {
      AroundAt(buf, start % |buf|, n, i);
      AroundAt(buf, start, n, i);
      ModAdd(start, i, |buf|);
    }
  }

  lemma ModAdd(a: nat, b: nat, m: nat)
    requires m > 0
    ensures (a % m + b) % m == (a + b) % m
  {
    var q := a / m;
    var x := a % m + b;
    var k, r := x / m, x % m;
    assert a + b == (q + k) * m + r;
    DivUnique(m, q + k, r);
  }

  // --- Pseudo-terminals -----------------------------------------------------------------------

  const PTY_CAP: nat := 1024

  /** Bytes between the free-running counters, in 64-bit arithmetic, and the reader's own test. */
  function Available(head: nat, tail: nat): (n: int) {
    (head - tail) % TWO64
  }

  predicate CanRead(head: nat, tail: nat) {
    tail < head
  }

  /** The reader sees what is there exactly until the write counter wraps: then nothing can be read any
      more although bytes are held. */
  lemma ReadableUntilWrap(head: nat, tail: nat)
    requires head < TWO64 && tail < TWO64 && 0 < Available(head, tail) <= PTY_CAP
    ensures CanRead(head, tail) <==> tail + Available(head, tail) < TWO64
    ensures Available(0, TWO64 - 1) == 1 && !CanRead(0, TWO64 - 1)
  {
  }

  lemma AvailableIs(head: nat, tail: nat)
    requires tail <= head < TWO64
    ensures Available(head, tail) == head - tail
  {
  }

  class PtyRing {
    const buf: array<byte>
    var head: nat
    var tail: nat
    ghost var queue: Queue

    ghost predicate Valid()
      reads this, buf
    {
      && buf.Length == PTY_CAP && tail <= head <= tail + PTY_CAP && head < TWO64
      && queue.cap == PTY_CAP && queue.held == Around(buf[..], tail, head - tail) && Conserving(queue)
    }

    constructor ()
      ensures Valid() && fresh(buf) && queue == Queue(PTY_CAP, [], [], []) && head == 0
    {
      buf := new byte[PTY_CAP];
      head, tail := 0, 0;
      queue := Queue(PTY_CAP, [], [], []);
    }

    /** Takes exactly what fits. */
    method Write(src: seq<byte>) returns (written: nat)
      requires Valid() && head + |src| < TWO64
      modifies this, buf
      ensures Valid() && queue == Put(old(queue), src) && written == Room(old(queue), |src|)
      ensures head == old(head) + written
    {
      hide Around, Conserving, Available;
      written := 0;
      ghost var was := queue;
      ghost var held := queue.held;
      AvailableIs(head, tail);
      while written < |src| && Available(head, tail) < PTY_CAP
        invariant Available(head, tail) == head - tail
        invariant written <= |src| && head == old(head) + written && tail == old(tail) && head <= tail + PTY_CAP
        invariant held == Around(buf[..], tail, head - tail) && held == was.held + src[..written]
        invariant queue == was
      {
        AroundPush(buf[..], tail, head - tail, src[written]);
        buf[head % PTY_CAP] := src[written];
        held := held + [src[written]];
        head := head + 1;
        written := written + 1;
        AvailableIs(head, tail);
      }
      StepConserves(was, PutOp(src));
      queue := Put(was, src);
    }

    /** Takes the oldest byte off the ring. */
    method Pop(ghost held: seq<byte>) returns (b: byte)
      requires buf.Length == PTY_CAP && tail < head && held == Around(buf[..], tail, head - tail)
      modifies this`tail
      ensures tail == old(tail) + 1 && b == held[0] && held[1..] == Around(buf[..], tail, head - tail)
    {
      AroundDrop(buf[..], tail, head - tail);
      hide Around;
      b := buf[tail % PTY_CAP];
      tail := tail + 1;
    }

    /** Gives the oldest bytes. */
    method Read(n: nat) returns (dst: seq<byte>)
      requires Valid()
      modifies this`tail, this`queue
      ensures Valid() && queue == Get(old(queue), n) && queue.delivered == old(queue.delivered) + dst
    {
      hide Around, Conserving, Get;
      dst := [];
      ghost var was := queue;
      ghost var held := queue.held;
      while |dst| < n && tail < head
        invariant |dst| <= n && tail == old(tail) + |dst| && tail <= head && queue == was
        invariant held == Around(buf[..], tail, head - tail) && |held| == head - tail && was.held == dst + held
      {
        var b := Pop(held);
        assert dst + held == (dst + [b]) + held[1..];
        dst := dst + [b];
        held := held[1..];
      }
      Gives(was, n, dst, held);
      queue := Get(was, n);
    }
  }

  /** A terminal pair: what the master writes the slave reads, and the other way round. */
  class PtyPair {
    const m2s: PtyRing
    const s2m: PtyRing
    var inUse: bool

    ghost predicate Valid()
      reads this, m2s, m2s.buf, s2m, s2m.buf
    {
      m2s != s2m && m2s.buf != s2m.buf && m2s.Valid() && s2m.Valid()
    }

    constructor ()
      ensures Valid() && inUse && m2s.queue == s2m.queue == Queue(PTY_CAP, [], [], [])
    {
      var a := new PtyRing();
      var b := new PtyRing();
      m2s, s2m, inUse := a, b, true;
    }

    method MasterWrite(src: seq<byte>) returns (n: int)
      requires Valid() && m2s.head + |src| < TWO64
      modifies m2s, m2s.buf
      ensures Valid() && s2m.queue == old(s2m.queue)
      ensures if inUse then n == Room(old(m2s.queue), |src|) && m2s.queue == Put(old(m2s.queue), src)
              else n == -1 && m2s.queue == old(m2s.queue)
    {
      if !inUse {
        return -1;
      }
      n := m2s.Write(src);
    }

    method SlaveRead(len: nat) returns (n: int, dst: seq<byte>)
      requires Valid()
      modifies m2s`tail, m2s`queue
      ensures Valid() && s2m.queue == old(s2m.queue)
      ensures if inUse then n == |dst| && m2s.queue == Get(old(m2s.queue), len) && m2s.queue.delivered == old(m2s.queue.delivered) + dst
              else n == -1 && m2s.queue == old(m2s.queue)
    {
      if !inUse {
        return -1, [];
      }
      dst := m2s.Read(len);
      n := |dst|;
    }

    method SlaveWrite(src: seq<byte>) returns (n: int)
      requires Valid() && s2m.head + |src| < TWO64
      modifies s2m, s2m.buf
      ensures Valid() && m2s.queue == old(m2s.queue)
      ensures if inUse then n == Room(old(s2m.queue), |src|) && s2m.queue == Put(old(s2m.queue), src)
              else n == -1 && s2m.queue == old(s2m.queue)
    {
      if !inUse {
        return -1;
      }
      n := s2m.Write(src);
    }

    method MasterRead(len: nat) returns (n: int, dst: seq<byte>)
      requires Valid()
      modifies s2m`tail, s2m`queue
      ensures Valid() && m2s.queue == old(m2s.queue)
      ensures if inUse then n == |dst| && s2m.queue == Get(old(s2m.queue), len) && s2m.queue.delivered == old(s2m.queue.delivered) + dst
              else n == -1 && s2m.queue == old(s2m.queue)
    {
      if !inUse {
        return -1, [];
      }
      dst := s2m.Read(len);
      n := |dst|;
    }

    /** A typed character, dropped when the slave's buffer is full. */
    method PushInput(c: byte)
      requires Valid() && m2s.head + 1 < TWO64
      modifies m2s, m2s.buf
      ensures Valid() && s2m.queue == old(s2m.queue)
      ensures m2s.queue == if inUse then Put(old(m2s.queue), [c]) else old(m2s.queue)
    {
      if inUse {
        var n := m2s.Write([c]);
      }
    }
  }

  // --- Pipes ----------------------------------------------------------------------------------

  const PIPE_CAP: nat := 4096

  /** Bytes between the two positions of a ring that keeps one place free. */
  function Between(rpos: nat, wpos: nat): (n: nat)
    requires rpos < PIPE_CAP && wpos < PIPE_CAP
    ensures n < PIPE_CAP && (rpos + n) % PIPE_CAP == wpos
  {
    (wpos + PIPE_CAP - rpos) % PIPE_CAP
  }

  /** Moving the write position fills one place more, until one is left. */
  lemma BetweenWrite(rpos: nat, wpos: nat)
    requires rpos < PIPE_CAP && wpos < PIPE_CAP
    ensures var next := (wpos + 1) % PIPE_CAP;
            if next == rpos then Between(rpos, wpos) == PIPE_CAP - 1 else Between(rpos, next) == Between(rpos, wpos) + 1
  {
  }

  lemma BetweenRead(rpos: nat, wpos: nat, k: nat)
    requires rpos < PIPE_CAP && wpos < PIPE_CAP && k <= Between(rpos, wpos)
    ensures Between((rpos + k) % PIPE_CAP, wpos) == Between(rpos, wpos) - k
  {
  }

  lemma AroundTake(buf: seq<byte>, start: nat, n: nat, i: nat)
    requires |buf| > 0 && i < n
    ensures Around(buf, start, n)[..i] + [buf[(start + i) % |buf|]] == Around(buf, start, n)[..i + 1]
  {
  }

  class Pipe {
    const buf: array<byte>
    var rpos: nat
    var wpos: nat
    ghost var queue: Queue

    ghost predicate Valid()
      reads this, buf
    {
      && buf.Length == PIPE_CAP && rpos < PIPE_CAP && wpos < PIPE_CAP
      && queue.cap == PIPE_CAP - 1 && queue.held == Around(buf[..], rpos, Between(rpos, wpos)) && Conserving(queue)
    }

    constructor ()
      ensures Valid() && fresh(buf) && queue == Queue(PIPE_CAP - 1, [], [], [])
    {
      buf := new byte[PIPE_CAP];
      rpos, wpos := 0, 0;
      queue := Queue(PIPE_CAP - 1, [], [], []);
    }

    method Write(src: seq<byte>) returns (written: nat)
      requires Valid()
      modifies this, buf
      ensures Valid() && queue == Put(old(queue), src) && written == Room(old(queue), |src|)
    {
      hide Around, Between, Conserving;
      written := 0;
      ghost var was := queue;
      ghost var held := queue.held;
      while written < |src|
        invariant written <= |src| && rpos == old(rpos) && wpos < PIPE_CAP && queue == was
        invariant |held| == Between(rpos, wpos) && held == was.held + src[..written]
        invariant held == Around(buf[..], rpos, |held|)
      {
        BetweenWrite(rpos, wpos);
        var next := (wpos + 1) % PIPE_CAP;
        if next == rpos {
          break;
        }
        AroundPush(buf[..], rpos, |held|, src[written]);
        assert (rpos + |held|) % PIPE_CAP == wpos;
        buf[wpos] := src[written];
        held := held + [src[written]];
        wpos := next;
        written := written + 1;
      }
      StepConserves(was, PutOp(src));
      queue := Put(was, src);
    }

    method Read(count: nat) returns (dst: seq<byte>)
      requires Valid()
      modifies this`rpos, this`queue
      ensures Valid() && queue == Get(old(queue), count) && queue.delivered == old(queue.delivered) + dst
    {
      var available := (wpos + PIPE_CAP - rpos) % PIPE_CAP;
      assert available == Between(rpos, wpos);
      hide Around, Between, Conserving, Get;
      var toread := if available < count then available else count;
      ghost var was := queue;
      dst := CopyOut(available, toread);
      AroundSkip(buf[..], rpos, available, toread);
      BetweenRead(rpos, wpos, toread);
      rpos := (rpos + toread) % PIPE_CAP;
      Gives(was, count, dst, was.held[toread..]);
      queue := Get(was, count);
    }

    /** The oldest `n` of the bytes available. */
    method CopyOut(available: nat, n: nat) returns (dst: seq<byte>)
      requires buf.Length == PIPE_CAP && n <= available
      ensures dst == Around(buf[..], rpos, available)[..n]
    {
      hide Around;
      dst := [];
      var i := 0;
      while i < n
        invariant i <= n && dst == Around(buf[..], rpos, available)[..i]
      {
        AroundTake(buf[..], rpos, available, i);
        dst := dst + [buf[(rpos + i) % PIPE_CAP]];
        i := i + 1;
      }
    }
  }

  lemma AroundSkip(buf: seq<byte>, start: nat, n: nat, k: nat)
    requires |buf| == PIPE_CAP && k <= n
    ensures Around(buf, start, n)[k..] == Around(buf, (start + k) % PIPE_CAP, n - k)
  {
    forall i | 0 <= i < n - k
      ensures Around(buf, start, n)[k..][i] == Around(buf, start + k, n - k)[i]
    {
      assert start + (k + i) == start + k + i;
    }
    assert Around(buf, start, n)[k..] == Around(buf, start + k, n - k);
    AroundMod(buf, start + k, n - k);
  }
}
