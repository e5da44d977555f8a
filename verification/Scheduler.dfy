/** The scheduler over linked task objects: a circular list whose dead tasks are unlinked in place. */
module Scheduler {
  import opened Bytes
  import opened SchedModel

  class Task {
    const pid: nat
    var state: State
    var next: Task?

    constructor (p: nat, s: State)
      ensures pid == p && state == s && next == null
    {
      pid, state, next := p, s, null;
    }
  }

  /** The pids and states of a list of tasks. */
  ghost function Entries(ring: seq<Task>): (r: seq<Entry>)
    reads ring`state
    ensures |r| == |ring|
    ensures forall i :: 0 <= i < |ring| ==> r[i] == Entry(ring[i].pid, ring[i].state)
  {
    if ring == [] then []
    else
      var n := |ring| - 1;
      Entries(ring[..n]) + [Entry(ring[n].pid, ring[n].state)]
  }

  /** `r` holds the pids and states of the tasks. */
  ghost predicate Shows(ring: seq<Task>, r: seq<Entry>)
    reads ring`state
  {
    |r| == |ring| && forall i :: 0 <= i < |ring| ==> r[i].pid == ring[i].pid && r[i].state == ring[i].state
  }

  /** Position `i` of the ring is linked to the next one, the last to the first. */
  ghost predicate Joined(ring: seq<Task>, i: nat)
    reads ring`next
  {
    i < |ring| && ring[i].next == ring[if i + 1 < |ring| then i + 1 else 0]
  }

  /** The next links run through `ring` and back to its first task. */
  ghost predicate Cycle(ring: seq<Task>)
    reads ring`next
  {
    NoDup(ring) && forall i :: 0 <= i < |ring| ==> Joined(ring, i)
  }

  /** The tasks whose entry is not dead, in order. */
  ghost function Kept(ring: seq<Task>, r: seq<Entry>): (k: seq<Task>)
    requires |r| == |ring|
    ensures |k| == |Alive(r)|
  {
    if ring == [] then []
    else
      var n := |ring| - 1;
      Kept(ring[..n], r[..n]) + if r[n].state.Dead? then [] else [ring[n]]
  }

  /** The tasks whose entry is dead, in order. */
  ghost function Gone(ring: seq<Task>, r: seq<Entry>): (k: seq<Task>)
    requires |r| == |ring|
  {
    if ring == [] then []
    else
      var n := |ring| - 1;
      Gone(ring[..n], r[..n]) + if r[n].state.Dead? then [ring[n]] else []
  }

  lemma {:induction false} GoneMembers(ring: seq<Task>, r: seq<Entry>)
    requires |r| == |ring| && NoDup(ring)
    ensures NoDup(Gone(ring, r))
    ensures forall t :: t in Gone(ring, r) <==> t in ring && t !in Kept(ring, r)
    ensures forall t :: t in Kept(ring, r) ==> t in ring
  {
    if ring != [] {
      var n := |ring| - 1;
      GoneMembers(ring[..n], r[..n]);
      var k, g := Kept(ring[..n], r[..n]), Gone(ring[..n], r[..n]);
      SnocMembers(ring[..n], ring[n]);
      SnocMembers(k, ring[n]);
      SnocMembers(g, ring[n]);
      assert ring == ring[..n] + [ring[n]] && ring[n] !in ring[..n];
      assert k + [] == k && g + [] == g;
    }
  }

  lemma {:induction false} KeptShows(ring: seq<Task>, r: seq<Entry>)
    requires Shows(ring, r)
    ensures Shows(Kept(ring, r), Alive(r))
  {
    if ring != [] {
      var n := |ring| - 1;
      KeptShows(ring[..n], r[..n]);
      var k, a := Kept(ring[..n], r[..n]), Alive(r[..n]);
      assert Shows(k, a);
      if !r[n].state.Dead? {
        assert Kept(ring, r) == k + [ring[n]] && Alive(r) == a + [r[n]];
      } else {
        assert Kept(ring, r) == k + [] == k && Alive(r) == a + [] == a;
      }
    }
  }

  /** One more task of the ring: dropped or kept. */
  lemma DropStep(ring: seq<Task>, r: seq<Entry>, i: nat)
    requires |r| == |ring| && i < |ring| && r[i].state.Dead?
    ensures Kept(ring[..i + 1], r[..i + 1]) == Kept(ring[..i], r[..i])
    ensures Gone(ring[..i + 1], r[..i + 1]) == Gone(ring[..i], r[..i]) + [ring[i]]
  {
    assert ring[..i + 1][..i] == ring[..i] && r[..i + 1][..i] == r[..i];
  }

  lemma KeepStep(ring: seq<Task>, r: seq<Entry>, i: nat)
    requires |r| == |ring| && i < |ring| && !r[i].state.Dead?
    ensures Kept(ring[..i + 1], r[..i + 1]) == Kept(ring[..i], r[..i]) + [ring[i]]
    ensures Gone(ring[..i + 1], r[..i + 1]) == Gone(ring[..i], r[..i])
  {
    assert ring[..i + 1][..i] == ring[..i] && r[..i + 1][..i] == r[..i];
  }

  /** The reaping loop in the middle: tasks before `i` that live are linked in order and lead on to
      the rest of the old cycle. */
  ghost predicate HalfReaped(ring: seq<Task>, kept: seq<Task>, i: nat)
    requires 0 < i <= |ring|
    reads ring`next, kept`next
  {
    && 0 < |kept| && kept[0] == ring[0] && NoDup(kept) && NoDup(ring)
    && (forall t :: t in kept ==> t in ring[..i])
    && (forall j :: 0 <= j < |kept| - 1 ==> Joined(kept, j))
    && kept[|kept| - 1].next == ring[if i < |ring| then i else 0]
    && (forall j :: i <= j < |ring| ==> Joined(ring, j))
  }

  /** The task at `i` lives: it joins the kept ones. */
  lemma HalfReapedKeep(ring: seq<Task>, kept: seq<Task>, i: nat)
    requires 0 < i < |ring| && HalfReaped(ring, kept, i)
    ensures HalfReaped(ring, kept + [ring[i]], i + 1)
    ensures ring[i].next == ring[if i + 1 < |ring| then i + 1 else 0]
  {
    var k := kept + [ring[i]];
    assert ring[..i + 1] == ring[..i] + [ring[i]];
    assert ring[i] !in ring[..i];
    forall a, b | 0 <= a < b < |k|
      ensures k[a] != k[b]
    {
      if b == |kept| {
        assert kept[a] in kept;
      }
    }
    assert Joined(ring, i);
    forall j | 0 <= j < |k| - 1
      ensures Joined(k, j)
    {
      assert j < |kept| - 1 ==> Joined(kept, j);
    }
  }

  /** The task at `i` is dead: the last kept task is linked past it. */
  method Unlink(iterPrev: Task, iter: Task, ghost ring: seq<Task>, ghost kept: seq<Task>, ghost i: nat)
    requires 0 < i < |ring| && HalfReaped(ring, kept, i) && iterPrev == kept[|kept| - 1] && iter == ring[i]
    modifies iterPrev`next
    ensures HalfReaped(ring, kept, i + 1) && iterPrev.next == ring[if i + 1 < |ring| then i + 1 else 0]
  {
    assert forall j :: i <= j < |ring| ==> ring[j] != iterPrev by {
      assert iterPrev in kept && iterPrev in ring[..i];
    }
    assert Joined(ring, i);
    iterPrev.next := iter.next;
    assert ring[..i + 1] == ring[..i] + [ring[i]];
    forall j | i + 1 <= j < |ring|
      ensures Joined(ring, j)
    {
      assert old(Joined(ring, j));
    }
    forall j | 0 <= j < |kept| - 1
      ensures Joined(kept, j)
    {
      assert old(Joined(kept, j));
    }
  }

  lemma HalfReapedDone(ring: seq<Task>, kept: seq<Task>)
    requires 0 < |ring| && HalfReaped(ring, kept, |ring|)
    ensures Cycle(kept) && kept[0] == ring[0]
  {
    assert Joined(kept, |kept| - 1);
  }

  lemma HalfReapedStart(ring: seq<Task>)
    requires 0 < |ring| && Cycle(ring)
    ensures HalfReaped(ring, [ring[0]], 1)
  {
    assert Joined(ring, 0);
    assert ring[..1] == [ring[0]];
  }

  /** The state of the reaping loop before round `i`. */
  ghost predicate Midway(was: seq<Task>, e: seq<Entry>, kept: seq<Task>, log: seq<Task>, iterPrev: Task, iter: Task, i: nat)
    reads was`next, kept`next
  {
    && |e| == |was| && 0 < i <= |was| && HalfReaped(was, kept, i)
    && kept == Kept(was[..i], e[..i]) && log == Gone(was[..i], e[..i])
    && iterPrev == kept[|kept| - 1] && iter == was[if i < |was| then i else 0]
  }

  lemma MidwayStart(was: seq<Task>, e: seq<Entry>)
    requires 0 < |was| && Cycle(was) && |e| == |was| && !e[0].state.Dead?
    ensures was[0].next != null && Midway(was, e, [was[0]], [], was[0], was[0].next, 1)
  {
    HalfReapedStart(was);
    assert was[..1] == [was[0]] && e[..1] == [e[0]];
  }

  lemma MidwayFacts(was: seq<Task>, e: seq<Entry>, kept: seq<Task>, log: seq<Task>, iterPrev: Task, iter: Task, i: nat)
    requires Midway(was, e, kept, log, iterPrev, iter, i)
    ensures iterPrev in was && iterPrev in kept && i <= |was| == |e|
    ensures iter == was[0] <==> i == |was|
    ensures i < |was| ==> iter == was[i]
  {
    assert iterPrev in kept && iterPrev in was[..i];
  }

  lemma MidwayDone(was: seq<Task>, e: seq<Entry>, kept: seq<Task>, log: seq<Task>, iterPrev: Task, iter: Task)
    requires Midway(was, e, kept, log, iterPrev, iter, |was|)
    ensures kept == Kept(was, e) && log == Gone(was, e) && Cycle(kept) && kept != [] && kept[0] == was[0]
  {
    assert was[..|was|] == was && e[..|was|] == e;
    HalfReapedDone(was, kept);
  }

  /** A round that unlinks a dead task. */
  method DropRound(iterPrev: Task, iter: Task, ghost was: seq<Task>, ghost e: seq<Entry>, ghost kept: seq<Task>, ghost log: seq<Task>, ghost i: nat)
    returns (next: Task)
    requires i < |was| && Midway(was, e, kept, log, iterPrev, iter, i) && e[i].state.Dead?
    modifies iterPrev`next
    ensures Midway(was, e, kept, log + [iter], iterPrev, next, i + 1)
  {
    hide HalfReaped, Kept, Gone;
    DropStep(was, e, i);
    Unlink(iterPrev, iter, was, kept, i);
    next := iterPrev.next;
  }

  /** A round that passes a living task. */
  lemma KeepRound(was: seq<Task>, e: seq<Entry>, kept: seq<Task>, log: seq<Task>, iterPrev: Task, iter: Task, i: nat)
    requires i < |was| && Midway(was, e, kept, log, iterPrev, iter, i) && !e[i].state.Dead?
    ensures iter.next != null && Midway(was, e, kept + [iter], log, iter, iter.next, i + 1)
  {
    hide HalfReaped, Kept, Gone;
    KeepStep(was, e, i);
    HalfReapedKeep(was, kept, i);
  }

  /** The reaping loop once the head is known to live: `kept` is the new ring, `log` lists the tasks
      unlinked and freed, in order. */
  method ReapLoop(list: Task, prev: Task, ghost was: seq<Task>, ghost e: seq<Entry>)
    returns (freedPrev: bool, ghost kept: seq<Task>, ghost log: seq<Task>)
    requires 0 < |was| && was[0] == list && Cycle(was) && Shows(was, e) && !list.state.Dead?
    modifies was`next
    ensures kept == Kept(was, e) && log == Gone(was, e)
    ensures freedPrev == (prev in log)
    ensures kept != [] && kept[0] == list && Cycle(kept)
  {
    MidwayStart(was, e);
    hide Midway, Kept, Gone, Cycle;
    freedPrev, log, kept := false, [], [was[0]];
    var iterPrev: Task, iter: Task := list, list.next;
    ghost var i := 1;
    MidwayFacts(was, e, kept, log, iterPrev, iter, i);
    while iter != list
      invariant 0 < i <= |was| && Midway(was, e, kept, log, iterPrev, iter, i)
      invariant iter == list <==> i == |was|
      invariant freedPrev == (prev in log)
      decreases |was| - i
    {
      MidwayFacts(was, e, kept, log, iterPrev, iter, i);
      if iter.state.Dead? {
        freedPrev := freedPrev || iter == prev;
        var next := DropRound(iterPrev, iter, was, e, kept, log, i);
        log, iter := log + [iter], next;
      } else {
        KeepRound(was, e, kept, log, iterPrev, iter, i);
        kept, iterPrev, iter := kept + [iter], iter, iter.next;
      }
      i := i + 1;
      MidwayFacts(was, e, kept, log, iterPrev, iter, i);
    }
    MidwayDone(was, e, kept, log, iterPrev, iter);
  }

  lemma SnocMembers(ts: seq<Task>, t: Task)
    ensures forall x :: x in ts + [t] <==> x in ts || x == t
  {
  }

  lemma ShowsEntries(ring: seq<Task>, r: seq<Entry>)
    requires Shows(ring, r)
    ensures Entries(ring) == r
  {
  }

  /** First runnable task in ring order from `start`, which is `ring[from]`. */
  method PickNext(start: Task, ghost ring: seq<Task>, ghost from: nat) returns (next: Task, found: bool)
    requires Cycle(ring) && from < |ring| && ring[from] == start
    ensures found == Pick(Entries(ring), from, 0).Some?
    ensures found ==> next == ring[Pick(Entries(ring), from, 0).value]
  {
    hide Entries;
    ghost var n := |ring|;
    next := start;
    ghost var k := 0;
    while true
      invariant 0 <= k < n && next == ring[Around(n, from, k)]
      invariant Pick(Entries(ring), from, 0) == Pick(Entries(ring), from, k)
      decreases n - k
    {
      if next.state.Ready? || next.state.Running? {
        return next, true;
      }
      assert Joined(ring, Around(n, from, k));
      next := next.next;
      k := k + 1;
      if next == start {
        assert k == n;
        return next, false;
      }
    }
  }

  /** The last task of the ring. */
  method FindLast(list: Task, ghost ring: seq<Task>) returns (last: Task)
    requires Cycle(ring) && ring != [] && ring[0] == list
    ensures last == ring[|ring| - 1]
  {
    last := list;
    ghost var k := 0;
    while last.next != list
      invariant 0 <= k < |ring| && last == ring[k]
      decreases |ring| - k
    {
      assert Joined(ring, k);
      last := last.next;
      k := k + 1;
    }
    assert Joined(ring, k);
  }

  /** The ring that reaping leaves, and the tasks it frees. */
  ghost function Remaining(was: seq<Task>, e: seq<Entry>): seq<Task>
    requires |e| == |was| > 0
  {
    if e[0].state.Dead? then was[1..] else Kept(was, e)
  }

  ghost function Dropped(was: seq<Task>, e: seq<Entry>): seq<Task>
    requires |e| == |was| > 0
  {
    if e[0].state.Dead? then [was[0]] else Gone(was, e)
  }

  lemma {:induction false} GoneDead(ring: seq<Task>, r: seq<Entry>)
    requires Shows(ring, r)
    ensures forall t :: t in Gone(ring, r) ==> t.state.Dead?
  {
    if ring != [] {
      var n := |ring| - 1;
      GoneDead(ring[..n], r[..n]);
    }
  }

  /** Every task is kept or freed, and none is freed twice. */
  lemma ReapPartition(was: seq<Task>, e: seq<Entry>)
    requires |e| == |was| > 0 && NoDup(was)
    ensures NoDup(Dropped(was, e))
    ensures forall t :: t in Dropped(was, e) <==> t in was && t !in Remaining(was, e)
    ensures forall t :: t in Remaining(was, e) ==> t in was
  {
    if e[0].state.Dead? {
      TailMembers(was);
    } else {
      GoneMembers(was, e);
    }
  }

  lemma RemainingHead(was: seq<Task>, e: seq<Entry>)
    requires |was| > 0 && Cycle(was) && e == Entries(was) && (|was| > 1 || !was[0].state.Dead?)
    ensures Remaining(was, e) != []
    ensures Remaining(was, e)[0] == if was[0].state.Dead? then was[0].next else was[0]
  {
    if was[0].state.Dead? {
      assert Joined(was, 0);
    } else {
      KeptHead(was, e);
    }
  }

  lemma {:induction false} KeptHead(was: seq<Task>, e: seq<Entry>)
    requires |e| == |was| > 0 && !e[0].state.Dead?
    ensures Kept(was, e) != [] && Kept(was, e)[0] == was[0]
  {
    if |was| > 1 {
      KeptHead(was[..|was| - 1], e[..|was| - 1]);
    } else {
      assert was[..0] == [];
    }
  }

  /** Unlink the dead tasks. With a dead head only the head goes, as the loop then meets its own end
      condition. */
  method ReapRing(list: Task, prev: Task, ghost was: seq<Task>, ghost e: seq<Entry>) returns (freedPrev: bool)
    requires Cycle(was) && was != [] && was[0] == list && prev in was && e == Entries(was)
    requires |was| > 1 || !list.state.Dead?
    modifies was`next
    ensures Remaining(was, e) != [] && Cycle(Remaining(was, e))
    ensures Entries(Remaining(was, e)) == Reap(e)
    ensures freedPrev == (prev !in Remaining(was, e)) && (freedPrev ==> prev.state.Dead?)
  {
    ReapPartition(was, e);
    if list.state.Dead? {
      var last := FindLast(list, was);
      freedPrev := list == prev;
      UnlinkHead(last, list, was);
      ShowsEntries(was[1..], e[1..]);
    } else {
      ghost var kept, log;
      freedPrev, kept, log := ReapLoop(list, prev, was, e);
      KeptShows(was, e);
      ShowsEntries(kept, Alive(e));
      GoneDead(was, e);
    }
  }

  /** Change one task's state: the links stay. */
  method MarkState(t: Task, st: State, ghost ring: seq<Task>, ghost i: nat)
    requires Cycle(ring) && i < |ring| && ring[i] == t
    modifies t`state
    ensures Cycle(ring) && Entries(ring) == SetState(old(Entries(ring)), i, st)
  {
    ghost var e := Entries(ring);
    t.state := st;
    assert Shows(ring, SetState(e, i, st));
    ShowsEntries(ring, SetState(e, i, st));
  }

  /** Link a new task in behind the last one. */
  method LinkLast(last: Task, list: Task, t: Task, ghost ring: seq<Task>)
    requires ring != [] && Cycle(ring) && ring[0] == list && ring[|ring| - 1] == last && t !in ring
    modifies last`next, t`next
    ensures Cycle(ring + [t]) && Entries(ring + [t]) == old(Entries(ring)) + [Entry(t.pid, t.state)]
  {
    ghost var e := Entries(ring) + [Entry(t.pid, t.state)];
    last.next := t;
    t.next := list;
    ghost var r := ring + [t];
    assert NoDup(r) by {
      forall i, j | 0 <= i < j < |r| ensures r[i] != r[j] {
        if j == |ring| {
          assert ring[i] in ring;
        }
      }
    }
    forall i | 0 <= i < |r|
      ensures Joined(r, i)
    {
      assert i < |ring| - 1 ==> old(Joined(ring, i)) && ring[i] != last && ring[i] in ring;
    }
    assert Shows(r, e);
    ShowsEntries(r, e);
  }

  /** Link the last task past a dead head. */
  method UnlinkHead(last: Task, list: Task, ghost ring: seq<Task>)
    requires |ring| > 1 && Cycle(ring) && ring[0] == list && ring[|ring| - 1] == last
    modifies last`next
    ensures Cycle(ring[1..]) && list.next == old(list.next)
  {
    assert Joined(ring, 0);
    last.next := list.next;
    forall i | 0 <= i < |ring| - 1
      ensures Joined(ring[1..], i)
    {
      assert old(Joined(ring, i + 1));
    }
  }

  lemma TailMembers(ring: seq<Task>)
    requires ring != [] && NoDup(ring)
    ensures ring[0] !in ring[1..]
    ensures forall t :: t in ring <==> t == ring[0] || t in ring[1..]
  {
    assert ring == [ring[0]] + ring[1..];
  }

  lemma EntriesEmpty()
    ensures Entries([]) == []
  {
  }

  /** A task alone in the ring. */
  method LinkFirst(t: Task)
    modifies t`next
    ensures Cycle([t]) && Entries([t]) == [Entry(t.pid, t.state)]
  {
    t.next := t;
    ShowsEntries([t], [Entry(t.pid, t.state)]);
  }

  /** Put the task that ran back and let the next one run. A task that was freed is not written. */
  method SwitchTo(prev: Task, next: Task, ghost ring: seq<Task>, ghost k: nat)
    requires Cycle(ring) && k < |ring| && ring[k] == next && DistinctPids(Entries(ring))
    requires prev in ring || (!prev.state.Running? && Find(Entries(ring), prev.pid) == |ring|)
    modifies prev`state, next`state
    ensures Cycle(ring) && Entries(ring) == Dispatch(old(Entries(ring)), old(Find(Entries(ring), prev.pid)), k)
  {
    hide Cycle, Entries, Find;
    if prev.state.Running? {
      ghost var c :| 0 <= c < |ring| && ring[c] == prev;
      FindIs(Entries(ring), c);
      MarkState(prev, Ready, ring, c);
    } else if prev in ring {
      ghost var c :| 0 <= c < |ring| && ring[c] == prev;
      FindIs(Entries(ring), c);
    }
    MarkState(next, Running, ring, k);
  }

  /** A task that left the ring is not found in it by its pid. */
  lemma FreedNotFound(was: seq<Task>, e: seq<Entry>, ring: seq<Task>, prev: Task)
    requires |e| == |was| && (forall i :: 0 <= i < |was| ==> e[i].pid == was[i].pid) && DistinctPids(e)
    requires prev in was && prev !in ring && forall i :: 0 <= i < |ring| ==> ring[i] in was
    ensures Find(Entries(ring), prev.pid) == |ring|
  {
    hide Find;
    forall i | 0 <= i < |ring|
      ensures Entries(ring)[i].pid != prev.pid
    {
      assert ring[i] in ring && ring[i] in was;
      var a :| 0 <= a < |was| && was[a] == ring[i];
      var b :| 0 <= b < |was| && was[b] == prev;
      assert e[a].pid == ring[i].pid && e[b].pid == prev.pid;
    }
  }

  ghost predicate NoneCanRun(r: seq<Entry>) {
    forall i :: 0 <= i < |r| ==> !Runnable(r[i])
  }

  /** Pids are distinct and below the next one. */
  ghost predicate PidsOk(r: seq<Entry>, nextPid: nat) {
    DistinctPids(r) && forall i :: 0 <= i < |r| ==> r[i].pid < nextPid
  }

  lemma PidsOkCreate(r: seq<Entry>, e: Entry)
    requires PidsOk(r, e.pid)
    ensures PidsOk(r + [e], e.pid + 1)
  {
  }

  lemma PidsOkReap(r: seq<Entry>, nextPid: nat)
    requires PidsOk(r, nextPid)
    ensures PidsOk(Reap(r), nextPid)
  {
    ReapDistinct(r);
    assert forall i :: 0 <= i < |Reap(r)| ==> Reap(r)[i] in Reap(r);
  }

  lemma PidsOkDispatch(r: seq<Entry>, nextPid: nat, c: nat, k: nat)
    requires PidsOk(r, nextPid) && k < |r|
    ensures PidsOk(Dispatch(r, c, k), nextPid)
  {
  }

  lemma PidsOkSetState(r: seq<Entry>, nextPid: nat, i: nat, st: State)
    requires PidsOk(r, nextPid) && i < |r|
    ensures PidsOk(SetState(r, i, st), nextPid)
  {
  }

  class Scheduler {
    var nextPid: nat
    var current: Task?
    var list: Task?
    /** The tasks in ring order. */
    ghost var ring: seq<Task>

    /** The next links are one cycle through exactly the tasks of the ring, whose pids are distinct and
        below the next one. */
    ghost predicate WellLinked()
      reads this, ring
    {
      && (if list == null then ring == [] else ring != [] && ring[0] == list)
      && Cycle(ring)
      && PidsOk(Entries(ring), nextPid)
    }

    ghost predicate Valid()
      reads this, ring
    {
      WellLinked() && (current == null || current in ring)
    }

    constructor ()
      ensures Valid() && ring == [] && current == null && nextPid == 1
    {
      nextPid, current, list := 1, null, null;
      ring := [];
    }

    /** The main task, the only one in the ring, running. */
    method Init()
      requires Valid() && ring == []
      modifies this
      ensures Valid() && |ring| == 1 && fresh(ring[0]) && current == ring[0]
      ensures Entries(ring) == [Entry(old(nextPid), Running)] && nextPid == old(nextPid) + 1
    {
      var main := new Task(nextPid, Running);
      main.next := main;
      nextPid := nextPid + 1;
      current, list := main, main;
      ring := [main];
      assert Joined(ring, 0);
    }

    /** Link a new ready task in at the end of the ring. */
    method CreateTask() returns (t: Task)
      requires Cycle(ring) && (if list == null then ring == [] else ring != [] && ring[0] == list)
      modifies this, ring
      ensures fresh(t) && t.pid == old(nextPid) && t.state == Ready && nextPid == old(nextPid) + 1
      ensures ring == old(ring) + [t] && current == old(current)
      ensures list == if old(list) == null then t else old(list)
      ensures Cycle(ring) && Entries(ring) == old(Entries(ring)) + [Entry(t.pid, Ready)]
    {
      ghost var was := ring;
      hide Cycle, Entries, NoDup;
      var last := list;
      if list != null {
        last := FindLast(list, was);
      }
      t := new Task(nextPid, Ready);
      assert t !in was;
      nextPid, ring := nextPid + 1, was + [t];
      if list == null {
        list := t;
        LinkFirst(t);
        assert ring == [t];
        EntriesEmpty();
      } else {
        LinkLast(last, list, t, was);
      }
    }

    /** Append a ready task at the end of the ring under the next pid. */
    method Create() returns (pid: nat)
      requires Valid()
      modifies this, ring
      ensures Valid() && pid == old(nextPid) && nextPid == pid + 1 && current == old(current)
      ensures |ring| == |old(ring)| + 1 && ring[..|old(ring)|] == old(ring) && fresh(ring[|old(ring)|])
      ensures Entries(ring) == old(Entries(ring)) + [Entry(pid, Ready)]
    {
      pid := nextPid;
      PidsOkCreate(Entries(ring), Entry(pid, Ready));
      hide PidsOk, Cycle, Entries;
      var t := CreateTask();
    }

    /** The null end of the walk is never met: a pid that is present is found. */
    method FindByPid(pid: nat) returns (t: Task)
      requires WellLinked() && Find(Entries(ring), pid) < |ring|
      ensures t == ring[Find(Entries(ring), pid)] && t.pid == pid
    {
      hide Find;
      t := list;
      ghost var k := 0;
      while t.pid != pid
        invariant 0 <= k <= Find(Entries(ring), pid) && t == ring[k]
        decreases |ring| - k
      {
        assert Joined(ring, k);
        assert Entries(ring)[k].pid == t.pid;
        t := t.next;
        k := k + 1;
      }
    }

    /** Mark a present task dead. */
    method Kill(pid: nat)
      requires Valid() && Find(Entries(ring), pid) < |ring|
      modifies ring
      ensures Valid() && Entries(ring) == SetState(old(Entries(ring)), old(Find(Entries(ring), pid)), Dead)
    {
      ghost var i := Find(Entries(ring), pid);
      var t := FindByPid(pid);
      hide Find, Cycle, PidsOk;
      PidsOkSetState(Entries(ring), nextPid, i, Dead);
      MarkState(t, Dead, ring, i);
    }

    /** The current task blocks or exits. */
    method LeaveCurrent(st: State)
      requires Valid() && current != null && st != Running
      modifies current
      ensures Valid() && Entries(ring) == SetState(old(Entries(ring)), old(Find(Entries(ring), current.pid)), st)
    {
      ghost var i :| 0 <= i < |ring| && ring[i] == current;
      FindIs(Entries(ring), i);
      hide Find, Cycle, PidsOk;
      PidsOkSetState(Entries(ring), nextPid, i, st);
      MarkState(current, st, ring, i);
    }

    /** Unlink the dead tasks. */
    method UnlinkDead(prev: Task, ghost e: seq<Entry>) returns (freedPrev: bool)
      requires Cycle(ring) && ring != [] && ring[0] == list && prev in ring && e == Entries(ring)
      requires |ring| > 1 || !ring[0].state.Dead?
      modifies this`ring, this`list, ring`next
      ensures ring == Remaining(old(ring), e) && ring != [] && ring[0] == list
      ensures Cycle(ring) && Entries(ring) == Reap(e) && freedPrev == (prev !in ring) && (freedPrev ==> prev.state.Dead?)
    {
      RemainingHead(ring, e);
      ghost var was := ring;
      hide Cycle, Entries, Reap, Remaining;
      var head: Task := list;
      if head.state.Dead? {
        head := head.next;
      }
      assert head == Remaining(was, e)[0];
      freedPrev := ReapRing(list, prev, was, e);
      SetRing(head, Remaining(was, e));
    }

    /** Make `head` the head of the list. */
    method SetRing(head: Task, ghost r: seq<Task>)
      requires Cycle(r) && r != [] && r[0] == head
      modifies this`list, this`ring
      ensures list == head && ring == r && Cycle(ring) && Entries(ring) == old(Entries(r))
    {
      list := head;
      ring := r;
    }

    /** Unlink and free the dead tasks. `ReapPartition` says that each is freed once and that those
        freed and those left make up the old ring. */
    method ReapDead(prev: Task) returns (freedPrev: bool)
      requires WellLinked() && ring != [] && prev in ring
      requires |ring| > 1 || !ring[0].state.Dead?
      modifies this`ring, this`list, ring`next
      ensures WellLinked() && ring != [] && ring == Remaining(old(ring), old(Entries(ring)))
      ensures Entries(ring) == Reap(old(Entries(ring)))
      ensures freedPrev == (prev !in ring) && (freedPrev ==> prev.state.Dead?)
    {
      ghost var e := Entries(ring);
      PidsOkReap(e, nextPid);
      hide PidsOk, Cycle, Entries, Reap, Remaining;
      freedPrev := UnlinkDead(prev, e);
    }

    /** Where the search for the next task starts: at the head if the current task was freed, else at
        the task behind it. */
    method FirstProbe(prev: Task, freedPrev: bool) returns (start: Task)
      requires WellLinked() && ring != [] && freedPrev == (prev !in ring)
      requires freedPrev ==> Find(Entries(ring), prev.pid) == |ring|
      ensures start == ring[ScanStart(Entries(ring), prev.pid)]
    {
      hide Find;
      if freedPrev {
        start := list;
      } else {
        ghost var c :| 0 <= c < |ring| && ring[c] == prev;
        FindIs(Entries(ring), c);
        assert Joined(ring, c);
        start := prev.next;
      }
    }

    /** Choose the next task and mark it running, the one that ran ready. */
    method RunNext(prev: Task, freedPrev: bool) returns (found: bool, next: Task)
      requires WellLinked() && ring != [] && freedPrev == (prev !in ring)
      requires freedPrev ==> Find(Entries(ring), prev.pid) == |ring| && !prev.state.Running?
      modifies prev`state, ring`state
      ensures Cycle(ring)
      ensures var r := old(Entries(ring));
              match Pick(r, ScanStart(r, prev.pid), 0)
              case None => !found && Entries(ring) == r
              case Some(k) => found && next == ring[k] && Entries(ring) == Dispatch(r, Find(r, prev.pid), k)
    {
      ghost var r := Entries(ring);
      ghost var from := ScanStart(r, prev.pid);
      assert DistinctPids(r);
      var start := FirstProbe(prev, freedPrev);
      hide Cycle, Entries, Find, Pick, Dispatch, PidsOk;
      next, found := PickNext(start, ring, from);
      if found {
        SwitchTo(prev, next, ring, Pick(r, from, 0).value);
      }
    }

    /** Make a task of the ring the current one. */
    method SetCurrent(t: Task)
      requires WellLinked() && t in ring
      modifies this`current
      ensures Valid() && current == t && ring == old(ring) && Entries(ring) == old(Entries(ring))
    {
      current := t;
    }

    /** The part of a scheduling step behind the reaping. If no task is runnable, the current task
        stays current, even when it has just been freed. */
    method Advance(prev: Task, freedPrev: bool)
      requires WellLinked() && ring != [] && freedPrev == (prev !in ring) && current == prev
      requires freedPrev ==> Find(Entries(ring), prev.pid) == |ring| && !prev.state.Running?
      modifies this`current, prev`state, ring`state
      ensures WellLinked() && ring == old(ring) && current != null
      ensures Sched(Entries(ring), current.pid) == Advanced(old(Entries(ring)), prev.pid)
      ensures current in ring || (current == prev && NoneCanRun(Entries(ring)))
    {
      ghost var r := Entries(ring);
      hide Cycle, Entries, Find, Pick, Dispatch, PidsOk;
      ghost var pick := Pick(r, ScanStart(r, prev.pid), 0);
      if pick.Some? {
        PidsOkDispatch(r, nextPid, Find(r, prev.pid), pick.value);
      } else {
        NoneRunnable(r, ScanStart(r, prev.pid));
      }
      var found, next := RunNext(prev, freedPrev);
      if found {
        SetCurrent(next);
      }
    }

    /** Reap, and report whether the current task was freed. */
    method ReapCurrent(prev: Task) returns (freedPrev: bool)
      requires WellLinked() && prev in ring
      requires ring[0].state.Dead? ==> |ring| > 1
      modifies this`ring, this`list, ring`next
      ensures WellLinked() && ring != [] && ring == Remaining(old(ring), old(Entries(ring)))
      ensures Entries(ring) == Reap(old(Entries(ring)))
      ensures forall i :: 0 <= i < |ring| ==> ring[i] in old(ring)
      ensures freedPrev == (prev !in ring)
      ensures freedPrev ==> Find(Entries(ring), prev.pid) == |ring| && !prev.state.Running?
    {
      ghost var was := ring;
      ghost var e := Entries(ring);
      assert DistinctPids(e) && NoDup(was);
      hide Cycle, Entries, Find, Reap, PidsOk, Remaining;
      freedPrev := ReapDead(prev);
      assert forall i :: 0 <= i < |ring| ==> ring[i] in was by {
        ReapPartition(was, e);
      }
      if freedPrev {
        FreedNotFound(was, e, ring, prev);
      }
    }

    /** One scheduling step with a current task. */
    method Reschedule()
      requires Valid() && current != null
      requires ring[0].state.Dead? ==> |ring| > 1
      modifies this, ring
      ensures WellLinked() && current != null && ring == Remaining(old(ring), old(Entries(ring)))
      ensures Sched(Entries(ring), current.pid) == Schedule(old(Sched(Entries(ring), current.pid)))
      ensures current in ring || (current == old(current) && NoneCanRun(Entries(ring)))
    {
      hide Cycle, Entries, Find, Reap, PidsOk, Remaining, Advanced, NoneCanRun;
      var prev: Task := current;
      var freedPrev := ReapCurrent(prev);
      Advance(prev, freedPrev);
    }

    /** One scheduling step: nothing happens without a current task; otherwise the new ring, states and
        current task are those of the model's step, and the current task is in the ring unless it was
        freed and nothing can run. */
    method ScheduleNext()
      requires Valid()
      requires ring != [] && ring[0].state.Dead? ==> |ring| > 1
      modifies this, ring
      ensures old(current) == null ==> Valid() && ring == old(ring) && current == null && Entries(ring) == old(Entries(ring))
      ensures old(current) != null ==> WellLinked() && current != null && ring == Remaining(old(ring), old(Entries(ring)))
      ensures old(current) != null ==> Sched(Entries(ring), current.pid) == Schedule(old(Sched(Entries(ring), current.pid)))
      ensures old(current) != null ==> current in ring || (current == old(current) && NoneCanRun(Entries(ring)))
    {
      hide Cycle, Entries, PidsOk, Remaining, Schedule, NoneCanRun;
      if current == null || list == null {
        return;
      }
      Reschedule();
    }
  }
}
