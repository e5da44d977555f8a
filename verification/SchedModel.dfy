/** The round-robin scheduler on values: the ring of tasks, one scheduling step, and bounded waiting. */
module SchedModel {
  import opened Bytes

  datatype State = Running | Ready | Blocked | Dead

  datatype Entry = Entry(pid: nat, state: State)

  /** The ring from the head of the task list on, and the pid of the current task. */
  datatype Sched = Sched(ring: seq<Entry>, cur: nat)

  predicate Runnable(e: Entry) {
    e.state.Ready? || e.state.Running?
  }

  /** The ring without its dead tasks, in order. */
  function Alive(r: seq<Entry>): (a: seq<Entry>)
    ensures |a| <= |r|
  {
    if r == [] then []
    else
      var last := r[|r| - 1];
      Alive(r[..|r| - 1]) + if last.state.Dead? then [] else [last]
  }

  lemma {:induction false} AliveMembers(r: seq<Entry>)
    ensures forall e :: e in Alive(r) <==> e in r && !e.state.Dead?
  {
    if r != [] {
      var n := |r| - 1;
      AliveMembers(r[..n]);
      assert r == r[..n] + [r[n]];
    }
  }

  /** What the reaping loop leaves: it stops right after removing a dead head. */
  function Reap(r: seq<Entry>): (a: seq<Entry>) {
    if r != [] && r[0].state.Dead? then r[1..] else Alive(r)
  }

  /** Reaping removes all dead tasks exactly when the head is alive or is the only dead one. */
  lemma ReapIsFilter(r: seq<Entry>)
    ensures Reap(r) == Alive(r) <==> r == [] || !r[0].state.Dead? || forall i :: 0 < i < |r| ==> !r[i].state.Dead?
  {
    if r != [] && r[0].state.Dead? {
      AliveTail(r);
      AliveAll(r[1..]);
      hide Alive;
      assert Reap(r) == r[1..];
    }
  }

  lemma {:induction false} AliveTail(r: seq<Entry>)
    requires r != [] && r[0].state.Dead?
    ensures Alive(r) == Alive(r[1..])
  {
    if |r| > 1 {
      AliveTail(r[..|r| - 1]);
      assert r[..|r| - 1][1..] == r[1..][..|r| - 2];
    } else {
      assert r[..0] == [] && r[1..] == [];
    }
  }

  lemma AliveAll(r: seq<Entry>)
    ensures Alive(r) == r <==> forall i :: 0 <= i < |r| ==> !r[i].state.Dead?
  {
    if forall i :: 0 <= i < |r| ==> !r[i].state.Dead? {
      NoneDead(r);
    } else {
      hide Alive;
      var i :| 0 <= i < |r| && r[i].state.Dead?;
      AliveMembers(r);
      assert r[i] in r && r[i] !in Alive(r);
    }
  }

  lemma {:induction false} NoneDead(r: seq<Entry>)
    requires forall i :: 0 <= i < |r| ==> !r[i].state.Dead?
    ensures Alive(r) == r
  {
    if r != [] {
      NoneDead(r[..|r| - 1]);
      assert r == r[..|r| - 1] + [r[|r| - 1]];
    }
  }

  ghost predicate DistinctPids(r: seq<Entry>) {
    forall i, j :: 0 <= i < j < |r| ==> r[i].pid != r[j].pid
  }

  /** Position of the task with a pid; the length of the ring if there is none. */
  function Find(r: seq<Entry>, pid: nat): (i: nat)
    ensures i <= |r|
    ensures i < |r| ==> r[i].pid == pid
    ensures forall k :: 0 <= k < i ==> r[k].pid != pid
  {
    if r == [] then 0 else if r[0].pid == pid then 0 else 1 + Find(r[1..], pid)
  }

  lemma FindIs(r: seq<Entry>, i: nat)
    requires DistinctPids(r) && i < |r|
    ensures Find(r, r[i].pid) == i
  {
  }

  /** Position reached from `start` after `k` ring steps. */
  function Around(n: nat, start: nat, k: nat): (i: nat)
    requires start < n && k < n
    ensures i < n
  {
    if start + k < n then start + k else start + k - n
  }

  /** The first runnable task in ring order from `start`, having passed `k` tasks. */
  function Pick(r: seq<Entry>, start: nat, k: nat): (i: Option<nat>)
    requires start < |r| && k <= |r|
    ensures i.Some? ==> i.value < |r| && Runnable(r[i.value])
    decreases |r| - k
  {
    if k == |r| then None
    else if Runnable(r[Around(|r|, start, k)]) then Some(Around(|r|, start, k))
    else Pick(r, start, k + 1)
  }

  /** `Pick` returns the first runnable task in ring order and fails only if there is none. */
  lemma {:induction false} PickIsFirst(r: seq<Entry>, start: nat, k: nat, j: nat)
    requires start < |r| && k <= j < |r| && Runnable(r[Around(|r|, start, j)])
    ensures exists m: nat :: k <= m <= j && Pick(r, start, k) == Some(Around(|r|, start, m))
                             && forall x: nat :: k <= x < m ==> !Runnable(r[Around(|r|, start, x)])
    decreases |r| - k
  {
    if !Runnable(r[Around(|r|, start, k)]) {
      PickIsFirst(r, start, k + 1, j);
      var m: nat :| k + 1 <= m <= j && Pick(r, start, k + 1) == Some(Around(|r|, start, m))
                    && forall x: nat :: k + 1 <= x < m ==> !Runnable(r[Around(|r|, start, x)]);
      assert k <= m <= j && Pick(r, start, k) == Some(Around(|r|, start, m));
    }
  }

  function SetState(r: seq<Entry>, i: nat, st: State): (r': seq<Entry>)
    requires i < |r|
    ensures |r'| == |r| && forall k :: 0 <= k < |r| ==> r'[k].pid == r[k].pid
  {
    r[i := r[i].(state := st)]
  }

  /** The running task `c` is put back, task `k` runs. */
  function Dispatch(r: seq<Entry>, c: nat, k: nat): (r': seq<Entry>)
    requires k < |r|
    ensures |r'| == |r| && forall i :: 0 <= i < |r| ==> r'[i].pid == r[i].pid
  {
    var r1 := if c < |r| && r[c].state.Running? then SetState(r, c, Ready) else r;
    SetState(r1, k, Running)
  }

  /** Where the search for the next task starts: behind the current task, or at the head if the
      current task was reaped. */
  function ScanStart(r: seq<Entry>, cur: nat): (i: nat)
    requires r != []
    ensures i < |r|
  {
    var c := Find(r, cur);
    if c + 1 < |r| then c + 1 else 0
  }

  /** The step on a reaped ring: run the first runnable task from the scan start, if there is one. */
  function Advanced(r: seq<Entry>, cur: nat): (s: Sched)
    requires r != []
  {
    match Pick(r, ScanStart(r, cur), 0)
    case None => Sched(r, cur)
    case Some(k) => Sched(Dispatch(r, Find(r, cur), k), r[k].pid)
  }

  function Schedule(s: Sched): (s': Sched) {
    if Reap(s.ring) == [] then Sched([], s.cur) else Advanced(Reap(s.ring), s.cur)
  }

  // --- Safety ---------------------------------------------------------------------------------

  /** Pids are distinct, and a running task is the current one. */
  ghost predicate Safe(s: Sched) {
    && s.ring != []
    && DistinctPids(s.ring)
    && (forall i :: 0 <= i < |s.ring| && s.ring[i].state.Running? ==> s.ring[i].pid == s.cur)
  }

  lemma {:induction false} AliveDistinct(r: seq<Entry>)
    requires DistinctPids(r)
    ensures DistinctPids(Alive(r))
  {
    if r != [] {
      var n := |r| - 1;
      AliveDistinct(r[..n]);
      forall i | 0 <= i < |Alive(r[..n])|
        ensures Alive(r[..n])[i].pid != r[n].pid
      {
        var e := Alive(r[..n])[i];
        AliveMembers(r[..n]);
        assert e in Alive(r[..n]);
        var k :| 0 <= k < n && r[..n][k] == e;
        assert r[k].pid != r[n].pid;
      }
    }
  }

  lemma ReapDistinct(r: seq<Entry>)
    requires DistinctPids(r)
    ensures DistinctPids(Reap(r)) && forall e :: e in Reap(r) ==> e in r
  {
    AliveDistinct(r);
    AliveMembers(r);
  }

  /** Dispatching keeps positions, and only the dispatched task runs afterwards. */
  lemma DispatchSafe(r: seq<Entry>, cur: nat, k: nat)
    requires DistinctPids(r) && k < |r|
    requires forall i :: 0 <= i < |r| && r[i].state.Running? ==> r[i].pid == cur
    ensures var r' := Dispatch(r, Find(r, cur), k);
            && DistinctPids(r') && r'[k] == Entry(r[k].pid, Running)
            && forall i :: 0 <= i < |r'| && r'[i].state.Running? ==> r'[i].pid == r[k].pid
  {
    hide Find;
  }

  lemma AnyRunnablePicked(r: seq<Entry>, start: nat, i: nat)
    requires start < |r| && i < |r| && Runnable(r[i])
    ensures Pick(r, start, 0).Some?
  {
    PickIsFirst(r, start, 0, if start <= i then i - start else i - start + |r|);
  }

  lemma NoneRunnable(r: seq<Entry>, start: nat)
    requires start < |r| && Pick(r, start, 0).None?
    ensures forall i :: 0 <= i < |r| ==> !Runnable(r[i])
  {
    forall i | 0 <= i < |r|
      ensures !Runnable(r[i])
    {
      if Runnable(r[i]) {
        AnyRunnablePicked(r, start, i);
      }
    }
  }

  /** A scheduling step keeps the ring safe, and leaves a running task if a task was runnable: the
      one it made current. */
  lemma ScheduleSafe(s: Sched)
    requires Safe(s) && Reap(s.ring) != []
    ensures Safe(Schedule(s))
    ensures (exists i :: 0 <= i < |Reap(s.ring)| && Runnable(Reap(s.ring)[i])) ==>
              var s' := Schedule(s);
              Find(s'.ring, s'.cur) < |s'.ring| && s'.ring[Find(s'.ring, s'.cur)] == Entry(s'.cur, Running)
  {
    var r := Reap(s.ring);
    ReapDistinct(s.ring);
    var s' := Schedule(s);
    hide Reap, Find, Dispatch, Pick;
    forall i | 0 <= i < |r| && r[i].state.Running?
      ensures r[i].pid == s.cur
    {
      assert r[i] in r;
    }
    var start := ScanStart(r, s.cur);
    var k := Pick(r, start, 0);
    if k.Some? {
      DispatchSafe(r, s.cur, k.value);
      FindIs(s'.ring, k.value);
    } else {
      NoneRunnable(r, start);
    }
  }

  /** Task by task, what a step does to the ring that reaping left: who could run can still run and nobody
      else can, a task that cannot run stays as it is, and only the new current task runs. So the task that
      was running is ready again. */
  lemma StepKeepsTasks(s: Sched, i: nat)
    requires Safe(s) && i < |Reap(s.ring)|
    ensures var s' := Schedule(s);
            var was := Reap(s.ring)[i];
            && |s'.ring| == |Reap(s.ring)| && s'.ring[i].pid == was.pid
            && (Runnable(s'.ring[i]) <==> Runnable(was))
            && (was.state in {Blocked, Dead} ==> s'.ring[i] == was)
            && (was.state in {Running, Ready} ==> s'.ring[i].state == if was.pid == s'.cur then Running else Ready)
  {
    var r := Reap(s.ring);
    ReapDistinct(s.ring);
    hide Reap, Find, Pick;
    forall j | 0 <= j < |r| && r[j].state.Running?
      ensures r[j].pid == s.cur
    {
      assert r[j] in r;
    }
    var start := ScanStart(r, s.cur);
    if Pick(r, start, 0).None? {
      NoneRunnable(r, start);
    }
  }

  // --- Bounded waiting ------------------------------------------------------------------------

  /** Number of survivors before position `i`: where the task at `i` moves to. */
  function Rank(r: seq<Entry>, i: nat): (k: nat)
    requires i <= |r|
  {
    |Alive(r[..i])|
  }

  lemma {:induction false} AliveAt(r: seq<Entry>, i: nat)
    requires i < |r| && !r[i].state.Dead?
    ensures Rank(r, i) < |Alive(r)| && Alive(r)[Rank(r, i)] == r[i]
  {
    var n := |r| - 1;
    if i < n {
      AliveAt(r[..n], i);
      assert r[..n][..i] == r[..i];
    }
  }

  /** Between two positions at most that many tasks survive, and fewer if the first one is dead. */
  lemma {:induction false} RankGap(r: seq<Entry>, i: nat, j: nat)
    requires i <= j <= |r|
    ensures Rank(r, i) <= Rank(r, j) <= Rank(r, i) + (j - i)
    ensures i < j && r[i].state.Dead? ==> Rank(r, j) < Rank(r, i) + (j - i)
    decreases j
  {
    if i < j {
      RankGap(r, i, j - 1);
      assert r[..j][..j - 1] == r[..j - 1];
    }
  }

  /** Ring distance from position `c` forward to position `p`. */
  function Ahead(n: nat, c: nat, p: nat): (d: nat)
    requires c < n && p < n && c != p
    ensures 0 < d < n
  {
    if c < p then p - c else p - c + n
  }

  /** Waiting budget of a task: its position from the head counts a full round each, then the ring
      distance from the current task. `n` bounds the ring's length. */
  ghost function Budget(n: nat, s: Sched, target: nat): nat
    requires Waiting(s, target)
  {
    Find(s.ring, target) * n + Ahead(|s.ring|, Find(s.ring, s.cur), Find(s.ring, target))
  }

  /** The current task and the target are in the ring, and the target is ready but not running. */
  ghost predicate Waiting(s: Sched, target: nat) {
    && s.ring != [] && DistinctPids(s.ring)
    && Find(s.ring, s.cur) < |s.ring| && Find(s.ring, target) < |s.ring|
    && s.ring[Find(s.ring, target)].state.Ready? && s.cur != target
  }

  /** Task `i` is found where it was after a dispatch. */
  lemma FoundAfterDispatch(r: seq<Entry>, c: nat, k: nat, i: nat)
    requires DistinctPids(r) && k < |r| && i < |r|
    ensures Find(Dispatch(r, c, k), r[i].pid) == i && DistinctPids(Dispatch(r, c, k))
  {
    hide Find;
    FindIs(Dispatch(r, c, k), i);
  }

  /** With the current task reaped the search starts at the head and stops before the target. */
  lemma RestartPositions(r: seq<Entry>, cur: nat, p: nat)
    requires DistinctPids(r) && p < |r| && Runnable(r[p]) && Find(r, cur) == |r|
    requires Pick(r, ScanStart(r, cur), 0) != Some(p)
    ensures Pick(r, ScanStart(r, cur), 0).Some? && Pick(r, ScanStart(r, cur), 0).value < p
  {
    hide Find, Pick;
    PickIsFirst(r, 0, 0, p);
  }

  /** Otherwise the search starts behind the current task and the next task is nearer the target. */
  lemma NearerPositions(r: seq<Entry>, cur: nat, c: nat, p: nat)
    requires DistinctPids(r) && p < |r| && Runnable(r[p]) && c < |r| && c != p && Find(r, cur) == c
    requires Pick(r, ScanStart(r, cur), 0) != Some(p)
    ensures Pick(r, ScanStart(r, cur), 0).Some?
    ensures var k := Pick(r, ScanStart(r, cur), 0).value; k != p && Ahead(|r|, k, p) < Ahead(|r|, c, p)
  {
    hide Find, Pick;
    var start := ScanStart(r, cur);
    var j := Ahead(|r|, c, p) - 1;
    assert Around(|r|, start, j) == p;
    PickIsFirst(r, start, 0, j);
    var m: nat :| 0 <= m <= j && Pick(r, start, 0) == Some(Around(|r|, start, m));
  }

  /** Where reaping moves the task at position `p`. */
  function Moved(r: seq<Entry>, p: nat): (k: nat)
    requires 0 < |r| && p < |r| && !r[p].state.Dead?
  {
    if r[0].state.Dead? then p - 1 else Rank(r, p)
  }

  lemma MovedAt(r: seq<Entry>, p: nat)
    requires 0 < |r| && p < |r| && !r[p].state.Dead?
    ensures Moved(r, p) < |Reap(r)| && Reap(r)[Moved(r, p)] == r[p]
  {
    if !r[0].state.Dead? {
      AliveAt(r, p);
    }
  }

  /** The ring, the target and the next task after a step that passes the target over. */
  lemma StepShape(s: Sched, target: nat)
    requires Waiting(s, target) && Schedule(s).cur != target
    ensures var r := Reap(s.ring);
            var p' := Moved(s.ring, Find(s.ring, target));
            && DistinctPids(r) && p' < |r| && r[p'] == s.ring[Find(s.ring, target)]
            && r[p'].pid == target && Runnable(r[p'])
            && var k := Pick(r, ScanStart(r, s.cur), 0);
            && k.Some? && k != Some(p')
            && Schedule(s) == Sched(Dispatch(r, Find(r, s.cur), k.value), r[k.value].pid)
            && Find(Schedule(s).ring, target) == p' && Find(Schedule(s).ring, Schedule(s).cur) == k.value
  {
    var r := Reap(s.ring);
    MovedAt(s.ring, Find(s.ring, target));
    ReapDistinct(s.ring);
    var p' := Moved(s.ring, Find(s.ring, target));
    hide Reap, Find, Pick, Dispatch, Moved;
    AnyRunnablePicked(r, ScanStart(r, s.cur), p');
    var k := Pick(r, ScanStart(r, s.cur), 0).value;
    FoundAfterDispatch(r, Find(r, s.cur), k, p');
    FoundAfterDispatch(r, Find(r, s.cur), k, k);
  }

  lemma DeadNotFound(r: seq<Entry>, c: nat)
    requires DistinctPids(r) && c < |r| && r[c].state.Dead?
    ensures Find(Alive(r), r[c].pid) == |Alive(r)|
  {
    hide Alive, Find;
    var k := Find(Alive(r), r[c].pid);
    if k < |Alive(r)| {
      var e := Alive(r)[k];
      AliveMembers(r);
      assert e in Alive(r) && e in r;
      var i :| 0 <= i < |r| && r[i] == e;
      assert false;
    }
  }

  /** Every scheduling step that passes the target over uses up budget. */
  lemma StepUsesBudget(n: nat, s: Sched, target: nat)
    requires Waiting(s, target) && |s.ring| <= n && Schedule(s).cur != target
    requires Waiting(Schedule(s), target)
    ensures Budget(n, Schedule(s), target) < Budget(n, s, target)
  {
    hide Alive, Find, Pick, Schedule, Dispatch;
    var r := Reap(s.ring);
    var p, c := Find(s.ring, target), Find(s.ring, s.cur);
    StepShape(s, target);
    var k := Pick(r, ScanStart(r, s.cur), 0).value;
    if s.ring[0].state.Dead? {
      DeadHeadBudget(n, |s.ring|, c, p, k);
    } else {
      AliveStepUsesBudget(n, s, target, k);
    }
  }

  /** The head died: the target moved one place closer to it. */
  lemma DeadHeadBudget(n: nat, len: nat, c: nat, p: nat, k: nat)
    requires 0 < p < len <= n && c < len && c != p && k < len - 1 && k != p - 1
    ensures (p - 1) * n + Ahead(len - 1, k, p - 1) < p * n + Ahead(len, c, p)
  {
    MulStep(p - 1, p, n);
  }

  lemma AliveStepUsesBudget(n: nat, s: Sched, target: nat, k: nat)
    requires Waiting(s, target) && |s.ring| <= n && !s.ring[0].state.Dead?
    requires var r, p' := Alive(s.ring), Rank(s.ring, Find(s.ring, target));
             && DistinctPids(r) && p' < |r| && r[p'] == s.ring[Find(s.ring, target)] && k < |r|
             && Pick(r, ScanStart(r, s.cur), 0) == Some(k) && k != p'
    ensures var p', p := Rank(s.ring, Find(s.ring, target)), Find(s.ring, target);
            p' * n + Ahead(|Alive(s.ring)|, k, p') < p * n + Ahead(|s.ring|, Find(s.ring, s.cur), p)
  {
    var r := Alive(s.ring);
    var p, c := Find(s.ring, target), Find(s.ring, s.cur);
    var p' := Rank(s.ring, p);
    assert Rank(s.ring, 0) == 0 && Rank(s.ring, |s.ring|) == |r| by {
      assert s.ring[..0] == [] && s.ring[..|s.ring|] == s.ring;
    }
    if s.ring[c].state.Dead? {
      DeadNotFound(s.ring, c);
      hide Alive, Find, Rank, Pick;
      RestartPositions(r, s.cur, p');
      RestartBudget(n, s.ring, c, p, k);
    } else {
      AliveAt(s.ring, c);
      FindIs(r, Rank(s.ring, c));
      hide Alive, Find, Rank, Pick;
      RankApart(s.ring, c, p);
      NearerPositions(r, s.cur, Rank(s.ring, c), p');
      NearerBudget(n, s.ring, c, p, k);
    }
  }

  lemma RankApart(r: seq<Entry>, c: nat, p: nat)
    requires c < |r| && p < |r| && c != p && !r[c].state.Dead? && !r[p].state.Dead?
    requires DistinctPids(r)
    ensures Rank(r, c) != Rank(r, p)
  {
    AliveAt(r, c);
    AliveAt(r, p);
  }

  /** The current task died: either the target moved closer to the head, or the distance shrank. */
  lemma RestartBudget(n: nat, r: seq<Entry>, c: nat, p: nat, k: nat)
    requires |r| <= n && c < |r| && p < |r| && c != p && r[c].state.Dead? && k < Rank(r, p) < Rank(r, |r|)
    requires Rank(r, 0) == 0
    ensures Rank(r, p) * n + Ahead(Rank(r, |r|), k, Rank(r, p)) < p * n + Ahead(|r|, c, p)
  {
    hide Rank;
    RankGap(r, 0, p);
    RankGap(r, p, |r|);
    if c < p {
      RankGap(r, 0, c);
      RankGap(r, c, p);
      MulStep(Rank(r, p), p, n);
    } else {
      MulMonotone(Rank(r, p), p, n);
    }
  }

  /** The current task survived: the distance shrank and the target is no farther from the head. */
  lemma NearerBudget(n: nat, r: seq<Entry>, c: nat, p: nat, k: nat)
    requires |r| <= n && c < |r| && p < |r| && c != p && Rank(r, 0) == 0
    requires Rank(r, c) < Rank(r, |r|) && Rank(r, p) < Rank(r, |r|) && Rank(r, c) != Rank(r, p)
    requires k < Rank(r, |r|) && k != Rank(r, p)
    requires Ahead(Rank(r, |r|), k, Rank(r, p)) < Ahead(Rank(r, |r|), Rank(r, c), Rank(r, p))
    ensures Rank(r, p) * n + Ahead(Rank(r, |r|), k, Rank(r, p)) < p * n + Ahead(|r|, c, p)
  {
    hide Rank;
    RankGap(r, 0, p);
    MulMonotone(Rank(r, p), p, n);
    if c < p {
      RankGap(r, c, p);
    } else {
      RankGap(r, p, c);
      RankGap(r, c, |r|);
    }
  }

  // --- Runs -----------------------------------------------------------------------------------

  /** A run alternates scheduling steps with state changes (kill, exit, block, wake) and creations. */
  datatype Event = Tick | Change(pid: nat, state: State) | Create(pid: nat)

  function Apply(s: Sched, e: Event): (s': Sched) {
    match e
    case Tick => Schedule(s)
    case Change(pid, st) =>
      if Find(s.ring, pid) < |s.ring| then s.(ring := SetState(s.ring, Find(s.ring, pid), st)) else s
    case Create(pid) => s.(ring := s.ring + [Entry(pid, Ready)])
  }

  /** The target waits through the whole run: it stays ready and is never dispatched. Other tasks,
      the head included, may die, block or wake at any time; none is created. */
  ghost predicate WaitsThrough(s: Sched, es: seq<Event>, target: nat)
    decreases |es|
  {
    && Waiting(s, target)
    && (es != [] ==> !es[0].Create? && WaitsThrough(Apply(s, es[0]), es[1..], target))
  }

  function Ticks(es: seq<Event>): (n: nat) {
    if es == [] then 0 else (if es[0].Tick? then 1 else 0) + Ticks(es[1..])
  }

  lemma ChangeKeepsBudget(n: nat, s: Sched, e: Event, target: nat)
    requires e.Change? && Waiting(s, target) && Waiting(Apply(s, e), target)
    ensures |Apply(s, e).ring| == |s.ring| && Budget(n, Apply(s, e), target) == Budget(n, s, target)
  {
    hide Find;
    var s' := Apply(s, e);
    FindIs(s'.ring, Find(s.ring, target));
    FindIs(s'.ring, Find(s.ring, s.cur));
  }

  lemma {:induction false} RunUsesBudget(n: nat, s: Sched, es: seq<Event>, target: nat)
    requires WaitsThrough(s, es, target) && |s.ring| <= n
    ensures Ticks(es) <= Budget(n, s, target)
    decreases |es|
  {
    if es != [] {
      hide Find, Budget, Waiting, Schedule, Alive;
      var s' := Apply(s, es[0]);
      assert Waiting(s', target) && Waiting(s, target);
      if es[0].Tick? {
        WaitingNotDispatched(s', target);
        StepUsesBudget(n, s, target);
        StepShrinks(s);
      } else {
        ChangeKeepsBudget(n, s, es[0], target);
      }
      RunUsesBudget(n, s', es[1..], target);
    }
  }

  lemma WaitingNotDispatched(s: Sched, target: nat)
    requires Waiting(s, target)
    ensures s.cur != target
  {
  }

  lemma StepShrinks(s: Sched)
    ensures |Schedule(s).ring| <= |s.ring|
  {
  }

  /** Bounded waiting: in every run, however the other tasks die, block or wake, a ready task that is
      not dispatched sees fewer than n * n scheduling steps, for a ring of n tasks. */
  lemma BoundedWaiting(s: Sched, es: seq<Event>, target: nat)
    requires WaitsThrough(s, es, target)
    ensures Ticks(es) < |s.ring| * |s.ring|
  {
    var n := |s.ring|;
    RunUsesBudget(n, s, es, target);
    var p := Find(s.ring, target);
    MulStep(p, n, n);
  }

  /** Some scheduling step of the run makes the target the current task. */
  ghost predicate DispatchedIn(s: Sched, es: seq<Event>, target: nat)
    decreases |es|
  {
    es != [] && ((es[0].Tick? && Apply(s, es[0]).cur == target) || DispatchedIn(Apply(s, es[0]), es[1..], target))
  }

  /** Nobody changes the target's state, and no task is created. */
  predicate LeavesAlone(es: seq<Event>, target: nat) {
    forall i :: 0 <= i < |es| ==> es[i].Tick? || (es[i].Change? && es[i].pid != target)
  }

  /** The target is in the ring and can run. */
  ghost predicate CanRun(s: Sched, target: nat) {
    Find(s.ring, target) < |s.ring| && Runnable(s.ring[Find(s.ring, target)])
  }

  lemma ChangeKeepsWaiting(s: Sched, e: Event, target: nat)
    requires Waiting(s, target) && e.Change? && e.pid != target
    ensures Waiting(Apply(s, e), target)
  {
    hide Find;
    var s' := Apply(s, e);
    FindIs(s'.ring, Find(s.ring, target));
    FindIs(s'.ring, Find(s.ring, s.cur));
  }

  /** A step that passes a waiting task over leaves it waiting. */
  lemma StepKeepsWaiting(s: Sched, target: nat)
    requires Waiting(s, target) && Schedule(s).cur != target
    ensures Waiting(Schedule(s), target)
  {
    StepShape(s, target);
    hide Reap, Find, Pick, Moved, Schedule;
    var r := Reap(s.ring);
    FoundAfterDispatch(r, Find(r, s.cur), Pick(r, ScanStart(r, s.cur), 0).value, Moved(s.ring, Find(s.ring, target)));
  }

  /** A waiting task that is left alone and not dispatched waits through the run. */
  lemma {:induction false} WaitsOn(s: Sched, es: seq<Event>, target: nat)
    requires Waiting(s, target) && LeavesAlone(es, target) && !DispatchedIn(s, es, target)
    ensures WaitsThrough(s, es, target)
    decreases |es|
  {
    if es != [] {
      hide Waiting, Schedule;
      if es[0].Tick? {
        StepKeepsWaiting(s, target);
      } else {
        ChangeKeepsWaiting(s, es[0], target);
      }
      WaitsOn(Apply(s, es[0]), es[1..], target);
    }
  }

  /** After a step that does not dispatch it, a task that can run waits, whether it was running, was ready
      or the current task was gone. */
  lemma StepStartsWaiting(s: Sched, target: nat)
    requires Safe(s) && CanRun(s, target) && Schedule(s).cur != target
    ensures Waiting(Schedule(s), target)
  {
    var p := Find(s.ring, target);
    MovedAt(s.ring, p);
    ReapDistinct(s.ring);
    var r, p' := Reap(s.ring), Moved(s.ring, p);
    StepKeepsTasks(s, p');
    hide Reap, Find, Pick, Moved, Dispatch;
    AnyRunnablePicked(r, ScanStart(r, s.cur), p');
    var k := Pick(r, ScanStart(r, s.cur), 0).value;
    FoundAfterDispatch(r, Find(r, s.cur), k, p');
    FoundAfterDispatch(r, Find(r, s.cur), k, k);
  }

  lemma ChangeKeepsRunnable(s: Sched, e: Event, target: nat)
    requires Safe(s) && CanRun(s, target) && e.Change? && e.pid != target && e.state != Running
    ensures Safe(Apply(s, e)) && CanRun(Apply(s, e), target) && |Apply(s, e).ring| == |s.ring|
  {
    hide Find;
    FindIs(Apply(s, e).ring, Find(s.ring, target));
  }

  /** A task that can run and is left alone is dispatched before more than n * n scheduling steps have
      passed, for a ring of n tasks: also when it is the task that the first of them preempts. */
  lemma {:induction false} DispatchedAgain(s: Sched, es: seq<Event>, target: nat)
    requires Safe(s) && CanRun(s, target) && LeavesAlone(es, target) && PermittedRun(s, es)
    requires Ticks(es) > |s.ring| * |s.ring|
    ensures DispatchedIn(s, es, target)
    decreases |es|
  {
    hide Find, Schedule, Safe, CanRun, Waiting;
    var s' := Apply(s, es[0]);
    if es[0].Change? {
      ChangeKeepsRunnable(s, es[0], target);
      DispatchedAgain(s', es[1..], target);
    } else if s'.cur != target && !DispatchedIn(s', es[1..], target) {
      StepStartsWaiting(s, target);
      WaitsOn(s', es[1..], target);
      BoundedWaiting(s', es[1..], target);
      StepShrinks(s);
      MulMonotone(|s'.ring|, |s.ring|, |s'.ring|);
      MulMonotone(|s'.ring|, |s.ring|, |s.ring|);
      assert false;
    }
  }

  /** What the callers of the scheduler may do: they mark no task as running, they create tasks under
      fresh pids, and a step leaves some task in the ring. */
  ghost predicate Permitted(s: Sched, e: Event) {
    match e
    case Tick => Reap(s.ring) != []
    case Change(pid, st) => st != Running
    case Create(pid) => Find(s.ring, pid) == |s.ring|
  }

  ghost predicate PermittedRun(s: Sched, es: seq<Event>)
    decreases |es|
  {
    es == [] || (Permitted(s, es[0]) && PermittedRun(Apply(s, es[0]), es[1..]))
  }

  function Run(s: Sched, es: seq<Event>): (s': Sched)
    decreases |es|
  {
    if es == [] then s else Run(Apply(s, es[0]), es[1..])
  }

  /** In every run the pids stay distinct and at most the current task is running. */
  lemma {:induction false} RunSafe(s: Sched, es: seq<Event>)
    requires Safe(s) && PermittedRun(s, es)
    ensures Safe(Run(s, es))
    decreases |es|
  {
    if es != [] {
      if es[0].Tick? {
        ScheduleSafe(s);
      }
      RunSafe(Apply(s, es[0]), es[1..]);
    }
  }
}
