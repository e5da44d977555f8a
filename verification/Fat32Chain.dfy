/** Cluster chains as paths through the table of links. */
module Fat32Chain {
  import opened Bytes
  import opened Fat32Layout

  /** A link is free, inside the table, or an end-of-chain mark. */
  predicate LinkOk(t: seq<nat>, v: nat) {
    v == 0 || 2 <= v < |t| || v >= EOC_MIN
  }

  ghost predicate Sound(t: seq<nat>) {
    2 <= |t| <= BAD_CLUSTER && forall c :: 0 <= c < |t| ==> LinkOk(t, t[c])
  }

  lemma SoundUpdate(t: seq<nat>, c: nat, v: nat)
    requires Sound(t) && c < |t| && LinkOk(t, v)
    ensures Sound(t[c := v])
  {
  }

  predicate IsCluster(t: seq<nat>, c: nat) {
    2 <= c < |t|
  }

  /** The cluster reached from `start` after `n` links, if the path is that long. */
  ghost function Nth(t: seq<nat>, start: nat, n: nat): (r: Option<nat>)
    ensures r.Some? ==> IsCluster(t, r.value)
  {
    if n == 0 then (if IsCluster(t, start) then Some(start) else None)
    else
      match Nth(t, start, n - 1)
      case None => None
      case Some(c) => if IsCluster(t, t[c]) then Some(t[c]) else None
  }

  ghost predicate ReachedBefore(t: seq<nat>, start: nat, k: nat, x: nat) {
    exists j: nat :: j < k && Nth(t, start, j) == Some(x)
  }

  ghost predicate Reachable(t: seq<nat>, start: nat, x: nat) {
    exists j: nat :: Nth(t, start, j) == Some(x)
  }

  /** `t'` is `t` with exactly the clusters reachable from `start` set free. */
  ghost predicate Freed(t: seq<nat>, start: nat, t': seq<nat>) {
    && |t'| == |t|
    && forall x :: 0 <= x < |t| ==> t'[x] == if Reachable(t, start, x) then 0 else t[x]
  }

  lemma {:induction false} NthNone(t: seq<nat>, start: nat, k: nat, m: nat)
    requires Nth(t, start, k).None? && k <= m
    ensures Nth(t, start, m).None?
    decreases m
  {
    if k < m {
      NthNone(t, start, k, m - 1);
    }
  }

  /** A path that ends after `k` links visited everything reachable. */
  lemma EndedPath(t: seq<nat>, start: nat, k: nat)
    requires Nth(t, start, k).None?
    ensures forall x: nat :: Reachable(t, start, x) <==> ReachedBefore(t, start, k, x)
  {
    forall x: nat | Reachable(t, start, x)
      ensures ReachedBefore(t, start, k, x)
    {
      var j: nat :| Nth(t, start, j) == Some(x);
      if k <= j {
        NthNone(t, start, k, j);
        assert false;
      }
    }
  }

  lemma {:induction false} LoopStays(t: seq<nat>, start: nat, k: nat, m: nat)
    requires Nth(t, start, k).Some? && ReachedBefore(t, start, k, Nth(t, start, k).value)
    ensures Nth(t, start, m).Some? ==> ReachedBefore(t, start, k, Nth(t, start, m).value)
  {
    if k < m && Nth(t, start, m).Some? {
      LoopStays(t, start, k, m - 1);
      var j: nat :| j < k && Nth(t, start, j) == Nth(t, start, m - 1);
      assert Nth(t, start, j + 1) == Nth(t, start, m);
    }
  }

  /** A path that comes back to a visited cluster visited everything reachable. */
  lemma LoopedPath(t: seq<nat>, start: nat, k: nat)
    requires Nth(t, start, k).Some? && ReachedBefore(t, start, k, Nth(t, start, k).value)
    ensures forall x: nat :: Reachable(t, start, x) <==> ReachedBefore(t, start, k, x)
  {
    forall x: nat | Reachable(t, start, x)
      ensures ReachedBefore(t, start, k, x)
    {
      var j: nat :| Nth(t, start, j) == Some(x);
      LoopStays(t, start, k, j);
    }
  }

  /** `t'` is `t` with the first `k` clusters of the path from `start` set free. */
  ghost predicate FreedBefore(t: seq<nat>, start: nat, k: nat, t': seq<nat>) {
    && |t'| == |t|
    && forall x :: 0 <= x < |t| ==> t'[x] == if ReachedBefore(t, start, k, x) then 0 else t[x]
  }

  lemma ReachedOneMore(t: seq<nat>, start: nat, k: nat, cur: nat, x: nat)
    requires Nth(t, start, k) == Some(cur)
    ensures ReachedBefore(t, start, k + 1, x) <==> ReachedBefore(t, start, k, x) || x == cur
  {
    if ReachedBefore(t, start, k + 1, x) {
      var j: nat :| j < k + 1 && Nth(t, start, j) == Some(x);
    }
  }

  /** Freeing the cluster the path has come to extends the freed part by one. */
  lemma FreeOneMore(t: seq<nat>, start: nat, k: nat, was: seq<nat>, cur: nat)
    requires FreedBefore(t, start, k, was) && Nth(t, start, k) == Some(cur)
    ensures FreedBefore(t, start, k + 1, was[cur := 0])
  {
    forall x | 0 <= x < |t|
      ensures was[cur := 0][x] == if ReachedBefore(t, start, k + 1, x) then 0 else t[x]
    {
      ReachedOneMore(t, start, k, cur, x);
    }
  }

  lemma FreedNothing(t: seq<nat>, start: nat)
    ensures FreedBefore(t, start, 0, t)
  {
  }

  lemma FreedAll(t: seq<nat>, start: nat, k: nat, t': seq<nat>)
    requires FreedBefore(t, start, k, t')
    requires
      || Nth(t, start, k).None?
      || ReachedBefore(t, start, k, Nth(t, start, k).value)
    ensures Freed(t, start, t')
  {
    if Nth(t, start, k).None? {
      EndedPath(t, start, k);
    } else {
      LoopedPath(t, start, k);
    }
  }

  /** The three ways the freeing loop stops all leave exactly the reachable clusters free. */
  lemma FreeStops(t: seq<nat>, start: nat, k: nat, was: seq<nat>, cur: nat)
    requires Sound(t) && FreedBefore(t, start, k, was) && Nth(t, start, k) == Some(cur)
    requires was[cur] == 0 || was[cur] >= EOC_MIN || was[cur] == cur
    ensures Freed(t, start, was[cur := 0])
  {
    FreeOneMore(t, start, k, was, cur);
    ReachedOneMore(t, start, k, cur, cur);
    if ReachedBefore(t, start, k, cur) {
      assert was[cur := 0] == was;
      FreedAll(t, start, k, was);
    } else {
      assert Nth(t, start, k + 1) == if was[cur] == cur then Some(cur) else None;
      FreedAll(t, start, k + 1, was[cur := 0]);
    }
  }

  /** Number of clusters in use: the termination measure of freeing a chain. */
  ghost function InUse(t: seq<nat>): nat {
    if t == [] then 0 else InUse(t[..|t| - 1]) + if t[|t| - 1] == 0 then 0 else 1
  }

  lemma {:induction false} InUseDrops(t: seq<nat>, c: nat)
    requires c < |t| && t[c] != 0
    ensures InUse(t[c := 0]) == InUse(t) - 1
  {
    var n := |t| - 1;
    if c == n {
      assert t[c := 0][..n] == t[..n];
    } else {
      InUseDrops(t[..n], c);
      assert t[c := 0][..n] == t[..n][c := 0];
    }
  }

  /** Otherwise the path goes on to the link just read, with one cluster less in use. */
  lemma FreeGoesOn(t: seq<nat>, start: nat, k: nat, was: seq<nat>, cur: nat)
    requires Sound(t) && FreedBefore(t, start, k, was) && Nth(t, start, k) == Some(cur)
    requires was[cur] != 0 && was[cur] < EOC_MIN
    ensures Nth(t, start, k + 1) == Some(was[cur])
    ensures FreedBefore(t, start, k + 1, was[cur := 0])
    ensures InUse(was[cur := 0]) < InUse(was)
  {
    assert LinkOk(t, t[cur]);
    FreeOneMore(t, start, k, was, cur);
    InUseDrops(was, cur);
  }

  ghost predicate LinksOn(t: seq<nat>, cs: seq<nat>, i: nat) {
    i + 1 < |cs| && cs[i] < |t| && t[cs[i]] == cs[i + 1]
  }

  /** `c` is the lowest free cluster. */
  ghost predicate LowestFree(t: seq<nat>, c: nat) {
    IsCluster(t, c) && t[c] == 0 && forall x :: 2 <= x < c ==> t[x] != 0
  }

  ghost predicate NoneFree(t: seq<nat>) {
    forall x :: 2 <= x < |t| ==> t[x] != 0
  }

  /** `cs` is a complete chain of the table. */
  ghost predicate IsChain(t: seq<nat>, cs: seq<nat>) {
    && |cs| > 0
    && (forall i :: 0 <= i < |cs| ==> IsCluster(t, cs[i]))
    && (forall i :: 0 <= i < |cs| - 1 ==> LinksOn(t, cs, i))
    && t[cs[|cs| - 1]] >= EOC_MIN
  }

  /** In a chain, every cluster before the last links inside the table. */
  lemma ChainLink(t: seq<nat>, cs: seq<nat>, i: nat)
    requires |t| <= BAD_CLUSTER && IsChain(t, cs) && i < |cs|
    ensures IsCluster(t, cs[i]) && t[cs[i]] != 0
    ensures IsCluster(t, t[cs[i]]) <==> i + 1 < |cs|
    ensures i + 1 < |cs| ==> t[cs[i]] == cs[i + 1]
  {
    if i + 1 < |cs| {
      assert LinksOn(t, cs, i) && IsCluster(t, cs[i + 1]);
    }
  }

  lemma SameLinksSameChain(t: seq<nat>, t': seq<nat>, cs: seq<nat>)
    requires |t'| == |t| && IsChain(t, cs)
    requires forall i :: 0 <= i < |cs| ==> t'[cs[i]] == t[cs[i]]
    ensures IsChain(t', cs)
  {
    forall i | 0 <= i < |cs| - 1
      ensures LinksOn(t', cs, i)
    {
      assert LinksOn(t, cs, i);
    }
  }

  lemma {:induction false} ChainNth(t: seq<nat>, cs: seq<nat>, n: nat)
    requires |t| <= BAD_CLUSTER && IsChain(t, cs)
    ensures Nth(t, cs[0], n) == if n < |cs| then Some(cs[n]) else None
  {
    if n > 0 {
      ChainNth(t, cs, n - 1);
      if n - 1 < |cs| {
        ChainLink(t, cs, n - 1);
      }
    }
  }

  /** The clusters of a chain are the clusters reachable from its head. */
  lemma ChainReachable(t: seq<nat>, cs: seq<nat>)
    requires |t| <= BAD_CLUSTER && IsChain(t, cs)
    ensures forall x: nat :: Reachable(t, cs[0], x) <==> x in cs
  {
    forall x: nat
      ensures Reachable(t, cs[0], x) <==> x in cs
    {
      if Reachable(t, cs[0], x) {
        var j: nat :| Nth(t, cs[0], j) == Some(x);
        ChainNth(t, cs, j);
      }
      if x in cs {
        var j: nat :| j < |cs| && cs[j] == x;
        ChainNth(t, cs, j);
      }
    }
  }

  /** A chain visits no cluster twice. */
  lemma {:induction false} ChainDistinct(t: seq<nat>, cs: seq<nat>, i: nat, j: nat)
    requires |t| <= BAD_CLUSTER && IsChain(t, cs) && i < j < |cs|
    ensures cs[i] != cs[j]
    decreases |cs| - j
  {
    ChainLink(t, cs, i);
    ChainLink(t, cs, j);
    if cs[i] == cs[j] && j + 1 < |cs| {
      ChainDistinct(t, cs, i + 1, j + 1);
    }
  }

  ghost predicate Ascending(cs: seq<nat>) {
    forall i, j :: 0 <= i < j < |cs| ==> cs[i] < cs[j]
  }

  /** All clusters of `cs` are free in `t`. */
  ghost predicate Unused(t: seq<nat>, cs: seq<nat>) {
    forall i :: 0 <= i < |cs| ==> IsCluster(t, cs[i]) && t[cs[i]] == 0
  }

  /** `t'` is `t` with the clusters `cs` linked, in order, into one ended chain. */
  ghost predicate Linked(t: seq<nat>, cs: seq<nat>, t': seq<nat>) {
    && |t'| == |t|
    && (forall c :: 0 <= c < |t| && c !in cs ==> t'[c] == t[c])
    && (forall i :: 0 <= i < |cs| ==> IsCluster(t, cs[i]))
    && (forall i :: 0 <= i < |cs| - 1 ==> LinksOn(t', cs, i))
    && (|cs| > 0 ==> t'[cs[|cs| - 1]] == EOC)
  }

  lemma LinkedIsChain(t: seq<nat>, cs: seq<nat>, t': seq<nat>)
    requires Linked(t, cs, t') && |cs| > 0
    ensures IsChain(t', cs)
  {
  }

  /** Freeing a chain that was linked from free clusters restores the table. */
  lemma FreeUndoesLink(t: seq<nat>, cs: seq<nat>, t': seq<nat>, t'': seq<nat>)
    requires |t| <= BAD_CLUSTER && Unused(t, cs) && |cs| > 0
    requires Linked(t, cs, t') && Freed(t', cs[0], t'')
    ensures t'' == t
  {
    LinkedIsChain(t, cs, t');
    ChainReachable(t', cs);
    forall x | 0 <= x < |t|
      ensures t''[x] == t[x]
    {
      if x in cs {
        var i :| 0 <= i < |cs| && cs[i] == x;
      }
    }
  }

  /** Linking free clusters leaves every existing chain alone and disjoint from the new one. */
  lemma OtherChainsKept(t: seq<nat>, cs: seq<nat>, t': seq<nat>, other: seq<nat>)
    requires |t| <= BAD_CLUSTER && Unused(t, cs) && Linked(t, cs, t') && IsChain(t, other)
    ensures IsChain(t', other)
    ensures forall c :: c in other ==> c !in cs
  {
    forall i | 0 <= i < |other|
      ensures other[i] !in cs
    {
      ChainLink(t, other, i);
    }
    SameLinksSameChain(t, t', other);
  }

  /** Freeing one chain leaves every disjoint chain alone. */
  lemma FreeKeepsOthers(t: seq<nat>, cs: seq<nat>, t': seq<nat>, other: seq<nat>)
    requires |t| <= BAD_CLUSTER && IsChain(t, cs) && Freed(t, cs[0], t')
    requires IsChain(t, other) && forall c :: c in other ==> c !in cs
    ensures IsChain(t', other)
  {
    ChainReachable(t, cs);
    forall i | 0 <= i < |other|
      ensures t'[other[i]] == t[other[i]]
    {
      assert other[i] in other;
    }
    SameLinksSameChain(t, t', other);
  }

  /** Every cluster up to `top` is taken: what the lowest-first search has passed over. */
  ghost predicate TakenUpTo(t: seq<nat>, top: nat) {
    forall x :: 2 <= x <= top && x < |t| ==> t[x] != 0
  }

  /** The table while a file is written: `cs` were free, are linked in ascending order, and no
      cluster below the last of them is free. */
  ghost predicate Building(t: seq<nat>, cs: seq<nat>, t': seq<nat>) {
    && Unused(t, cs) && Ascending(cs) && Linked(t, cs, t')
    && (|cs| > 0 ==> TakenUpTo(t', cs[|cs| - 1]))
  }

  /** The table after cluster `c` is taken, linked behind `prev` (0 for none) and marked as the end. */
  function Appended(t: seq<nat>, prev: nat, c: nat): (r: seq<nat>)
    requires prev < |t| && c < |t|
    ensures |r| == |t|
  {
    var t1 := t[c := EOC];
    var t2 := if prev == 0 then t1 else t1[prev := c];
    t2[c := EOC]
  }

  /** Appending the lowest free cluster keeps the construction going. */
  lemma BuildOneMore(t: seq<nat>, cs: seq<nat>, t': seq<nat>, c: nat)
    requires Building(t, cs, t') && LowestFree(t', c)
    ensures Building(t, cs + [c], Appended(t', if |cs| == 0 then 0 else cs[|cs| - 1], c))
  {
    var prev := if |cs| == 0 then 0 else cs[|cs| - 1];
    var r := Appended(t', prev, c);
    var cs' := cs + [c];
    forall i | 0 <= i < |cs|
      ensures cs[i] < c && IsCluster(t, cs[i])
    {
      assert cs[i] <= prev;
    }
    assert c !in cs && t[c] == 0;
    forall x | 0 <= x < |t| && x !in cs'
      ensures r[x] == t[x]
    {
      assert x !in cs && x != c;
    }
    forall i | 0 <= i < |cs'| - 1
      ensures LinksOn(r, cs', i)
    {
      if i < |cs| - 1 {
        assert LinksOn(t', cs, i);
        assert cs[i] < cs[|cs| - 1];
      }
    }
  }

  lemma BuildNothing(t: seq<nat>)
    ensures Building(t, [], t)
  {
  }

  lemma BuildFacts(t: seq<nat>, cs: seq<nat>, t': seq<nat>)
    requires Building(t, cs, t')
    ensures |t'| == |t| && Unused(t, cs) && Ascending(cs) && Linked(t, cs, t')
    ensures |cs| > 0 ==> IsCluster(t', cs[|cs| - 1]) && IsCluster(t', cs[0])
    ensures |cs| == 0 ==> t' == t
  {
    if |cs| == 0 {
      forall c | 0 <= c < |t|
        ensures t'[c] == t[c]
      {
        assert c !in cs;
      }
    }
  }

  /** Giving up at any point of the construction restores the table. */
  lemma BuildUndone(t: seq<nat>, cs: seq<nat>, t': seq<nat>, t'': seq<nat>)
    requires |t| <= BAD_CLUSTER && |cs| > 0 && Building(t, cs, t') && Freed(t', cs[0], t'')
    ensures t'' == t
  {
    FreeUndoesLink(t, cs, t', t'');
  }

  // --- The free clusters, lowest first --------------------------------------------------------

  /** The free clusters from `from` on, in ascending order. */
  ghost function FreeFrom(t: seq<nat>, from: nat): (fs: seq<nat>)
    decreases |t| - from
  {
    if from >= |t| then []
    else if t[from] == 0 then [from] + FreeFrom(t, from + 1)
    else FreeFrom(t, from + 1)
  }

  ghost function FreeList(t: seq<nat>): (fs: seq<nat>) {
    FreeFrom(t, 2)
  }

  /** `fs` has exactly the free clusters from `from` on, in ascending order. */
  ghost predicate ListsFree(t: seq<nat>, from: nat, fs: seq<nat>) {
    && Ascending(fs)
    && (forall i :: 0 <= i < |fs| ==> from <= fs[i] < |t| && t[fs[i]] == 0)
    && forall x :: from <= x < |t| && t[x] == 0 ==> x in fs
  }

  lemma ListsOneMore(t: seq<nat>, from: nat, fs: seq<nat>)
    requires from < |t| && ListsFree(t, from + 1, fs)
    ensures ListsFree(t, from, if t[from] == 0 then [from] + fs else fs)
  {
    if t[from] == 0 {
      var more := [from] + fs;
      assert more[0] == from && forall i :: 0 < i < |more| ==> more[i] == fs[i - 1];
      forall x | from <= x < |t| && t[x] == 0
        ensures x in more
      {
        assert x == more[0] || x in fs;
      }
    }
  }

  lemma {:induction false} FreeFromIs(t: seq<nat>, from: nat)
    ensures ListsFree(t, from, FreeFrom(t, from))
    decreases |t| - from
  {
    if from < |t| {
      hide ListsFree;
      FreeFromIs(t, from + 1);
      ListsOneMore(t, from, FreeFrom(t, from + 1));
    }
  }

  /** The list has exactly the free clusters, and `k` of them are taken: the next one is the lowest that
      is left, if one is left. */
  lemma NextFree(t: seq<nat>, cs: seq<nat>, t': seq<nat>)
    requires Building(t, cs, t') && cs <= FreeList(t)
    ensures NoneFree(t') <==> |cs| == |FreeList(t)|
    ensures forall c :: LowestFree(t', c) ==> |cs| < |FreeList(t)| && c == FreeList(t)[|cs|]
  {
    hide FreeList, Building;
    assert |t'| == |t| by { BuildFacts(t, cs, t'); }
    var fs := FreeList(t);
    if |cs| < |fs| {
      StillFree(t, cs, t', |cs|);
    }
    forall x: nat | IsCluster(t', x) && t'[x] == 0
      ensures |cs| < |fs| && fs[|cs|] <= x
    {
      var j := FreeAgain(t, cs, t', x);
    }
  }

  /** A free cluster behind the taken ones is still free, and there are no others. */
  lemma StillFree(t: seq<nat>, cs: seq<nat>, t': seq<nat>, j: nat)
    requires Building(t, cs, t') && cs <= FreeList(t) && |cs| <= j < |FreeList(t)|
    ensures IsCluster(t', FreeList(t)[j]) && t'[FreeList(t)[j]] == 0
  {
    FreeFromIs(t, 2);
    hide FreeFrom, LinksOn;
    var fs := FreeList(t);
    assert forall i :: 0 <= i < |cs| ==> cs[i] == fs[i];
  }

  lemma FreeAgain(t: seq<nat>, cs: seq<nat>, t': seq<nat>, x: nat) returns (j: nat)
    requires Building(t, cs, t') && cs <= FreeList(t) && IsCluster(t', x) && t'[x] == 0
    ensures |cs| <= j < |FreeList(t)| && FreeList(t)[j] == x && FreeList(t)[|cs|] <= x
  {
    FreeFromIs(t, 2);
    BuildUsed(t, cs, t');
    hide FreeFrom, LinksOn;
    var fs := FreeList(t);
    assert x !in cs;
    j :| 0 <= j < |fs| && fs[j] == x;
  }

  /** The clusters of a file being written are in use. */
  lemma BuildUsed(t: seq<nat>, cs: seq<nat>, t': seq<nat>)
    requires Building(t, cs, t')
    ensures forall i :: 0 <= i < |cs| ==> t'[cs[i]] != 0
  {
    forall i | 0 <= i < |cs|
      ensures t'[cs[i]] != 0
    {
      assert i + 1 < |cs| ==> LinksOn(t', cs, i) && IsCluster(t, cs[i + 1]);
    }
  }
}
