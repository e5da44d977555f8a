/** HanaFS as a list of entries and as a map from stored paths, and that the two agree in every run. */
module HanaModel {
  import opened Bytes
  import opened HanaPath

  datatype Entry = Entry(path: CString, isDir: bool, data: seq<byte>)

  /** What a path stands for. */
  datatype Node = Dir | File(data: seq<byte>)

  function NodeOf(e: Entry): (n: Node) {
    if e.isDir then Dir else File(e.data)
  }

  /** First entry whose path is one of those wanted. */
  function First(es: seq<Entry>, wanted: set<CString>): (i: nat)
    ensures i <= |es|
    ensures i < |es| ==> es[i].path in wanted
    ensures forall k :: 0 <= k < i ==> es[k].path !in wanted
  {
    if es == [] || es[0].path in wanted then 0 else 1 + First(es[1..], wanted)
  }

  lemma FirstIs(es: seq<Entry>, wanted: set<CString>, i: nat)
    requires i <= |es| && (i < |es| ==> es[i].path in wanted)
    requires forall k :: 0 <= k < i ==> es[k].path !in wanted
    ensures First(es, wanted) == i
  {
  }

  function Find(es: seq<Entry>, p: CString): (r: Option<Node>) {
    var i := First(es, {p});
    if i < |es| then Some(NodeOf(es[i])) else None
  }

  function Without(es: seq<Entry>, i: nat): (r: seq<Entry>) {
    if i < |es| then es[..i] + es[i + 1..] else es
  }

  /** Paths a request without a drive is compared with besides the stored one: its full normal form. */
  function Wanted(p: CString): (r: set<CString>) {
    if DriveOf(p) < 0 then {Internal(p), Normalize(WithoutDrive(p))} else {Internal(p)}
  }

  datatype Op = Write(path: CString, data: seq<byte>) | Unlink(path: CString) | MakeDir(path: CString)

  /** What each operation does to the list. */
  function Apply(es: seq<Entry>, op: Op): (r: seq<Entry>) {
    match op
    case Write(p, d) => [Entry(Internal(p), false, d)] + Without(es, First(es, {Internal(p)}))
    case Unlink(p) => Without(es, First(es, Wanted(p)))
    case MakeDir(p) => if First(es, Wanted(p)) < |es| then es else [Entry(Internal(p), true, [])] + es
  }

  /** Whether it succeeds. */
  predicate Succeeds(es: seq<Entry>, op: Op) {
    match op
    case Write(_, _) => true
    case Unlink(p) => First(es, Wanted(p)) < |es|
    case MakeDir(p) => First(es, Wanted(p)) == |es|
  }

  // --- The map --------------------------------------------------------------------------------

  type Tree = map<CString, Node>

  /** The same operations on a map, where requests are one exactly when their stored paths are. */
  function ApplyMap(m: Tree, op: Op): (r: Tree) {
    var k := Internal(op.path);
    match op
    case Write(_, d) => m[k := File(d)]
    case Unlink(_) => m - {k}
    case MakeDir(_) => if k in m then m else m[k := Dir]
  }

  predicate SucceedsMap(m: Tree, op: Op) {
    match op
    case Write(_, _) => true
    case Unlink(p) => Internal(p) in m
    case MakeDir(p) => Internal(p) !in m
  }

  ghost predicate Distinct(es: seq<Entry>) {
    forall i, j :: 0 <= i < j < |es| ==> es[i].path != es[j].path
  }

  ghost predicate SaysOnly(es: seq<Entry>, m: Tree) {
    forall i :: 0 <= i < |es| ==> |es[i].path| <= MAX_PATH && es[i].path in m && m[es[i].path] == NodeOf(es[i])
  }

  predicate Present(es: seq<Entry>, p: CString) {
    First(es, {p}) < |es|
  }

  ghost predicate SaysAll(es: seq<Entry>, m: Tree) {
    forall p :: p in m ==> Present(es, p)
  }

  /** No path occurs twice, none is longer than the buffer allows, and the list says what the map says. */
  ghost predicate Refines(es: seq<Entry>, m: Tree) {
    Distinct(es) && SaysOnly(es, m) && SaysAll(es, m)
  }

  lemma FindAgrees(es: seq<Entry>, m: Tree, p: CString)
    requires Refines(es, m)
    ensures Find(es, p) == if p in m then Some(m[p]) else None
  {
    assert p in m ==> Present(es, p);
  }

  lemma WantedStored(p: CString, q: CString)
    requires |q| <= MAX_PATH
    ensures q in Wanted(p) <==> q == Internal(p)
  {
    if DriveOf(p) < 0 && q == Normalize(WithoutDrive(p)) {
      assert Qualified(p) == q;
    }
  }

  lemma FirstWanted(es: seq<Entry>, p: CString)
    requires forall i :: 0 <= i < |es| ==> |es[i].path| <= MAX_PATH
    ensures First(es, Wanted(p)) == First(es, {Internal(p)})
  {
    forall i | 0 <= i < |es|
      ensures es[i].path in Wanted(p) <==> es[i].path == Internal(p)
    {
      WantedStored(p, es[i].path);
    }
    hide Wanted;
    FirstIs(es, {Internal(p)}, First(es, Wanted(p)));
  }

  lemma DistinctWithout(es: seq<Entry>, i: nat)
    requires Distinct(es)
    ensures Distinct(Without(es, i))
  {
  }

  lemma OthersStay(es: seq<Entry>, i: nat, q: CString)
    requires Present(es, q) && (i < |es| ==> es[i].path != q)
    ensures Present(Without(es, i), q)
  {
    var r := Without(es, i);
    var j := First(es, {q});
    hide First;
    if i < |es| {
      assert r[if j < i then j else j - 1] == es[j];
    }
  }

  lemma SaysOnlyWithout(es: seq<Entry>, m: Tree, i: nat, p: CString)
    requires SaysOnly(es, m) && Distinct(es) && i <= |es|
    requires if i < |es| then es[i].path == p else forall k :: 0 <= k < |es| ==> es[k].path != p
    ensures SaysOnly(Without(es, i), m - {p})
  {
    var r := Without(es, i);
    forall k | 0 <= k < |r|
      ensures |r[k].path| <= MAX_PATH && r[k].path in m - {p} && m[r[k].path] == NodeOf(r[k])
    {
      if i < |es| {
        assert r[k] == es[if k < i then k else k + 1];
      }
    }
  }

  lemma RefinesWithout(es: seq<Entry>, m: Tree, p: CString)
    requires Refines(es, m)
    ensures Refines(Without(es, First(es, {p})), m - {p})
  {
    var i := First(es, {p});
    hide First, Present, Without, Distinct, SaysOnly;
    forall q | q in m - {p}
      ensures Present(Without(es, i), q)
    {
      OthersStay(es, i, q);
    }
    DistinctWithout(es, i);
    SaysOnlyWithout(es, m, i, p);
  }

  lemma OthersPrepend(es: seq<Entry>, e: Entry, q: CString)
    requires Present(es, q) || e.path == q
    ensures Present([e] + es, q)
  {
    var r := [e] + es;
    var j := First(es, {q});
    hide First;
    assert r[0] == e && (j < |es| ==> r[j + 1] == es[j]);
  }

  lemma RefinesPrepend(es: seq<Entry>, m: Tree, e: Entry)
    requires Refines(es, m) && e.path !in m && |e.path| <= MAX_PATH
    ensures Refines([e] + es, m[e.path := NodeOf(e)])
  {
    var r := [e] + es;
    var m' := m[e.path := NodeOf(e)];
    hide First, Present, NodeOf;
    forall q | q in m'
      ensures Present(r, q)
    {
      OthersPrepend(es, e, q);
    }
    hide SaysAll;
    assert forall k :: 1 <= k < |r| ==> r[k] == es[k - 1];
  }

  lemma WriteRefines(es: seq<Entry>, m: Tree, k: CString, d: seq<byte>)
    requires Refines(es, m) && |k| <= MAX_PATH
    ensures Refines([Entry(k, false, d)] + Without(es, First(es, {k})), m[k := File(d)])
  {
    hide Refines, First, Without;
    RefinesWithout(es, m, k);
    RefinesPrepend(Without(es, First(es, {k})), m - {k}, Entry(k, false, d));
    assert (m - {k})[k := File(d)] == m[k := File(d)];
  }

  /** Each operation does to the list what it does to the map, with the same result. */
  lemma ApplyRefines(es: seq<Entry>, m: Tree, op: Op)
    requires Refines(es, m)
    ensures Refines(Apply(es, op), ApplyMap(m, op)) && Succeeds(es, op) == SucceedsMap(m, op)
  {
    var k := Internal(op.path);
    FirstWanted(es, op.path);
    FindAgrees(es, m, k);
    assert k in m <==> First(es, {k}) < |es|;
    hide Internal, Wanted, First, Refines;
    match op
    case Write(_, d) =>
      WriteRefines(es, m, k, d);
    case Unlink(_) =>
      RefinesWithout(es, m, k);
    case MakeDir(_) =>
      if First(es, {k}) == |es| {
        RefinesPrepend(es, m, Entry(k, true, []));
      }
  }

  function Run(es: seq<Entry>, ops: seq<Op>): (r: seq<Entry>) {
    if ops == [] then es else Apply(Run(es, ops[..|ops| - 1]), ops[|ops| - 1])
  }

  lemma RunStep(es: seq<Entry>, ops: seq<Op>, i: nat)
    requires i < |ops|
    ensures Run(es, ops[..i + 1]) == Apply(Run(es, ops[..i]), ops[i])
  {
    assert ops[..i + 1][..i] == ops[..i];
  }

  function RunMap(m: Tree, ops: seq<Op>): (r: Tree) {
    if ops == [] then m else ApplyMap(RunMap(m, ops[..|ops| - 1]), ops[|ops| - 1])
  }

  /** Over every run the list is the map. */
  lemma {:induction false} RunRefines(es: seq<Entry>, m: Tree, ops: seq<Op>)
    requires Refines(es, m)
    ensures Refines(Run(es, ops), RunMap(m, ops))
  {
    if ops != [] {
      hide Refines, Apply, ApplyMap;
      RunRefines(es, m, ops[..|ops| - 1]);
      ApplyRefines(Run(es, ops[..|ops| - 1]), RunMap(m, ops[..|ops| - 1]), ops[|ops| - 1]);
    }
  }

  // --- Initial contents -----------------------------------------------------------------------

  const ROOT: CString := [SLASH]
  const ROOT_ENTRY: Entry := Entry(ROOT, true, [])

  /** "/bin", "/dev", "/proc" and "/home". */
  const TOP: seq<CString> := [[47, 98, 105, 110], [47, 100, 101, 118], [47, 112, 114, 111, 99], [47, 104, 111, 109, 101]]

  function InitialOps(): (ops: seq<Op>)
    ensures |ops| == 4
  {
    [MakeDir(TOP[0]), MakeDir(TOP[1]), MakeDir(TOP[2]), MakeDir(TOP[3])]
  }

  lemma RootRefines()
    ensures Refines([ROOT_ENTRY], map[ROOT := Dir])
  {
  }
}
