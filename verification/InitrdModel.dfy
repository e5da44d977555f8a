/** The initial RAM disk on values: ustar headers, the records of an archive, what extracting them does
    to the file system, and that archives written by the format are read back. */
module InitrdModel {
  import opened Bytes
  import opened HanaPath
  import opened HanaModel

  const BLOCK: nat := 512

  // --- Header fields --------------------------------------------------------------------------

  predicate OctalDigit(b: byte) {
    48 <= b <= 55
  }

  /** Value of a string of octal digits. */
  function Octal(s: seq<byte>): (v: nat)
    requires forall i :: 0 <= i < |s| ==> OctalDigit(s[i])
  {
    if s == [] then 0
    else
      var d := s[|s| - 1];
      assert OctalDigit(d);
      8 * Octal(s[..|s| - 1]) + (d - 48)
  }

  /** Leading octal digits of a field. */
  function OctalPrefix(s: seq<byte>): (r: seq<byte>)
    ensures r <= s && forall i :: 0 <= i < |r| ==> OctalDigit(r[i])
    ensures |r| < |s| ==> !OctalDigit(s[|r|])
  {
    if s == [] || !OctalDigit(s[0]) then [] else [s[0]] + OctalPrefix(s[1..])
  }

  lemma OctalPrefixIs(s: seq<byte>, n: nat)
    requires n <= |s| && (forall i :: 0 <= i < n ==> OctalDigit(s[i])) && (n < |s| ==> !OctalDigit(s[n]))
    ensures OctalPrefix(s) == s[..n]
  {
    var r := OctalPrefix(s);
    hide OctalPrefix;
    assert |r| == n;
  }

  function NameField(h: seq<byte>): (r: CString)
    requires |h| == BLOCK
  {
    UpTo(h[..100], 0)
  }

  function PrefixField(h: seq<byte>): (r: CString)
    requires |h| == BLOCK
  {
    UpTo(h[345..500], 0)
  }

  function SizeField(h: seq<byte>): (n: nat)
    requires |h| == BLOCK
  {
    Octal(OctalPrefix(h[124..136]))
  }

  predicate IsDirType(h: seq<byte>)
    requires |h| == BLOCK
  {
    h[156] == 53
  }

  /** Prefix and name joined, without a leading "./". */
  function FullName(name: CString, prefix: CString): (r: CString) {
    var full := if prefix != [] then prefix + [SLASH] + name else name;
    if |full| >= 2 && full[0] == DOT && full[1] == SLASH then full[2..] else full
  }

  /** Names that are passed over. */
  predicate Ignored(full: CString) {
    full == [] || full == [DOT]
  }

  // --- Records --------------------------------------------------------------------------------

  /** What a header announces. */
  datatype Item = Skip | Directory(path: CString, size: nat) | Regular(path: CString, size: nat)

  /** A directory has the type or a trailing slash, of which one is dropped. */
  function ItemOf(full: CString, dirType: bool, size: nat): (r: Item) {
    if Ignored(full) then Skip
    else
      var path := Rooted(full);
      if dirType then Directory(path, size)
      else if path[|path| - 1] == SLASH then Directory(path[..|path| - 1], size)
      else Regular(path, size)
  }

  function Decode(h: seq<byte>): (r: Item)
    requires |h| == BLOCK
  {
    ItemOf(FullName(NameField(h), PrefixField(h)), IsDirType(h), SizeField(h))
  }

  datatype Rec = DirRec(path: CString) | FileRec(path: CString, data: seq<byte>)

  function Rounded(n: nat): (r: nat)
    ensures n <= r < n + BLOCK && r % BLOCK == 0
  {
    (n + BLOCK - 1) / BLOCK * BLOCK
  }

  datatype Walk = Walk(recs: seq<Rec>, complete: bool) {
    function After(r: Rec): (w: Walk) { Walk([r] + recs, complete) }
  }

  /** The records from `off` on, and whether the archive was complete: a file that runs past the end
      stops the walk. */
  function Records(p: seq<byte>, off: nat): (r: Walk)
    decreases |p| - off
  {
    if off + BLOCK > |p| || p[off] == 0 then Walk([], true)
    else
      var next := off + BLOCK;
      match Decode(p[off..next])
      case Skip => Records(p, next)
      case Directory(path, size) => Records(p, next + Rounded(size)).After(DirRec(path))
      case Regular(path, size) =>
        if next + size > |p| then Walk([], false)
        else Records(p, next + Rounded(size)).After(FileRec(path, p[next..next + size]))
  }

  // --- Extraction -----------------------------------------------------------------------------

  /** A directory for every slash of the path from position `i` on, the leading one left out. */
  function Parents(path: CString, i: nat): (ops: seq<Op>)
    decreases |path| - i
  {
    if i >= |path| then []
    else if path[i] == SLASH && i > 0 then [MakeDir(path[..i])] + Parents(path, i + 1)
    else Parents(path, i + 1)
  }

  /** The buffer for the parents holds 511 bytes; longer paths get none. */
  const PARENT_BUFFER: nat := 512

  function ParentOps(path: CString): (ops: seq<Op>) {
    if |path| >= PARENT_BUFFER then [] else Parents(path, 1)
  }

  function OpsOf(r: Rec): (ops: seq<Op>) {
    match r
    case DirRec(path) => [MakeDir(path)]
    case FileRec(path, data) => ParentOps(path) + [Write(path, data)]
  }

  function AllOps(rs: seq<Rec>): (ops: seq<Op>) {
    if rs == [] then [] else AllOps(rs[..|rs| - 1]) + OpsOf(rs[|rs| - 1])
  }

  lemma {:induction false} RunMapConcat(m: Tree, a: seq<Op>, b: seq<Op>)
    ensures RunMap(m, a + b) == RunMap(RunMap(m, a), b)
  {
    if b == [] {
      assert a + b == a;
    } else {
      var n := |b| - 1;
      assert (a + b)[..|a + b| - 1] == a + b[..n];
      RunMapConcat(m, a, b[..n]);
    }
  }

  predicate NoUnlink(ops: seq<Op>) {
    forall i :: 0 <= i < |ops| ==> !ops[i].Unlink?
  }

  lemma {:induction false} ParentsMake(path: CString, i: nat)
    ensures forall k :: 0 <= k < |Parents(path, i)| ==> Parents(path, i)[k].MakeDir?
    decreases |path| - i
  {
    if i < |path| {
      ParentsMake(path, i + 1);
    }
  }

  predicate NotWritten(ops: seq<Op>, k: CString) {
    forall i :: 0 <= i < |ops| && ops[i].Write? ==> Internal(ops[i].path) != k
  }

  /** Nothing disappears, and what is not written again stays. */
  lemma {:induction false} RunKeeps(m: Tree, ops: seq<Op>, k: CString)
    requires NoUnlink(ops) && k in m
    ensures k in RunMap(m, ops)
    ensures NotWritten(ops, k) ==> RunMap(m, ops)[k] == m[k]
  {
    hide Internal;
    if ops != [] {
      var before := ops[..|ops| - 1];
      var op := ops[|ops| - 1];
      assert NoUnlink(before) && !op.Unlink?;
      assert NotWritten(ops, k) ==> NotWritten(before, k) && (op.Write? ==> Internal(op.path) != k);
      hide NoUnlink, NotWritten;
      RunKeeps(m, before, k);
    }
  }

  /** Every parent is made. */
  lemma {:induction false} ParentsPresent(m: Tree, path: CString, i: nat, j: nat)
    requires i <= j < |path| && j > 0 && path[j] == SLASH
    ensures Internal(path[..j]) in RunMap(m, Parents(path, i))
    decreases |path| - i
  {
    hide Internal;
    var ops := Parents(path, i);
    ParentsMake(path, i + 1);
    if path[i] == SLASH && i > 0 {
      var first := MakeDir(path[..i]);
      RunMapConcat(m, [first], Parents(path, i + 1));
      assert [first][..0] == [];
      assert RunMap(m, [first]) == ApplyMap(m, first);
      if i == j {
        RunKeeps(ApplyMap(m, first), Parents(path, i + 1), Internal(path[..j]));
      } else {
        ParentsPresent(ApplyMap(m, first), path, i + 1, j);
      }
    } else {
      ParentsPresent(m, path, i + 1, j);
    }
  }

  /** An entry for every ancestor. */
  ghost predicate HasAncestors(m: Tree, path: CString) {
    forall j :: 0 < j < |path| && path[j] == SLASH ==> Internal(path[..j]) in m
  }

  ghost predicate HasParents(es: seq<Entry>, path: CString) {
    forall j :: 0 < j < |path| && path[j] == SLASH ==> Present(es, Internal(path[..j]))
  }

  lemma AncestorsAreParents(es: seq<Entry>, m: Tree, path: CString)
    requires Refines(es, m) && HasAncestors(m, path)
    ensures HasParents(es, path)
  {
    hide Present, Internal;
  }

  /** No file record from `k` up to `n` writes the path of record `k` again. */
  ghost predicate LastFile(rs: seq<Rec>, k: nat, n: nat)
    requires k < n <= |rs|
  {
    forall l :: k < l < n && rs[l].FileRec? ==> Internal(rs[l].path) != Internal(rs[k].path)
  }

  /** Extraction leaves every file path standing for the bytes of its last record, with an entry for
      each of its ancestors if the path is not too long for the buffer. */
  lemma Extracted(m: Tree, rs: seq<Rec>, k: nat)
    requires k < |rs| && rs[k].FileRec?
    ensures var m' := RunMap(m, AllOps(rs));
            && Internal(rs[k].path) in m' && (|rs[k].path| < PARENT_BUFFER ==> HasAncestors(m', rs[k].path))
            && (LastFile(rs, k, |rs|) ==> m'[Internal(rs[k].path)] == File(rs[k].data))
  {
    ExtractedBefore(m, rs, k, |rs|);
    assert rs[..|rs|] == rs;
  }

  lemma {:induction false} ExtractedBefore(m: Tree, rs: seq<Rec>, k: nat, n: nat)
    requires k < n <= |rs| && rs[k].FileRec?
    ensures var m' := RunMap(m, AllOps(rs[..n]));
            && Internal(rs[k].path) in m' && (|rs[k].path| < PARENT_BUFFER ==> HasAncestors(m', rs[k].path))
            && (LastFile(rs, k, n) ==> m'[Internal(rs[k].path)] == File(rs[k].data))
  {
    hide Internal, HasAncestors, RunMap, AllOps, OpsOf;
    var was := RunMap(m, AllOps(rs[..n - 1]));
    AllOpsStep(rs, n);
    RunMapConcat(m, AllOps(rs[..n - 1]), OpsOf(rs[n - 1]));
    if k == n - 1 {
      FileExtracted(was, rs[k].path, rs[k].data);
    } else {
      ExtractedBefore(m, rs, k, n - 1);
      RecordKeeps(was, rs[n - 1], Internal(rs[k].path));
      if |rs[k].path| < PARENT_BUFFER {
        AncestorsKept(was, rs[n - 1], rs[k].path);
      }
    }
  }

  lemma AllOpsStep(rs: seq<Rec>, n: nat)
    requires 0 < n <= |rs|
    ensures AllOps(rs[..n]) == AllOps(rs[..n - 1]) + OpsOf(rs[n - 1])
  {
    assert rs[..n][..n - 1] == rs[..n - 1];
    hide OpsOf;
  }

  lemma AncestorsKept(m: Tree, r: Rec, path: CString)
    requires HasAncestors(m, path)
    ensures HasAncestors(RunMap(m, OpsOf(r)), path)
  {
    hide Internal, RunMap, OpsOf;
    forall j | 0 < j < |path| && path[j] == SLASH
      ensures Internal(path[..j]) in RunMap(m, OpsOf(r))
    {
      RecordKeeps(m, r, Internal(path[..j]));
    }
  }

  lemma FileExtracted(m: Tree, path: CString, data: seq<byte>)
    ensures var m' := RunMap(m, OpsOf(FileRec(path, data)));
            Internal(path) in m' && m'[Internal(path)] == File(data) && (|path| < PARENT_BUFFER ==> HasAncestors(m', path))
  {
    hide Internal;
    var ps := ParentOps(path);
    assert (ps + [Write(path, data)])[..|ps|] == ps;
    if |path| < PARENT_BUFFER {
      forall j | 0 < j < |path| && path[j] == SLASH
        ensures Internal(path[..j]) in RunMap(m, ps)
      {
        ParentsPresent(m, path, 1, j);
      }
    }
  }

  lemma RecordKeeps(m: Tree, r: Rec, k: CString)
    requires k in m
    ensures var m' := RunMap(m, OpsOf(r));
            k in m' && (r.DirRec? || Internal(r.path) != k ==> m'[k] == m[k])
  {
    hide Internal;
    match r
    case DirRec(path) => RunKeeps(m, OpsOf(r), k);
    case FileRec(path, _) =>
      ParentsMake(path, 1);
      RunKeeps(m, OpsOf(r), k);
  }

  /** What is absent or a directory and is not written does not become a file. */
  lemma {:induction false} NoFileAppears(m: Tree, ops: seq<Op>, k: CString)
    requires NotWritten(ops, k) && NoUnlink(ops) && (k in m ==> m[k] == Dir)
    ensures k in RunMap(m, ops) ==> RunMap(m, ops)[k] == Dir
  {
    hide Internal;
    if ops != [] {
      var before := ops[..|ops| - 1];
      var op := ops[|ops| - 1];
      assert NotWritten(before, k) && NoUnlink(before);
      assert !op.Unlink? && (op.Write? ==> Internal(op.path) != k);
      hide NoUnlink, NotWritten;
      NoFileAppears(m, before, k);
    }
  }

  /** The operations of a record write its file and make directories, nothing else. */
  lemma RecordOps(r: Rec, k: CString)
    ensures NoUnlink(OpsOf(r)) && (r.DirRec? || Internal(r.path) != k ==> NotWritten(OpsOf(r), k))
  {
    hide Internal;
    if r.FileRec? {
      ParentsMake(r.path, 1);
    }
  }

  /** Extraction leaves an entry for every directory record, and it is a directory unless there was or is a
      file under the path. */
  lemma DirExtracted(m: Tree, rs: seq<Rec>, k: nat)
    requires k < |rs| && rs[k].DirRec?
    ensures var m', key := RunMap(m, AllOps(rs)), Internal(rs[k].path);
            && key in m'
            && ((key in m ==> m[key] == Dir) && (forall l :: 0 <= l < |rs| && rs[l].FileRec? ==> Internal(rs[l].path) != key) ==>
                  m'[key] == Dir)
  {
    hide Internal;
    var key := Internal(rs[k].path);
    DirPresent(m, rs, k, |rs|);
    assert rs[..|rs|] == rs;
    AllOpsSafe(rs, key, |rs|);
    if (key in m ==> m[key] == Dir) && forall l :: 0 <= l < |rs| && rs[l].FileRec? ==> Internal(rs[l].path) != key {
      hide RunMap, AllOps;
      NoFileAppears(m, AllOps(rs), key);
    }
  }

  lemma {:induction false} DirPresent(m: Tree, rs: seq<Rec>, k: nat, n: nat)
    requires k < n <= |rs| && rs[k].DirRec?
    ensures Internal(rs[k].path) in RunMap(m, AllOps(rs[..n]))
  {
    hide Internal, RunMap, AllOps, OpsOf;
    var was := RunMap(m, AllOps(rs[..n - 1]));
    AllOpsStep(rs, n);
    RunMapConcat(m, AllOps(rs[..n - 1]), OpsOf(rs[n - 1]));
    if k == n - 1 {
      DirMade(was, rs[k].path);
    } else {
      DirPresent(m, rs, k, n - 1);
      RecordKeeps(was, rs[n - 1], Internal(rs[k].path));
    }
  }

  lemma DirMade(m: Tree, path: CString)
    ensures Internal(path) in RunMap(m, OpsOf(DirRec(path)))
  {
    hide Internal;
    var op := MakeDir(path);
    assert [op][..0] == [];
    assert RunMap(m, [op]) == ApplyMap(RunMap(m, []), op);
  }

  lemma {:induction false} AllOpsSafe(rs: seq<Rec>, key: CString, n: nat)
    requires n <= |rs|
    ensures NoUnlink(AllOps(rs[..n]))
    ensures (forall l :: 0 <= l < n && rs[l].FileRec? ==> Internal(rs[l].path) != key) ==> NotWritten(AllOps(rs[..n]), key)
  {
    hide Internal, OpsOf;
    if n > 0 {
      AllOpsSafe(rs, key, n - 1);
      AllOpsStep(rs, n);
      RecordOps(rs[n - 1], key);
      hide AllOps;
    }
  }

  /** What a run without removals adds, some operation names. */
  lemma {:induction false} AddedBy(m: Tree, ops: seq<Op>, key: CString) returns (i: nat)
    requires key in RunMap(m, ops) && key !in m
    ensures i < |ops| && Internal(ops[i].path) == key
  {
    hide Internal;
    var n := |ops| - 1;
    if key in RunMap(m, ops[..n]) {
      i := AddedBy(m, ops[..n], key);
    } else {
      i := n;
    }
  }

  lemma {:induction false} OpFrom(rs: seq<Rec>, op: Op) returns (k: nat)
    requires op in AllOps(rs)
    ensures k < |rs| && op in OpsOf(rs[k])
  {
    hide OpsOf;
    var n := |rs| - 1;
    if op in AllOps(rs[..n]) {
      k := OpFrom(rs[..n], op);
    } else {
      k := n;
    }
  }

  lemma {:induction false} ParentFrom(path: CString, i: nat, op: Op)
    requires op in Parents(path, i)
    ensures exists j :: 0 < j < |path| && path[j] == SLASH && op.path == path[..j]
    decreases |path| - i
  {
    if op in Parents(path, i + 1) {
      ParentFrom(path, i + 1, op);
    }
  }

  /** The record is for the path, or for a file below it. */
  ghost predicate Accounts(r: Rec, key: CString) {
    || Internal(r.path) == key
    || (r.FileRec? && exists j :: 0 < j < |r.path| && r.path[j] == SLASH && Internal(r.path[..j]) == key)
  }

  /** Extraction adds nothing but the paths of records and the ancestors of files, and changes nothing but
      the paths of files. */
  lemma ExtractedOnly(m: Tree, rs: seq<Rec>, key: CString)
    ensures var m' := RunMap(m, AllOps(rs));
            && (key in m ==> key in m')
            && (key in m && (forall l :: 0 <= l < |rs| && rs[l].FileRec? ==> Internal(rs[l].path) != key) ==> m'[key] == m[key])
            && (key in m' && key !in m ==> exists k :: 0 <= k < |rs| && Accounts(rs[k], key))
  {
    var ops := AllOps(rs);
    AllOpsSafe(rs, key, |rs|);
    assert rs[..|rs|] == rs;
    hide Internal, AllOps, RunMap, Accounts, OpsOf;
    if key in m {
      RunKeeps(m, ops, key);
    } else if key in RunMap(m, ops) {
      var i := AddedBy(m, ops, key);
      var k := OpFrom(rs, ops[i]);
      OpAccounts(rs[k], ops[i]);
    }
  }

  lemma OpAccounts(r: Rec, op: Op)
    requires op in OpsOf(r)
    ensures Accounts(r, Internal(op.path))
  {
    hide Internal;
    if r.FileRec? && op in ParentOps(r.path) {
      ParentFrom(r.path, 1, op);
    }
  }

  // --- The ustar format -----------------------------------------------------------------------

  /** `n` as `width` octal digits. */
  function OctalField(n: nat, width: nat): (r: seq<byte>)
    ensures |r| == width && forall i :: 0 <= i < width ==> OctalDigit(r[i])
  {
    if width == 0 then [] else OctalField(n / 8, width - 1) + [48 + n % 8]
  }

  function Pow8(w: nat): (r: nat)
    ensures r > 0
  {
    if w == 0 then 1 else 8 * Pow8(w - 1)
  }

  lemma {:induction false} OctalRoundTrip(n: nat, w: nat)
    requires n < Pow8(w)
    ensures Octal(OctalField(n, w)) == n
  {
    if w > 0 {
      var r := OctalField(n, w);
      OctalRoundTrip(n / 8, w - 1);
      assert r[..w - 1] == OctalField(n / 8, w - 1);
    }
  }

  /** The first digit of an octal number counts most. */
  lemma {:induction false} OctalFirst(d: byte, s: seq<byte>)
    requires OctalDigit(d) && forall i :: 0 <= i < |s| ==> OctalDigit(s[i])
    ensures Octal([d] + s) == (d as int - 48) * Pow8(|s|) + Octal(s)
  {
    var t := [d] + s;
    if s == [] {
      assert t[..0] == [];
    } else {
      var n := |s| - 1;
      OctalFirst(d, s[..n]);
      assert t[..|t| - 1] == [d] + s[..n];
      assert 8 * ((d as int - 48) * Pow8(n)) == (d as int - 48) * Pow8(n + 1);
    }
  }

  datatype Member = Member(name: CString, prefix: CString, isDir: bool, data: seq<byte>)

  /** The name of a member: its name field, behind its prefix field and a slash if there is a prefix. */
  function MemberName(m: Member): (r: CString) {
    if m.prefix == [] then m.name else m.prefix + [SLASH] + m.name
  }

  /** The member stands for the top of the archive. */
  predicate IsTop(m: Member) {
    MemberName(m) == [DOT] || MemberName(m) == [DOT, SLASH] || MemberName(m) == [DOT, SLASH, DOT]
  }

  /** A name without the "./" that it may start with, and a name without the slash that it may start with. */
  function Inner(name: CString): (r: CString) {
    if [DOT, SLASH] <= name then name[2..] else name
  }

  function Unrooted(name: CString): (r: CString) {
    if [SLASH] <= name then name[1..] else name
  }

  /** Where a member belongs: below the root, under its name without a leading "./" and without a leading
      slash of its own. */
  function MemberPath(m: Member): (r: CString) {
    [SLASH] + Unrooted(Inner(MemberName(m)))
  }

  /** A regular file: not the top, not typed as a directory, and without a slash at the end of its name. */
  predicate IsRegular(m: Member) {
    !IsTop(m) && !m.isDir && !EndsInSlash(m.name)
  }

  predicate EndsInSlash(s: seq<byte>) {
    s != [] && s[|s| - 1] == SLASH
  }

  /** The plain cases without a prefix: "a", "./a" and "/a" all go to "/a". Archives that are made from within a
      directory have names of the second form. */
  lemma PathWithoutPrefix(m: Member, name: CString)
    requires m.prefix == [] && name != [] && !IsRooted(name) && !([DOT, SLASH] <= name)
    requires m.name == name || m.name == [DOT, SLASH] + name || m.name == [SLASH] + name
    ensures MemberPath(m) == [SLASH] + name
  {
    StaysPlain(name);
    DropsLead(name);
    hide Inner, Unrooted;
  }

  /** With a prefix "d", "./d" or "/d" they go to "/d/a". */
  lemma PathWithPrefix(m: Member, dir: CString)
    requires dir != [] && dir != [DOT] && !IsRooted(dir) && !([DOT, SLASH] <= dir)
    requires m.prefix == dir || m.prefix == [DOT, SLASH] + dir || m.prefix == [SLASH] + dir
    ensures MemberPath(m) == [SLASH] + dir + [SLASH] + m.name
  {
    var below := dir + [SLASH] + m.name;
    PlainBelow(dir, m.name);
    DropsLead(below);
    hide Inner, Unrooted;
    Joined([DOT, SLASH], dir, m.name);
    Joined([SLASH], dir, m.name);
  }

  lemma Joined(lead: seq<byte>, dir: seq<byte>, name: seq<byte>)
    ensures (lead + dir) + [SLASH] + name == lead + (dir + [SLASH] + name)
  {
  }

  lemma PlainBelow(dir: CString, name: CString)
    requires dir != [] && dir != [DOT] && !IsRooted(dir) && !([DOT, SLASH] <= dir)
    ensures var below := dir + [SLASH] + name; Inner(below) == below == Unrooted(below)
  {
    var below := dir + [SLASH] + name;
    assert below[0] == dir[0] && (|dir| > 1 ==> below[1] == dir[1]);
    StaysPlain(below);
  }

  lemma StaysPlain(s: CString)
    requires s != [] && s[0] != SLASH && !(s[0] == DOT && |s| > 1 && s[1] == SLASH)
    ensures Inner(s) == s == Unrooted(s)
  {
  }

  lemma DropsLead(s: CString)
    ensures Inner([DOT, SLASH] + s) == s && Unrooted([SLASH] + s) == s && Inner([SLASH] + s) == [SLASH] + s
  {
    var a, b := [DOT, SLASH] + s, [SLASH] + s;
    assert a[..2] == [DOT, SLASH] && a[2..] == s;
    assert b[0] == SLASH && b[1..] == s;
  }

  /** What the format allows; directories and the top carry no data. */
  predicate Allowed(m: Member) {
    && 0 < |m.name| <= 100 && |m.prefix| <= 155 && |m.data| < Pow8(11)
    && (m.isDir || IsTop(m) ==> m.data == [])
  }

  /** A field holds a string: followed by a NUL unless it fills the field. */
  predicate FieldIs(f: seq<byte>, s: CString) {
    s <= f && (|s| < |f| ==> f[|s|] == 0)
  }

  /** A header for the member; the fields that extraction does not use are free. */
  predicate IsHeader(h: seq<byte>, m: Member) {
    && |h| == BLOCK && FieldIs(h[..100], m.name) && FieldIs(h[345..500], m.prefix)
    && h[124..135] == OctalField(|m.data|, 11) && !OctalDigit(h[135])
    && (h[156] == 53 <==> m.isDir)
  }

  /** From `off` on: a header and the data in whole blocks for each member, then a zero block or the end. */
  predicate IsArchive(p: seq<byte>, off: nat, ms: seq<Member>)
    decreases |ms|
  {
    if ms == [] then off + BLOCK > |p| || p[off] == 0
    else
      var next := off + BLOCK;
      && Allowed(ms[0]) && next + Rounded(|ms[0].data|) <= |p|
      && IsHeader(p[off..next], ms[0]) && p[next..next + |ms[0].data|] == ms[0].data
      && IsArchive(p, next + Rounded(|ms[0].data|), ms[1..])
  }

  /** The record a member stands for, none for those passed over. */
  function RecOf(m: Member): (r: seq<Rec>) {
    if IsTop(m) then []
    else if IsRegular(m) then [FileRec(MemberPath(m), m.data)]
    else [DirRec(DirPath(m))]
  }

  /** A directory's path; a trailing slash that made it one is dropped. */
  function DirPath(m: Member): (r: CString) {
    var path := MemberPath(m);
    if m.isDir then path else path[..|path| - 1]
  }

  function RecsOf(ms: seq<Member>): (r: seq<Rec>) {
    if ms == [] then [] else RecOf(ms[0]) + RecsOf(ms[1..])
  }

  lemma FieldReads(f: seq<byte>, s: CString)
    requires FieldIs(f, s)
    ensures UpTo(f, 0) == s
  {
    assert f == s + f[|s|..];
    UpToAll(s, f[|s|..], 0);
  }

  lemma SizeReads(h: seq<byte>, n: nat)
    requires |h| == BLOCK && n < Pow8(11) && h[124..135] == OctalField(n, 11) && !OctalDigit(h[135])
    ensures SizeField(h) == n
  {
    OctalRoundTrip(n, 11);
    hide Octal, OctalField, Pow8;
    var f := h[124..136];
    assert f[..11] == h[124..135] && f[11] == h[135];
    assert forall i :: 0 <= i < 11 ==> f[i] == f[..11][i];
    OctalPrefixIs(f, 11);
  }

  /** The item is the member's record, of the member's size. */
  predicate Announces(item: Item, m: Member) {
    match item
    case Skip => RecOf(m) == []
    case Directory(path, size) => RecOf(m) == [DirRec(path)] && size == |m.data|
    case Regular(path, size) => RecOf(m) == [FileRec(path, m.data)] && size == |m.data|
  }

  lemma ItemAnnounces(m: Member)
    requires m.name != []
    ensures Announces(ItemOf(FullName(m.name, m.prefix), m.isDir, |m.data|), m)
  {
    hide FullName, Ignored, IsTop, Rooted, MemberPath;
    ItemFacts(m);
  }

  lemma ItemFacts(m: Member)
    requires m.name != []
    ensures var full := FullName(m.name, m.prefix);
            && (Ignored(full) <==> IsTop(m))
            && (!IsTop(m) ==> Rooted(full) == MemberPath(m) && EndsInSlash(Rooted(full)) == EndsInSlash(m.name))
  {
    hide FullName, IsTop, Inner, Unrooted, Rooted;
    FullIsInner(m);
    TopIsIgnored(m);
    var full := FullName(m.name, m.prefix);
    if !IsTop(m) {
      RootedIs(full);
      InnerEnd(MemberName(m));
      assert MemberName(m)[|MemberName(m)| - 1] == m.name[|m.name| - 1];
    }
  }

  lemma FullIsInner(m: Member)
    ensures FullName(m.name, m.prefix) == Inner(MemberName(m))
  {
    var name := MemberName(m);
    assert [DOT, SLASH] <= name <==> |name| >= 2 && name[0] == DOT && name[1] == SLASH;
  }

  lemma TopIsIgnored(m: Member)
    requires m.name != []
    ensures Ignored(Inner(MemberName(m))) <==> IsTop(m)
  {
    var name := MemberName(m);
    assert name != [];
    if [DOT, SLASH] <= name {
      assert name == [DOT, SLASH] + name[2..];
    }
  }

  lemma RootedIs(full: CString)
    ensures Rooted(full) == [SLASH] + Unrooted(full)
    ensures full != [] ==> EndsInSlash(Rooted(full)) == EndsInSlash(full)
  {
    if [SLASH] <= full {
      assert full == [SLASH] + full[1..];
    }
  }

  lemma InnerEnd(name: CString)
    requires Inner(name) != []
    ensures EndsInSlash(Inner(name)) == EndsInSlash(name)
  {
  }

  lemma HeaderReads(h: seq<byte>, m: Member)
    requires IsHeader(h, m) && Allowed(m)
    ensures h[0] != 0 && Announces(Decode(h), m)
  {
    hide Pow8, Octal, OctalField, UpTo, FullName, ItemOf, Announces;
    ItemAnnounces(m);
    FieldReads(h[..100], m.name);
    FieldReads(h[345..500], m.prefix);
    SizeReads(h, |m.data|);
    assert h[0] == h[..100][0] == m.name[0];
  }

  /** One member, then the rest. */
  lemma RecordsStep(p: seq<byte>, off: nat, m: Member)
    requires off + BLOCK + Rounded(|m.data|) <= |p| && p[off] != 0
    requires Announces(Decode(p[off..off + BLOCK]), m) && p[off + BLOCK..off + BLOCK + |m.data|] == m.data
    requires IsTop(m) ==> m.data == []
    ensures var rest := Records(p, off + BLOCK + Rounded(|m.data|));
            Records(p, off) == Walk(RecOf(m) + rest.recs, rest.complete)
  {
    TopOnly(m);
    hide Decode, IsTop, Records, Rounded, RecOf;
    WalkOf(p, off);
    var rest := Records(p, off + BLOCK + Rounded(|m.data|));
    match Decode(p[off..off + BLOCK])
    case Skip =>
      RoundedZero();
      assert RecOf(m) + rest.recs == rest.recs;
    case Directory(path, size) =>
      assert Records(p, off) == rest.After(DirRec(path));
    case Regular(path, size) =>
      assert Records(p, off) == rest.After(FileRec(path, m.data));
  }

  lemma TopOnly(m: Member)
    ensures RecOf(m) == [] <==> IsTop(m)
  {
  }

  lemma RoundedZero()
    ensures Rounded(0) == 0
  {
  }

  /** The walk unfolded once. */
  lemma WalkOf(p: seq<byte>, off: nat)
    requires off + BLOCK <= |p| && p[off] != 0
    ensures var next := off + BLOCK;
            match Decode(p[off..next])
            case Skip => Records(p, off) == Records(p, next)
            case Directory(path, size) => Records(p, off) == Records(p, next + Rounded(size)).After(DirRec(path))
            case Regular(path, size) =>
              Records(p, off) == if next + size > |p| then Walk([], false)
                                 else Records(p, next + Rounded(size)).After(FileRec(path, p[next..next + size]))
  {
    hide Decode, Rounded;
  }

  lemma {:induction false} ArchiveAllowed(p: seq<byte>, off: nat, ms: seq<Member>)
    requires IsArchive(p, off, ms)
    ensures forall i :: 0 <= i < |ms| ==> Allowed(ms[i])
    decreases |ms|
  {
    hide IsHeader, Rounded, Allowed;
    if ms != [] {
      ArchiveAllowed(p, off + BLOCK + Rounded(|ms[0].data|), ms[1..]);
      assert forall i :: 0 < i < |ms| ==> ms[i] == ms[1..][i - 1];
    }
  }

  /** Every archive of the format is read as its members, in order and completely. */
  lemma {:induction false} ArchiveReads(p: seq<byte>, off: nat, ms: seq<Member>)
    requires IsArchive(p, off, ms)
    ensures Records(p, off) == Walk(RecsOf(ms), true)
    decreases |ms|
  {
    hide IsHeader, Decode, Pow8, Rounded, RecOf, Records, Allowed;
    if ms == [] {
      EndReads(p, off);
      return;
    }
    MemberReads(p, off, ms[0]);
    ArchiveReads(p, off + BLOCK + Rounded(|ms[0].data|), ms[1..]);
  }

  lemma EndReads(p: seq<byte>, off: nat)
    requires off + BLOCK > |p| || p[off] == 0
    ensures Records(p, off) == Walk([], true)
  {
  }

  lemma MemberReads(p: seq<byte>, off: nat, m: Member)
    requires Allowed(m) && off + BLOCK + Rounded(|m.data|) <= |p|
    requires IsHeader(p[off..off + BLOCK], m) && p[off + BLOCK..off + BLOCK + |m.data|] == m.data
    ensures var rest := Records(p, off + BLOCK + Rounded(|m.data|));
            Records(p, off) == Walk(RecOf(m) + rest.recs, rest.complete)
  {
    hide IsHeader, Decode, Pow8, Rounded, RecOf, Records, IsTop, Announces;
    var h := p[off..off + BLOCK];
    HeaderReads(h, m);
    assert p[off] == h[0];
    RecordsStep(p, off, m);
  }

  /** From `off` on: complete members, then the header of a regular one whose data runs past the end. */
  predicate IsCut(p: seq<byte>, off: nat, ms: seq<Member>, last: Member)
    decreases |ms|
  {
    if ms == [] then
      && Allowed(last) && IsRegular(last)
      && off + BLOCK <= |p| < off + BLOCK + |last.data| && IsHeader(p[off..off + BLOCK], last)
    else
      var next := off + BLOCK;
      && Allowed(ms[0]) && next + Rounded(|ms[0].data|) <= |p|
      && IsHeader(p[off..next], ms[0]) && p[next..next + |ms[0].data|] == ms[0].data
      && IsCut(p, next + Rounded(|ms[0].data|), ms[1..], last)
  }

  /** An archive that was cut off in the data of a file: the members before it are read, and the walk reports
      that it is not complete. */
  lemma {:induction false} CutReads(p: seq<byte>, off: nat, ms: seq<Member>, last: Member)
    requires IsCut(p, off, ms, last)
    ensures Records(p, off) == Walk(RecsOf(ms), false)
    decreases |ms|
  {
    hide IsHeader, Decode, Pow8, Rounded, RecOf, Records, Allowed, IsTop, Announces;
    if ms == [] {
      CutEnds(p, off, last);
    } else {
      MemberReads(p, off, ms[0]);
      CutReads(p, off + BLOCK + Rounded(|ms[0].data|), ms[1..], last);
    }
  }

  lemma CutEnds(p: seq<byte>, off: nat, m: Member)
    requires Allowed(m) && IsRegular(m)
    requires off + BLOCK <= |p| < off + BLOCK + |m.data| && IsHeader(p[off..off + BLOCK], m)
    ensures Records(p, off) == Walk([], false)
  {
    hide IsHeader, Decode, Pow8, Rounded, Records, IsTop, MemberPath;
    var h := p[off..off + BLOCK];
    HeaderReads(h, m);
    assert p[off] == h[0];
    WalkOf(p, off);
  }

  // --- From an archive to the file system -----------------------------------------------------

  /** A regular member is stored under its own path. */
  lemma RegularStored(m: Member)
    requires Allowed(m) && IsRegular(m)
    ensures Internal(MemberPath(m)) == MemberPath(m) && |MemberPath(m)| < PARENT_BUFFER
  {
    var name, path := MemberName(m), MemberPath(m);
    hide Pow8, Internal;
    assert |path| <= 257;
    assert name[|name| - 1] == m.name[|m.name| - 1];
    assert path[|path| - 1] != SLASH;
    InternalFixed(path);
  }

  lemma {:induction false} RecsOfSplit(ms: seq<Member>, k: nat)
    requires k <= |ms|
    ensures RecsOf(ms) == RecsOf(ms[..k]) + RecsOf(ms[k..])
  {
    hide RecOf;
    if k > 0 {
      assert ms[..k][1..] == ms[1..][..k - 1] && ms[k..] == ms[1..][k - 1..];
      RecsOfSplit(ms[1..], k - 1);
    } else {
      assert ms[0..] == ms;
    }
  }

  /** The records before a member, its own, and those after it. */
  lemma RecsAround(ms: seq<Member>, k: nat)
    requires k < |ms|
    ensures RecsOf(ms) == RecsOf(ms[..k]) + (RecOf(ms[k]) + RecsOf(ms[k + 1..]))
  {
    hide RecOf;
    RecsOfSplit(ms, k);
    assert ms[k..][0] == ms[k] && ms[k..][1..] == ms[k + 1..];
  }

  /** Every record is one of a member. */
  lemma {:induction false} RecsFrom(ms: seq<Member>, r: Rec) returns (j: nat)
    requires r in RecsOf(ms)
    ensures j < |ms| && RecOf(ms[j]) == [r]
  {
    TopOnly(ms[0]);
    if r in RecOf(ms[0]) {
      j := 0;
    } else {
      j := RecsFrom(ms[1..], r);
      j := j + 1;
    }
  }

  /** No member after member `k` is a regular one for the same path. */
  ghost predicate LastRegular(ms: seq<Member>, k: nat)
    requires k < |ms|
  {
    forall l :: k < l < |ms| && IsRegular(ms[l]) ==> MemberPath(ms[l]) != MemberPath(ms[k])
  }

  lemma LastRegularIsLast(ms: seq<Member>, k: nat)
    requires k < |ms| && (forall i :: 0 <= i < |ms| ==> Allowed(ms[i]))
    requires IsRegular(ms[k]) && LastRegular(ms, k)
    ensures var n := |RecsOf(ms[..k])|;
            n < |RecsOf(ms)| && RecsOf(ms)[n] == FileRec(MemberPath(ms[k]), ms[k].data) && LastFile(RecsOf(ms), n, |RecsOf(ms)|)
  {
    RecsAround(ms, k);
    var rs, n := RecsOf(ms), |RecsOf(ms[..k])|;
    RegularStored(ms[k]);
    hide Internal, Allowed, RecsOf;
    forall l | n < l < |rs| && rs[l].FileRec?
      ensures Internal(rs[l].path) != Internal(rs[n].path)
    {
      assert rs[l] in RecsOf(ms[k + 1..]);
      var j := RecsFrom(ms[k + 1..], rs[l]);
      assert ms[k + 1..][j] == ms[k + 1 + j];
      RegularStored(ms[k + 1 + j]);
    }
  }

  /** Extracting any archive of the format into a file system that is a map: the path of every regular member
      stands for the bytes of the last member with that path, and all its ancestors are there. */
  lemma ArchiveExtracted(es: seq<Entry>, m: Tree, p: seq<byte>, ms: seq<Member>, k: nat)
    requires Refines(es, m) && IsArchive(p, 0, ms) && k < |ms| && IsRegular(ms[k])
    ensures var es' := Run(es, AllOps(Records(p, 0).recs));
            var path := MemberPath(ms[k]);
            && Present(es', path)
            && (LastRegular(ms, k) ==> Find(es', path) == Some(File(ms[k].data)))
            && HasParents(es', path)
  {
    ArchiveAllowed(p, 0, ms);
    ArchiveReads(p, 0, ms);
    RecsAround(ms, k);
    RegularStored(ms[k]);
    hide IsArchive, Records, RecsOf, AllOps, Run, RunMap, Internal, LastFile, Find, Present, MemberPath, LastRegular, Allowed, HasParents, HasAncestors;
    var rs, n := RecsOf(ms), |RecsOf(ms[..k])|;
    assert rs[n] == FileRec(MemberPath(ms[k]), ms[k].data);
    var ops := AllOps(rs);
    RunRefines(es, m, ops);
    Extracted(m, rs, n);
    AncestorsAreParents(Run(es, ops), RunMap(m, ops), MemberPath(ms[k]));
    FindAgrees(Run(es, ops), RunMap(m, ops), MemberPath(ms[k]));
    if LastRegular(ms, k) {
      LastRegularIsLast(ms, k);
    }
  }

  /** There is no file under the path and the archive brings none. */
  ghost predicate NoFileAt(es: seq<Entry>, ms: seq<Member>, path: CString) {
    && (Find(es, path).None? || Find(es, path) == Some(Dir))
    && (forall l :: 0 <= l < |ms| && IsRegular(ms[l]) ==> MemberPath(ms[l]) != path)
  }

  /** The path of every directory member is there, and it is a directory unless there was a file before or a
      regular member has the path. */
  lemma DirectoryExtracted(es: seq<Entry>, m: Tree, p: seq<byte>, ms: seq<Member>, k: nat)
    requires Refines(es, m) && IsArchive(p, 0, ms) && k < |ms| && !IsTop(ms[k]) && !IsRegular(ms[k])
    ensures var es', path := Run(es, AllOps(Records(p, 0).recs)), Internal(DirPath(ms[k]));
            && Present(es', path)
            && (NoFileAt(es, ms, path) ==> Find(es', path) == Some(Dir))
  {
    ArchiveAllowed(p, 0, ms);
    ArchiveReads(p, 0, ms);
    RecsAround(ms, k);
    hide IsArchive, Records, RecsOf, AllOps, Run, RunMap, Internal, Find, Present, MemberPath, DirPath, Allowed, IsTop;
    var rs, n := RecsOf(ms), |RecsOf(ms[..k])|;
    var path := Internal(DirPath(ms[k]));
    assert rs[n] == DirRec(DirPath(ms[k]));
    var ops := AllOps(rs);
    RunRefines(es, m, ops);
    DirExtracted(m, rs, n);
    FindAgrees(es, m, path);
    FindAgrees(Run(es, ops), RunMap(m, ops), path);
    PresentIs(Run(es, ops), path);
    if NoFileAt(es, ms, path) {
      OnlyRegular(ms, path);
    }
  }

  lemma PresentIs(es: seq<Entry>, p: CString)
    ensures Present(es, p) <==> Find(es, p).Some?
  {
  }

  /** Files are written under the paths of regular members only. */
  lemma OnlyRegular(ms: seq<Member>, path: CString)
    requires forall i :: 0 <= i < |ms| ==> Allowed(ms[i])
    requires forall l :: 0 <= l < |ms| && IsRegular(ms[l]) ==> MemberPath(ms[l]) != path
    ensures forall l :: 0 <= l < |RecsOf(ms)| && RecsOf(ms)[l].FileRec? ==> Internal(RecsOf(ms)[l].path) != path
  {
    hide Internal, Allowed, RecsOf, MemberPath, IsTop, DirPath;
    var rs := RecsOf(ms);
    forall l | 0 <= l < |rs| && rs[l].FileRec?
      ensures Internal(rs[l].path) != path
    {
      var j := RecsFrom(ms, rs[l]);
      RegularStored(ms[j]);
    }
  }

  /** The plain case: "d", "d/" and "./d/" typed as directories, and the latter two in any case, go to "/d". */
  lemma DirectoryPath(m: Member, name: CString, n: nat)
    requires m.prefix == [] && name != [] && |name| < MAX_PATH && name[0] != SLASH && name[|name| - 1] != SLASH && name != [DOT]
    requires !([DOT, SLASH] <= name)
    requires m.name == name + Slashes(n) || m.name == [DOT, SLASH] + (name + Slashes(n))
    requires m.isDir || n > 0
    ensures Internal(DirPath(m)) == [SLASH] + name
  {
    hide Internal, MemberPath, Slashes;
    SlashedPath(m, name, n);
    var path := [SLASH] + name;
    var k := if m.isDir then n else n - 1;
    assert DirPath(m) == path + Slashes(k) by {
      SlashesDrop(path, n);
    }
    SpelledInternal(name, k);
  }

  lemma SlashedPath(m: Member, name: CString, n: nat)
    requires m.prefix == [] && name != [] && name[0] != SLASH && name != [DOT] && !([DOT, SLASH] <= name)
    requires m.name == name + Slashes(n) || m.name == [DOT, SLASH] + (name + Slashes(n))
    ensures MemberPath(m) == [SLASH] + name + Slashes(n)
  {
    var full := name + Slashes(n);
    assert full[0] == name[0] && (|name| > 1 ==> full[1] == name[1]);
    hide Slashes, MemberPath;
    PathWithoutPrefix(m, full);
    assert [SLASH] + full == [SLASH] + name + Slashes(n);
  }

  lemma SlashesDrop(path: CString, n: nat)
    ensures n > 0 ==> (path + Slashes(n))[..|path + Slashes(n)| - 1] == path + Slashes(n - 1)
  {
  }

  lemma SpelledInternal(name: CString, n: nat)
    requires name != [] && |name| < MAX_PATH && name[0] != SLASH && name[|name| - 1] != SLASH
    ensures Internal([SLASH] + name + Slashes(n)) == [SLASH] + name
  {
    Spellings(name, n);
    hide Normalize, Slashes;
    InternalParts([SLASH] + name + Slashes(n));
  }
}
