/** Extraction of the initial RAM disk into HanaFS. */
module Initrd {
  import opened Bytes
  import opened HanaPath
  import opened HanaModel
  import opened HanaImage
  import opened HanaFs
  import I = InitrdModel

  method ParseOctal(s: seq<byte>) returns (v: nat)
    ensures v == I.Octal(I.OctalPrefix(s))
  {
    v := 0;
    var i := 0;
    while i < |s| && s[i] != 0 && I.OctalDigit(s[i])
      invariant i <= |s| && forall k :: 0 <= k < i ==> I.OctalDigit(s[k])
      invariant v == I.Octal(s[..i])
    {
      assert s[..i + 1][..i] == s[..i];
      v := 8 * v + (s[i] - 48);
      i := i + 1;
    }
    I.OctalPrefixIs(s, i);
  }

  /** Copies a field that may lack its NUL. */
  method CopyField(src: seq<byte>) returns (r: CString)
    ensures r == UpTo(src, 0)
  {
    r := [];
    var i := 0;
    while i < |src| && src[i] != 0
      invariant i <= |src| && r == src[..i]
    {
      r := r + [src[i]];
      i := i + 1;
    }
    assert src == r + src[i..];
    UpToAll(r, src[i..], 0);
  }

  method JoinName(name: CString, prefix: CString) returns (full: CString)
    ensures full == I.FullName(name, prefix)
  {
    full := if prefix != [] then prefix + [SLASH] + name else name;
    if |full| >= 2 && full[0] == DOT && full[1] == SLASH {
      full := full[2..];
    }
  }

  /** Directory by type or by a trailing slash. */
  method Classify(full: CString, dirType: bool, size: nat) returns (item: I.Item)
    ensures item == I.ItemOf(full, dirType, size)
  {
    if full == [] || full == [DOT] {
      return I.Skip;
    }
    var path := if full[0] == SLASH then full else [SLASH] + full;
    var isDir := dirType;
    if !isDir && path[|path| - 1] == SLASH {
      isDir := true;
      path := path[..|path| - 1];
    }
    item := if isDir then I.Directory(path, size) else I.Regular(path, size);
  }

  method DecodeHeader(h: seq<byte>) returns (item: I.Item)
    requires |h| == I.BLOCK
    ensures item == I.Decode(h)
  {
    hide UpTo, I.FullName, I.ItemOf, I.Octal, I.OctalPrefix;
    var name := CopyField(h[..100]);
    var prefix := CopyField(h[345..500]);
    var full := JoinName(name, prefix);
    var size := ParseOctal(h[124..136]);
    item := Classify(full, h[156] == 53, size);
  }

  // --- Lengths in range -----------------------------------------------------------------------

  /** Every list on the way can be persisted. */
  ghost predicate Fits(es: seq<Entry>, ops: seq<Op>) {
    forall i :: 0 <= i <= |ops| ==> Saveable(Run(es, ops[..i]))
  }

  lemma {:induction false} RunConcat(es: seq<Entry>, a: seq<Op>, b: seq<Op>)
    ensures Run(es, a + b) == Run(Run(es, a), b)
  {
    hide Apply;
    if b == [] {
      assert a + b == a;
    } else {
      var n := |b| - 1;
      assert (a + b)[..|a + b| - 1] == a + b[..n];
      RunConcat(es, a, b[..n]);
    }
  }

  lemma FitsPrefix(es: seq<Entry>, a: seq<Op>, b: seq<Op>)
    requires Fits(es, b) && a <= b
    ensures Fits(es, a)
  {
    hide Run, Saveable;
    forall i | 0 <= i <= |a|
      ensures Saveable(Run(es, a[..i]))
    {
      assert a[..i] == b[..i];
    }
  }

  lemma FitsRest(es: seq<Entry>, a: seq<Op>, b: seq<Op>)
    requires Fits(es, a + b)
    ensures Fits(Run(es, a), b)
  {
    hide Run, Saveable;
    forall i | 0 <= i <= |b|
      ensures Saveable(Run(Run(es, a), b[..i]))
    {
      assert (a + b)[..|a| + i] == a + b[..i];
      RunConcat(es, a, b[..i]);
    }
  }

  lemma FitsOne(es: seq<Entry>, op: Op)
    requires Fits(es, [op])
    ensures Saveable(Apply(es, op)) && Run(es, [op]) == Apply(es, op)
  {
    assert [op][..0] == [] && [op][..1] == [op];
    hide Apply, Saveable;
    assert Run(es, [op]) == Apply(Run(es, []), op);
  }

  lemma {:induction false} AllOpsPrefix(a: seq<I.Rec>, b: seq<I.Rec>)
    ensures I.AllOps(a) <= I.AllOps(a + b)
  {
    hide I.OpsOf;
    if b == [] {
      assert a + b == a;
    } else {
      var n := |b| - 1;
      assert (a + b)[..|a + b| - 1] == a + b[..n];
      AllOpsPrefix(a, b[..n]);
    }
  }

  // --- Extraction -----------------------------------------------------------------------------

  /** Makes the directory before every slash but the leading one, unless the path is too long. */
  method EnsureParentDirs(store: Store, path: CString)
    requires IsRooted(path) && Fits(store.entries, I.ParentOps(path))
    modifies store`entries, store`disk
    ensures store.entries == Run(old(store.entries), I.ParentOps(path))
  {
    hide Apply, Saveable, Fits, Run, Persisted, Succeeds, I.Parents, Left;
    RunNothing(store.entries);
    if |path| >= I.PARENT_BUFFER {
      return;
    }
    ghost var done: seq<Op> := [];
    NothingDone(path);
    var i := 1;
    while i < |path|
      invariant 1 <= i && Left(path, done, i) && store.entries == Run(old(store.entries), done)
    {
      LeftStep(path, done, i);
      if path[i] == SLASH {
        MakeOne(store, path[..i], old(store.entries), done, I.Parents(path, i + 1));
        done := done + [HanaModel.MakeDir(path[..i])];
      }
      i := i + 1;
    }
    AllDone(path, done, i);
  }

  /** The parents in `done` have been made, those from position `i` on have not. */
  ghost predicate Left(path: CString, done: seq<Op>, i: nat) {
    I.Parents(path, 1) == done + I.Parents(path, i)
  }

  lemma NothingDone(path: CString)
    ensures Left(path, [], 1)
  {
  }

  lemma LeftStep(path: CString, done: seq<Op>, i: nat)
    requires 1 <= i < |path| && Left(path, done, i)
    ensures path[i] != SLASH ==> Left(path, done, i + 1)
    ensures path[i] == SLASH ==>
              var op := HanaModel.MakeDir(path[..i]);
              I.Parents(path, 1) == done + ([op] + I.Parents(path, i + 1)) && Left(path, done + [op], i + 1)
  {
    if path[i] == SLASH {
      Regroup(done, HanaModel.MakeDir(path[..i]), I.Parents(path, i + 1));
    }
  }

  lemma AllDone(path: CString, done: seq<Op>, i: nat)
    requires i >= |path| && Left(path, done, i)
    ensures done == I.Parents(path, 1)
  {
  }

  lemma Regroup(done: seq<Op>, op: Op, rest: seq<Op>)
    ensures done + ([op] + rest) == (done + [op]) + rest
  {
  }

  /** One directory, those in `done` having been made. */
  method MakeOne(store: Store, dir: CString, ghost es: seq<Entry>, ghost done: seq<Op>, ghost rest: seq<Op>)
    requires store.entries == Run(es, done) && Fits(es, done + ([HanaModel.MakeDir(dir)] + rest))
    modifies store`entries, store`disk
    ensures store.entries == Run(es, done + [HanaModel.MakeDir(dir)])
  {
    hide Apply, Saveable, Fits, Run, Persisted, Succeeds;
    Regroup(done, HanaModel.MakeDir(dir), rest);
    StepFits(es, done, HanaModel.MakeDir(dir), rest);
    var made := store.MakeDir(dir);
  }

  lemma RunNothing(es: seq<Entry>)
    ensures Run(es, []) == es
  {
  }

  /** The next operation of a run that fits can be persisted. */
  lemma StepFits(es: seq<Entry>, done: seq<Op>, op: Op, rest: seq<Op>)
    requires Fits(es, done + [op] + rest)
    ensures Saveable(Apply(Run(es, done), op)) && Run(es, done + [op]) == Apply(Run(es, done), op)
  {
    hide Apply, Saveable, Fits, Run;
    FitsPrefix(es, done + [op], done + [op] + rest);
    FitsRest(es, done, [op]);
    FitsOne(Run(es, done), op);
    RunConcat(es, done, [op]);
  }

  /** A file with its parents. */
  method ExtractFile(store: Store, path: CString, data: seq<byte>)
    requires IsRooted(path) && Fits(store.entries, I.OpsOf(I.FileRec(path, data)))
    modifies store`entries, store`disk
    ensures store.entries == Run(old(store.entries), I.OpsOf(I.FileRec(path, data)))
  {
    hide Apply, Saveable, Fits, Run, Persisted;
    ghost var ps := I.ParentOps(path);
    ghost var op := HanaModel.Write(path, data);
    assert ps + [op] + [] == I.OpsOf(I.FileRec(path, data));
    StepFits(store.entries, ps, op, []);
    FitsPrefix(store.entries, ps, ps + [op]);
    EnsureParentDirs(store, path);
    var ok;
    if |data| > 0 {
      ok := store.WriteFile(path, data);
    } else {
      ok := store.CreateFile(path);
    }
  }

  /** Regular files have rooted paths. */
  lemma RegularRooted(h: seq<byte>)
    requires |h| == I.BLOCK && I.Decode(h).Regular?
    ensures IsRooted(I.Decode(h).path)
  {
  }

  /** `whole` is `done` followed by what is left. */
  ghost predicate Splits(whole: I.Walk, done: seq<I.Rec>, left: I.Walk) {
    whole.recs == done + left.recs && whole.complete == left.complete
  }

  /** Walks the archive: fails on no data and on a truncated file, else does what its records say. */
  method InitFromMemory(store: Store, p: seq<byte>) returns (ok: bool)
    requires Fits(store.entries, I.AllOps(I.Records(p, 0).recs))
    modifies store`entries, store`disk
    ensures ok == (p != [] && I.Records(p, 0).complete)
    ensures p != [] ==> store.entries == Run(old(store.entries), I.AllOps(I.Records(p, 0).recs))
    ensures p == [] ==> store.entries == old(store.entries)
  {
    hide Apply, Saveable, Fits, Run, Persisted, Splits, I.Decode, I.OpsOf, I.Rounded, I.Records, I.Walk.After;
    RunNothing(store.entries);
    if p == [] {
      I.EndReads(p, 0);
      return false;
    }
    ghost var whole := I.Records(p, 0);
    ghost var done: seq<I.Rec> := [];
    WalkStart(whole);
    hide I.AllOps;
    var off := 0;
    while off + I.BLOCK <= |p| && p[off] != 0
      invariant Splits(whole, done, I.Records(p, off))
      invariant store.entries == Run(old(store.entries), I.AllOps(done))
      decreases |p| - off
    {
      I.WalkOf(p, off);
      var item := DecodeHeader(p[off..off + I.BLOCK]);
      off := off + I.BLOCK;
      match item {
        case Skip =>
        case Directory(path, size) =>
          done := ExtractOne(store, old(store.entries), whole, done, I.DirRec(path), I.Records(p, off + I.Rounded(size)));
          off := off + I.Rounded(size);
        case Regular(path, size) =>
          if off + size > |p| {
            WalkDone(whole, done, I.Walk([], false));
            return false;
          }
          RegularRooted(p[off - I.BLOCK..off]);
          done := ExtractOne(store, old(store.entries), whole, done, I.FileRec(path, p[off..off + size]), I.Records(p, off + I.Rounded(size)));
          off := off + I.Rounded(size);
      }
    }
    I.EndReads(p, off);
    WalkDone(whole, done, I.Walk([], true));
    ok := true;
  }

  lemma WalkStart(whole: I.Walk)
    ensures Splits(whole, [], whole) && I.AllOps([]) == []
  {
  }

  lemma WalkDone(whole: I.Walk, done: seq<I.Rec>, left: I.Walk)
    requires Splits(whole, done, left) && left.recs == []
    ensures whole == I.Walk(done, left.complete)
  {
  }

  lemma OneFits(es: seq<Entry>, done: seq<I.Rec>, r: I.Rec, rest: seq<I.Rec>)
    requires Fits(es, I.AllOps(done + ([r] + rest)))
    ensures Fits(Run(es, I.AllOps(done)), I.OpsOf(r))
    ensures Run(es, I.AllOps(done + [r])) == Run(Run(es, I.AllOps(done)), I.OpsOf(r))
  {
    assert (done + [r])[..|done|] == done;
    assert I.AllOps(done + [r]) == I.AllOps(done) + I.OpsOf(r);
    hide Fits, Run, I.AllOps, I.OpsOf;
    assert done + ([r] + rest) == (done + [r]) + rest;
    AllOpsPrefix(done + [r], rest);
    FitsPrefix(es, I.AllOps(done + [r]), I.AllOps(done + [r] + rest));
    FitsRest(es, I.AllOps(done), I.OpsOf(r));
    RunConcat(es, I.AllOps(done), I.OpsOf(r));
  }

  /** One record of the archive, the ones in `done` having been extracted. */
  method ExtractOne(store: Store, ghost es: seq<Entry>, ghost whole: I.Walk, ghost done: seq<I.Rec>, r: I.Rec, ghost left: I.Walk)
    returns (ghost done': seq<I.Rec>)
    requires store.entries == Run(es, I.AllOps(done)) && Splits(whole, done, left.After(r)) && Fits(es, I.AllOps(whole.recs))
    requires r.FileRec? ==> IsRooted(r.path)
    modifies store`entries, store`disk
    ensures store.entries == Run(es, I.AllOps(done')) && Splits(whole, done', left)
  {
    hide Apply, Saveable, Fits, Run, Persisted, I.AllOps;
    OneFits(es, done, r, left.recs);
    done' := done + [r];
    assert done + ([r] + left.recs) == done' + left.recs;
    match r {
      case DirRec(path) =>
        FitsOne(store.entries, HanaModel.MakeDir(path));
        var made := store.MakeDir(path);
      case FileRec(path, data) =>
        hide I.OpsOf;
        ExtractFile(store, path, data);
    }
  }
}
