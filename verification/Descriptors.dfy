/** File descriptors: open files with a position, backed by HanaFS when they are closed. */
module Descriptors {
  import opened Bytes
  import opened HanaPath
  import opened HanaModel
  import opened HanaImage
  import opened HanaFs

  // --- Files with a position ------------------------------------------------------------------

  datatype FileState = FileState(contents: seq<byte>, pos: nat)

  predicate InBounds(f: FileState) {
    f.pos <= |f.contents|
  }

  /** Overwrites from the position on, growing the file as needed. */
  function WriteAt(f: FileState, data: seq<byte>): (r: FileState)
    requires InBounds(f)
    ensures InBounds(r)
  {
    FileState(f.contents[..f.pos] + data + f.contents[Min(f.pos + |data|, |f.contents|)..], f.pos + |data|)
  }

  function Chunk(f: FileState, n: nat): (r: seq<byte>)
    requires InBounds(f)
  {
    f.contents[f.pos..Min(f.pos + n, |f.contents|)]
  }

  datatype Whence = Set | Cur | End | Other

  /** Target of a seek; an unknown origin goes to the start. */
  function Target(f: FileState, offset: int, whence: Whence): (r: int) {
    match whence
    case Set => offset
    case Cur => f.pos + offset
    case End => |f.contents| + offset
    case Other => 0
  }

  /** A seek before the start fails; one past the end stops at the end. */
  function SeekTo(f: FileState, offset: int, whence: Whence): (r: FileState)
    requires InBounds(f)
    ensures InBounds(r) && r.contents == f.contents
  {
    var t := Target(f, offset, whence);
    if t < 0 then f else f.(pos := Min(t, |f.contents|))
  }

  /** A write changes exactly the bytes under it, and the length only to make room. */
  lemma WrittenBytes(f: FileState, data: seq<byte>, i: nat)
    requires InBounds(f)
    ensures var g := WriteAt(f, data);
            && |g.contents| == (if f.pos + |data| > |f.contents| then f.pos + |data| else |f.contents|)
            && (i < |g.contents| ==>
                  g.contents[i] == if f.pos <= i < f.pos + |data| then data[i - f.pos] else f.contents[i])
  {
  }

  /** What was written is read back from where it was written. */
  lemma WriteSeekRead(f: FileState, data: seq<byte>)
    requires InBounds(f)
    ensures Chunk(SeekTo(WriteAt(f, data), f.pos, Set), |data|) == data
  {
  }

  /** Seeking from the position and from the end: back over what was just written, to the last bytes, and to
      the end, where a write appends. Before the start nothing moves. */
  lemma SeekOrigins(f: FileState, data: seq<byte>, n: int)
    requires InBounds(f) && n >= 0
    ensures Chunk(SeekTo(WriteAt(f, data), -|data|, Cur), |data|) == data
    ensures WriteAt(SeekTo(f, 0, End), data) == FileState(f.contents + data, |f.contents| + |data|)
    ensures n <= |f.contents| ==> Chunk(SeekTo(f, -n, End), n) == f.contents[|f.contents| - n..]
    ensures f.pos < n ==> SeekTo(f, -n, Cur) == f
    ensures |f.contents| < n ==> SeekTo(f, -n, End) == f
  {
    var g := WriteAt(f, data);
    assert SeekTo(g, -|data|, Cur) == SeekTo(g, f.pos, Set);
    WriteSeekRead(f, data);
  }

  /** Reading in turn gives the bytes in order, without a gap, and all of them in the end. */
  lemma ReadInTurn(f: FileState, n: nat, m: nat)
    requires InBounds(f)
    ensures var a := Chunk(f, n);
            && |a| == Min(n, |f.contents| - f.pos)
            && a + Chunk(f.(pos := f.pos + |a|), m) == Chunk(f, n + m)
            && (f.pos + n >= |f.contents| ==> a == f.contents[f.pos..])
  {
    var a := Chunk(f, n);
    var b := Chunk(f.(pos := f.pos + |a|), m);
    assert a + b == f.contents[f.pos..f.pos + |a| + |b|];
  }

  // --- Open files -----------------------------------------------------------------------------

  class OpenFile {
    const path: CString
    var buf: array<byte>
    var pos: nat

    ghost function State(): (f: FileState)
      reads this, buf
    {
      FileState(buf[..], pos)
    }

    constructor (path: CString, data: seq<byte>, pos: nat)
      ensures this.path == path && State() == FileState(data, pos) && fresh(buf)
    {
      this.path, this.pos := path, pos;
      this.buf := new byte[|data|](i requires 0 <= i < |data| => data[i]);
      new;
      assert buf[..] == data;
    }

    /** Room for `needed` bytes: the old contents followed by zeros. */
    method Grow(needed: nat)
      requires needed > buf.Length
      modifies this`buf
      ensures fresh(buf) && buf[..] == old(buf[..]) + Zeros(needed - old(buf.Length))
    {
      var nb := new byte[needed];
      var i := 0;
      while i < buf.Length
        invariant i <= buf.Length && buf == old(buf) && fresh(nb) && nb.Length == needed
        invariant buf[..] == old(buf[..]) && nb[..i] == buf[..i]
      {
        nb[i] := buf[i];
        i := i + 1;
      }
      while i < needed
        invariant buf.Length <= i <= needed && buf == old(buf) && fresh(nb) && nb.Length == needed
        invariant nb[..i] == old(buf[..]) + Zeros(i - buf.Length)
      {
        nb[i] := 0;
        i := i + 1;
      }
      assert nb[..] == nb[..i];
      buf := nb;
    }

    method Write(data: seq<byte>) returns (n: nat)
      requires InBounds(State())
      modifies this, buf
      ensures n == |data| && State() == WriteAt(old(State()), data) && (buf == old(buf) || fresh(buf))
    {
      var needed := pos + |data|;
      if needed > buf.Length {
        Grow(needed);
      }
      ghost var was := buf[..];
      var i := 0;
      while i < |data|
        invariant i <= |data| && buf.Length == |was| && pos == old(pos) && (buf == old(buf) || fresh(buf))
        invariant forall k :: 0 <= k < buf.Length ==> buf[k] == if pos <= k < pos + i then data[k - pos] else was[k]
      {
        buf[pos + i] := data[i];
        i := i + 1;
      }
      assert buf[..] == WriteAt(old(State()), data).contents;
      pos := pos + |data|;
      n := |data|;
    }

    method Read(count: nat) returns (dst: seq<byte>)
      requires InBounds(State())
      modifies this`pos
      ensures dst == Chunk(old(State()), count) && State() == FileState(old(buf[..]), old(pos) + |dst|) && InBounds(State())
    {
      var avail := if buf.Length > pos then buf.Length - pos else 0;
      var tocopy := if avail < count then avail else count;
      dst := [];
      var i := 0;
      while i < tocopy
        invariant i <= tocopy && dst == buf[pos..pos + i] && pos == old(pos)
      {
        dst := dst + [buf[pos + i]];
        i := i + 1;
      }
      pos := pos + tocopy;
    }

    method Seek(offset: int, whence: Whence) returns (r: int)
      requires InBounds(State())
      modifies this`pos
      ensures State() == SeekTo(old(State()), offset, whence) && InBounds(State())
      ensures r == if Target(old(State()), offset, whence) < 0 then -1 else pos
    {
      var newpos := 0;
      if whence == Set {
        newpos := offset;
      } else if whence == Cur {
        newpos := pos + offset;
      } else if whence == End {
        newpos := buf.Length + offset;
      }
      if newpos < 0 {
        return -1;
      }
      if newpos > buf.Length {
        newpos := buf.Length;
      }
      pos := newpos;
      r := pos;
    }
  }

  // --- Opening and closing --------------------------------------------------------------------

  /** Lowest descriptor that is free, the three standard ones left out. */
  method AllocFd(used: seq<bool>) returns (fd: int)
    ensures fd == -1 ==> forall i :: 3 <= i < |used| ==> used[i]
    ensures fd != -1 ==> 3 <= fd < |used| && !used[fd] && forall i :: 3 <= i < fd ==> used[i]
  {
    fd := 3;
    while fd < |used|
      invariant 3 <= fd && forall i :: 3 <= i < fd && i < |used| ==> used[i]
    {
      if !used[fd] {
        return;
      }
      fd := fd + 1;
    }
    fd := -1;
  }

  /** Bytes under a path that is not under a mount: what HanaFS has, if it has any, else what the other
      file systems have. */
  function Visible(es: seq<Entry>, path: CString, elsewhere: seq<byte>): (d: seq<byte>) {
    match Find(es, Internal(path))
    case Some(File(d)) => if |d| > 0 then d else elsewhere
    case _ => elsewhere
  }

  /** A write makes the bytes visible, unless there are none. */
  lemma VisibleAfterWrite(es: seq<Entry>, path: CString, data: seq<byte>, elsewhere: seq<byte>)
    ensures Visible(Apply(es, Write(path, data)), path, elsewhere) == if data != [] then data else elsewhere
  {
    hide Internal;
    var es' := Apply(es, Write(path, data));
    assert es'[0] == Entry(Internal(path), false, data);
    FirstIs(es', {Internal(path)}, 0);
  }

  datatype Flags = Flags(creat: bool, trunc: bool, append: bool)

  /** Whether opening makes an empty file first. */
  predicate Creates(es: seq<Entry>, path: CString, flags: Flags, elsewhere: seq<byte>) {
    flags.creat && Visible(es, path, elsewhere) == []
  }

  /** Opens a path; there is always a file afterwards, an empty one if nothing is visible. */
  method Open(store: Store, path: CString, flags: Flags, elsewhere: seq<byte>) returns (f: OpenFile)
    requires Creates(store.entries, path, flags, elsewhere) && store.Persists(path) ==> Saveable(Apply(store.entries, Write(path, [])))
    modifies store`entries, store`disk
    ensures fresh(f) && fresh(f.buf) && f.path == path
    ensures var d := if flags.trunc then [] else Visible(old(store.entries), path, elsewhere);
            f.State() == FileState(d, if flags.append then |d| else 0)
    ensures store.entries == if Creates(old(store.entries), path, flags, elsewhere) then Apply(old(store.entries), Write(path, []))
                             else old(store.entries)
    ensures store.persistEnabled == old(store.persistEnabled)
  {
    var found := store.GetFile(path);
    var data := if found.Some? && |found.value| > 0 then found.value else elsewhere;
    if data == [] && flags.creat {
      var ok := store.CreateFile(path);
    }
    if flags.trunc {
      data := [];
    }
    f := new OpenFile(path, data, if flags.append then |data| else 0);
  }

  /** Closing writes the contents back. */
  method Close(f: OpenFile, store: Store)
    requires store.Persists(f.path) ==> Saveable(Apply(store.entries, Write(f.path, f.buf[..])))
    modifies store`entries, store`disk
    ensures store.entries == Apply(old(store.entries), Write(f.path, f.buf[..]))
    ensures store.persistEnabled == old(store.persistEnabled)
  {
    var ok := store.WriteFile(f.path, f.buf[..]);
  }

  /** Open, write, close, open, read enough: gives back what was written exactly when something was written or
      no other file system has bytes under the path. */
  method WriteThenRead(store: Store, path: CString, data: seq<byte>, elsewhere: seq<byte>, count: nat) returns (r: seq<byte>)
    requires count >= |data| && count >= |elsewhere|
    requires store.Persists(path) ==>
               && Saveable(Apply(store.entries, Write(path, []))) && Saveable(Apply(store.entries, Write(path, data)))
               && Saveable(Apply(Apply(store.entries, Write(path, [])), Write(path, data)))
    modifies store`entries, store`disk
    ensures r == data <==> data != [] || elsewhere == []
  {
    hide Apply, Saveable, Internal;
    ghost var es := store.entries;
    var f := Open(store, path, Flags(true, true, false), elsewhere);
    var n := f.Write(data);
    assert f.buf[..] == data;
    ghost var before := store.entries;
    Close(f, store);
    VisibleAfterWrite(before, path, data, elsewhere);
    var g := Open(store, path, Flags(false, false, false), elsewhere);
    r := g.Read(count);
  }
}
