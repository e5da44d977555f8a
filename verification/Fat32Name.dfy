/** 8.3 directory entries: how a name is packed, how a slot is decoded, and the decimal cluster
    numbers through which files are read. */
module Fat32Name {
  import opened Bytes

  const SPACE: byte := 32

  function Upper(c: byte): (r: byte) {
    if 97 <= c <= 122 then c - 32 else c
  }

  function Uppercase(s: seq<byte>): (r: seq<byte>)
    ensures |r| == |s|
    ensures forall i :: 0 <= i < |s| ==> r[i] == Upper(s[i])
  {
    seq(|s|, i requires 0 <= i < |s| => Upper(s[i]))
  }

  /** Position of the last dot, or -1. */
  function LastDot(s: seq<byte>): (r: int)
    ensures -1 <= r < |s|
    ensures r >= 0 ==> s[r] == DOT
    ensures forall i :: r < i < |s| ==> s[i] != DOT
  {
    if s == [] then -1
    else if s[|s| - 1] == DOT then |s| - 1
    else LastDot(s[..|s| - 1])
  }

  /** `n` bytes holding `s`, cut off or padded with spaces. */
  function Padded(s: seq<byte>, n: nat): (r: seq<byte>)
    ensures |r| == n
    ensures forall i :: 0 <= i < n ==> r[i] == if i < |s| then s[i] else SPACE
  {
    Cut(s, n) + seq(n - Min(|s|, n), _ => SPACE)
  }

  /** The part before the last dot, and the part after it. */
  function Base(name: seq<byte>): (r: seq<byte>) {
    if LastDot(name) < 0 then name else name[..LastDot(name)]
  }

  function Ext(name: seq<byte>): (r: seq<byte>) {
    if LastDot(name) < 0 then [] else name[LastDot(name) + 1..]
  }

  /** What packing a name into 11 bytes yields: base and extension cut to 8 and 3 characters,
      rejected when empty or when a kept character is a space. */
  function ShortName(name: seq<byte>): (r: Option<seq<byte>>)
    ensures r.Some? ==> |r.value| == 11
  {
    if name == [] then None
    else if SPACE in Cut(Base(name), 8) || SPACE in Cut(Ext(name), 3) then None
    else Some(Padded(Uppercase(Base(name)), 8) + Padded(Uppercase(Ext(name)), 3))
  }

  /** Copy upper-cased characters into a field of `cap` bytes, stopping at a space. */
  method CopyField(src: seq<byte>, out: array<byte>, at: nat, cap: nat) returns (ok: bool)
    requires at + cap <= out.Length
    modifies out
    ensures ok == (SPACE !in Cut(src, cap))
    ensures forall i :: 0 <= i < out.Length && !(at <= i < at + cap) ==> out[i] == old(out[i])
    ensures ok && old(forall i :: at <= i < at + cap ==> out[i] == SPACE) ==> out[at..at + cap] == Padded(Uppercase(src), cap)
  {
    var n := 0;
    while n < |src| && n < cap
      invariant 0 <= n <= Min(|src|, cap)
      invariant SPACE !in src[..n]
      invariant forall i :: 0 <= i < n ==> out[at + i] == Upper(src[i])
      invariant forall i :: 0 <= i < out.Length && !(at <= i < at + n) ==> out[i] == old(out[i])
    {
      var c := Upper(src[n]);
      if c == SPACE {
        assert Cut(src, cap)[n] == SPACE;
        return false;
      }
      out[at + n] := c;
      n := n + 1;
    }
    ok := true;
  }

  method FindLastDot(name: seq<byte>) returns (dot: int)
    ensures dot == LastDot(name)
  {
    dot := -1;
    for i := 0 to |name|
      invariant dot == LastDot(name[..i])
    {
      assert name[..i + 1][..i] == name[..i];
      if name[i] == DOT {
        dot := i;
      }
    }
    assert name[..|name|] == name;
  }

  /** Pack a name into the 11-byte buffer of a directory entry. */
  method FormatShortName(name: seq<byte>, out: array<byte>) returns (ok: bool)
    requires out.Length == 11
    modifies out
    ensures ok == ShortName(name).Some?
    ensures ok ==> out[..] == ShortName(name).value
  {
    hide LastDot, Uppercase, Padded, Cut;
    for i := 0 to 11
      invariant forall k :: 0 <= k < i ==> out[k] == SPACE
    {
      out[i] := SPACE;
    }
    if name == [] {
      return false;
    }
    var dot := FindLastDot(name);
    var base := if dot < 0 then name else name[..dot];
    var ext := if dot < 0 then [] else name[dot + 1..];
    ok := CopyField(base, out, 0, 8);
    if ok {
      ghost var field := out[0..8];
      ok := CopyField(ext, out, 8, 3);
      assert out[0..8] == field;
      assert out[..] == out[0..8] + out[8..11];
    }
  }

  // --- Slots -------------------------------------------------------------------------------

  type Slot = s: seq<byte> | |s| == 32 witness Zeros(32)

  const FREE: byte := 0
  const DELETED: byte := 0xE5

  /** The slot after an entry is written over it; bytes 22 to 25 keep what was there. */
  function MakeEntry(was: Slot, name11: seq<byte>, attr: byte, first: nat, size: nat): (r: Slot)
    requires |name11| == 11 && first < TWO32 && size < TWO32
  {
    var c := Le32(first);
    name11 + [attr] + Zeros(8) + c[2..4] + was[22..26] + c[0..2] + Le32(size)
  }

  function SlotCluster(s: Slot): (c: nat) { Word32(s[26..28] + s[20..22]) }

  function SlotSize(s: Slot): (n: nat) { Word32(s[28..32]) }

  lemma EntryFields(was: Slot, name11: seq<byte>, attr: byte, first: nat, size: nat)
    requires |name11| == 11 && first < TWO32 && size < TWO32
    ensures var e := MakeEntry(was, name11, attr, first, size);
            && e[..11] == name11 && e[11] == attr
            && SlotCluster(e) == first && SlotSize(e) == size
            && e[12..20] == Zeros(8) && e[22..26] == was[22..26]
  {
    var e := MakeEntry(was, name11, attr, first, size);
    var c := Le32(first);
    assert e[26..28] == c[0..2] && e[20..22] == c[2..4] && e[28..32] == Le32(size);
    assert c[0..2] + c[2..4] == c;
    Word32OfLe32(first);
    Word32OfLe32(size);
  }

  /** Where a slot has its first cluster, in two halves, and its size. */
  lemma SlotFields(s: Slot)
    ensures SlotCluster(s) == LittleEndian(s[26..28]) + 0x10000 * LittleEndian(s[20..22])
    ensures SlotSize(s) == LittleEndian(s[28..32])
  {
    var w := s[26..28] + s[20..22];
    LittleEndianWords(s[26..28]);
    LittleEndianWords(s[20..22]);
    LittleEndianWords(s[28..32]);
    assert w[0] == s[26] && w[1] == s[27] && w[2] == s[20] && w[3] == s[21];
  }

  /** A base field without its trailing spaces. */
  function TrimSpaces(s: seq<byte>): (r: seq<byte>)
    ensures r <= s
  {
    if s != [] && s[|s| - 1] == SPACE then TrimSpaces(s[..|s| - 1]) else s
  }

  function WithExt(base: seq<byte>, ext: seq<byte>): (r: seq<byte>)
    requires |ext| == 3
  {
    if ext[0] == SPACE then base else base + [DOT] + UpTo(ext, 0)
  }

  /** The name the writing and removing side decodes. */
  function RemoverName(s: Slot): (r: seq<byte>) {
    WithExt(UpTo(TrimSpaces(s[..8]), 0), s[8..11])
  }

  /** The name the reading side decodes: the base ends at its first space. */
  function ReaderName(s: Slot): (r: seq<byte>) {
    WithExt(UpTo(UpTo(s[..8], SPACE), 0), s[8..11])
  }

  /** The reading side compares the whole name when the component has a dot, else the base only. */
  predicate ReaderMatches(comp: seq<byte>, s: Slot) {
    if DOT in comp then ReaderName(s) == comp else UpTo(ReaderName(s), DOT) == comp
  }

  lemma UppercaseKeeps(s: seq<byte>)
    ensures 0 in Uppercase(s) <==> 0 in s
    ensures SPACE in Uppercase(s) <==> SPACE in s
    ensures DOT in Uppercase(s) <==> DOT in s
  {
    var u := Uppercase(s);
    assert forall i :: 0 <= i < |s| ==> (u[i] == 0 <==> s[i] == 0) && (u[i] == SPACE <==> s[i] == SPACE) && (u[i] == DOT <==> s[i] == DOT);
    assert forall i :: 0 <= i < |s| && s[i] in [0, SPACE, DOT] ==> u[i] == s[i];
  }

  lemma {:induction false} TrimPadding(base: seq<byte>, n: nat)
    requires base == [] || base[|base| - 1] != SPACE
    ensures TrimSpaces(base + seq(n, _ => SPACE)) == base
  {
    var s := base + seq(n, _ => SPACE);
    if n > 0 {
      assert s[..|s| - 1] == base + seq(n - 1, _ => SPACE);
      TrimPadding(base, n - 1);
    } else {
      assert s == base;
    }
  }

  /** A padded base field decodes, on both sides, to the characters kept. */
  lemma PaddedDecodes(s: seq<byte>)
    requires SPACE !in Cut(s, 8) && 0 !in Cut(s, 8)
    ensures UpTo(UpTo(Padded(s, 8), SPACE), 0) == Cut(s, 8)
    ensures UpTo(TrimSpaces(Padded(s, 8)), 0) == Cut(s, 8)
  {
    hide UpTo, TrimSpaces;
    var kept := Cut(s, 8);
    UpToAll(kept, seq(8 - |kept|, _ => SPACE), SPACE);
    UpToAll(kept, [], 0);
    assert kept + [] == kept;
    TrimPadding(kept, 8 - |kept|);
  }

  /** The name that an entry packed from `name` decodes to. */
  function Decoded(name: seq<byte>): (r: seq<byte>) {
    var base := Cut(Uppercase(Base(name)), 8);
    if Ext(name) == [] then base else base + [DOT] + Padded(Uppercase(Ext(name)), 3)
  }

  lemma CutUpper(s: seq<byte>, n: nat)
    ensures Cut(Uppercase(s), n) == Uppercase(Cut(s, n))
  {
  }

  /** Both sides decode the entry made for a name to the same string. */
  lemma PackedDecodes(name: CString, e: Slot)
    requires ShortName(name) == Some(e[..11])
    ensures ReaderName(e) == Decoded(name) && RemoverName(e) == Decoded(name)
  {
    hide UpTo, TrimSpaces, Uppercase, LastDot;
    var base, ext := Uppercase(Base(name)), Uppercase(Ext(name));
    assert e[..8] == e[..11][..8] == Padded(base, 8);
    assert e[8..11] == e[..11][8..] == Padded(ext, 3);
    CutUpper(Base(name), 8);
    UppercaseKeeps(Cut(Base(name), 8));
    PaddedDecodes(base);
    CutUpper(Ext(name), 3);
    UppercaseKeeps(Cut(Ext(name), 3));
    if Ext(name) != [] {
      assert Cut(ext, 3)[0] in Cut(ext, 3);
      assert 0 !in Padded(ext, 3);
      UpToAll(Padded(ext, 3), [], 0);
      assert Padded(ext, 3) + [] == Padded(ext, 3);
    }
  }

  /** Names that fit: up to 8 characters without a dot, or up to 8 before the last dot and exactly 3
      after it. */
  predicate FitsShort(name: seq<byte>) {
    var dot := LastDot(name);
    if dot < 0 then |name| <= 8 else dot <= 8 && |name| == dot + 4
  }

  lemma SplitAtDot(name: seq<byte>)
    requires LastDot(name) >= 0
    ensures name == Base(name) + [DOT] + Ext(name)
    ensures Uppercase(name) == Uppercase(Base(name)) + [DOT] + Uppercase(Ext(name))
    ensures DOT !in Uppercase(Ext(name)) && DOT in name
  {
    hide LastDot, Uppercase;
    UppercaseKeeps(Ext(name));
    var base, ext := Base(name), Ext(name);
    assert name == base + [DOT] + ext;
    UpperConcat(base + [DOT], ext);
    UpperConcat(base, [DOT]);
    assert Uppercase([DOT]) == [DOT];
  }

  lemma UpperConcat(a: seq<byte>, b: seq<byte>)
    ensures Uppercase(a + b) == Uppercase(a) + Uppercase(b)
  {
  }

  lemma DecodedFits(name: seq<byte>)
    requires FitsShort(name)
    ensures Decoded(name) == Uppercase(name)
  {
    hide LastDot, Uppercase, Padded;
    var base, ext := Uppercase(Base(name)), Uppercase(Ext(name));
    assert Cut(base, 8) == base;
    if LastDot(name) >= 0 {
      SplitAtDot(name);
      assert Padded(ext, 3) == ext;
    }
  }

  /** A base longer than 8 characters pushes an extension character where the last dot belongs. */
  lemma DotDisplaced(name: seq<byte>)
    requires 8 < LastDot(name) < |Decoded(name)| && Ext(name) != []
    ensures Decoded(name)[LastDot(name)] != DOT
  {
    hide LastDot, Uppercase, Padded;
    SplitAtDot(name);
    var ext, k := Uppercase(Ext(name)), LastDot(name) - 9;
    assert Decoded(name)[LastDot(name)] == Padded(ext, 3)[k];
    if k < |ext| {
      assert ext[k] in ext;
    }
  }

  lemma DecodedMisfit(name: seq<byte>)
    requires !FitsShort(name)
    ensures Decoded(name) != Uppercase(name)
  {
    hide LastDot, Uppercase, Padded;
    var dot := LastDot(name);
    if |Decoded(name)| == |name| {
      assert 8 < dot < |name| && Ext(name) != [];
      DotDisplaced(name);
      assert Uppercase(name)[dot] == Upper(name[dot]);
    }
  }

  /** The decoded name is the upper-cased name exactly for the names that fit. */
  lemma DecodedExact(name: seq<byte>)
    ensures Decoded(name) == Uppercase(name) <==> FitsShort(name)
  {
    if FitsShort(name) {
      DecodedFits(name);
    } else {
      DecodedMisfit(name);
    }
  }

  /** The lookup finds an entry under the name it was written with exactly when the name fits. */
  lemma FoundExactly(name: CString, e: Slot)
    requires ShortName(name) == Some(e[..11])
    ensures ReaderMatches(Uppercase(name), e) <==> FitsShort(name)
  {
    hide ReaderName, ShortName, Decoded, Uppercase, LastDot;
    PackedDecodes(name, e);
    DecodedExact(name);
    UppercaseKeeps(name);
    if LastDot(name) < 0 {
      NoDotDecoded(name);
    } else {
      SplitAtDot(name);
    }
  }

  lemma NoDotDecoded(name: seq<byte>)
    requires LastDot(name) < 0
    ensures UpTo(Decoded(name), DOT) == Decoded(name) && DOT !in name
  {
    CutUpper(name, 8);
    UppercaseKeeps(Cut(name, 8));
    UpToAll(Decoded(name), [], DOT);
    assert Decoded(name) + [] == Decoded(name);
  }

  // --- Slots written by others -------------------------------------------------------------

  lemma {:induction false} UpToIn(s: seq<byte>, rest: seq<byte>, stop: byte)
    requires stop in s
    ensures UpTo(s + rest, stop) == UpTo(s, stop)
  {
    if s[0] != stop {
      assert (s + rest)[1..] == s[1..] + rest;
      UpToIn(s[1..], rest, stop);
    }
  }

  /** A base field with a name of any bytes, padded with spaces: the removing side keeps spaces inside the
      name, the reading side ends it at the first one. So the two read a slot alike exactly when its base has
      no space inside. */
  lemma SidesDiffer(s: Slot, base: seq<byte>)
    requires |base| <= 8 && s[..8] == base + seq(8 - |base|, _ => SPACE) && 0 !in base && (base == [] || base[|base| - 1] != SPACE)
    ensures RemoverName(s) == WithExt(base, s[8..11]) && ReaderName(s) == WithExt(UpTo(base, SPACE), s[8..11])
    ensures RemoverName(s) == ReaderName(s) <==> SPACE !in base
  {
    hide UpTo, TrimSpaces, WithExt;
    RemoverReads(s[..8], base);
    ReaderReads(s[..8], base);
    if RemoverName(s) == ReaderName(s) {
      SameBase(base, UpTo(base, SPACE), s[8..11]);
    } else {
      assert UpTo(base, SPACE) != base;
    }
  }

  lemma SameBase(a: seq<byte>, b: seq<byte>, ext: seq<byte>)
    requires |ext| == 3 && WithExt(a, ext) == WithExt(b, ext)
    ensures a == b
  {
    hide UpTo;
    assert a == WithExt(a, ext)[..|a|] && b == WithExt(b, ext)[..|b|];
  }

  lemma RemoverReads(field: seq<byte>, base: seq<byte>)
    requires |base| <= 8 && field == base + seq(8 - |base|, _ => SPACE) && 0 !in base && (base == [] || base[|base| - 1] != SPACE)
    ensures UpTo(TrimSpaces(field), 0) == base
  {
    hide UpTo, TrimSpaces;
    TrimPadding(base, 8 - |base|);
    UpToAll(base, [], 0);
    assert base + [] == base;
  }

  lemma ReaderReads(field: seq<byte>, base: seq<byte>)
    requires |base| <= 8 && field == base + seq(8 - |base|, _ => SPACE) && 0 !in base
    ensures UpTo(UpTo(field, SPACE), 0) == UpTo(base, SPACE)
    ensures |UpTo(base, SPACE)| < |base| <==> SPACE in base
  {
    hide UpTo;
    var pad := seq(8 - |base|, _ => SPACE);
    assert base + [] == base;
    if SPACE in base {
      UpToIn(base, pad, SPACE);
    } else {
      UpToAll(base, pad, SPACE);
      UpToAll(base, [], SPACE);
    }
    var short := UpTo(base, SPACE);
    UpToAll(short, [], 0);
    assert short + [] == short;
  }

  // --- Letter case -------------------------------------------------------------------------

  /** The same byte, or one letter in its two cases. */
  predicate SameLetter(a: byte, b: byte) {
    a == b || (65 <= a <= 90 && b == a + 32) || (65 <= b <= 90 && a == b + 32)
  }

  predicate SameLetters(a: seq<byte>, b: seq<byte>) {
    |a| == |b| && forall i :: 0 <= i < |a| ==> SameLetter(a[i], b[i])
  }

  /** No small letter. */
  predicate NoSmall(s: seq<byte>) {
    forall i :: 0 <= i < |s| ==> !(97 <= s[i] <= 122)
  }

  /** Strings have the same capitals exactly when they differ in letter case at most. */
  lemma SameCapitals(a: seq<byte>, b: seq<byte>)
    ensures Uppercase(a) == Uppercase(b) <==> SameLetters(a, b)
    ensures NoSmall(Uppercase(a)) && SameLetters(Uppercase(a), a)
  {
    if Uppercase(a) == Uppercase(b) {
      forall i | 0 <= i < |a|
        ensures SameLetter(a[i], b[i])
      {
        assert Uppercase(a)[i] == Uppercase(b)[i];
      }
    }
  }

  /** Exactly the names that can be packed: not empty, and no space among the bytes kept. */
  lemma PackableExactly(name: seq<byte>)
    ensures ShortName(name).Some? <==>
            && name != []
            && (forall i :: 0 <= i < 8 && i < |Base(name)| ==> Base(name)[i] != 32)
            && (forall i :: 0 <= i < 3 && i < |Ext(name)| ==> Ext(name)[i] != 32)
  {
    hide LastDot, Uppercase, Padded;
    var b, e := Cut(Base(name), 8), Cut(Ext(name), 3);
    assert forall i :: 0 <= i < |b| ==> b[i] == Base(name)[i];
    assert forall i :: 0 <= i < |e| ==> e[i] == Ext(name)[i];
    assert forall i :: 0 <= i < 8 && i < |Base(name)| ==> Base(name)[i] == b[i] && b[i] in b;
    assert forall i :: 0 <= i < 3 && i < |Ext(name)| ==> Ext(name)[i] == e[i] && e[i] in e;
  }

  /** The bytes of a packed name, field by field: the kept characters as capitals, then spaces. */
  lemma PackedBytes(name: seq<byte>, i: nat)
    requires ShortName(name).Some? && i < 11
    ensures var b := ShortName(name).value[i];
            var field, k := if i < 8 then Base(name) else Ext(name), if i < 8 then i else i - 8;
            !(97 <= b <= 122) && if k < |field| then SameLetter(b, field[k]) else b == SPACE
  {
    hide LastDot;
    SameCapitals(Base(name), Base(name));
    SameCapitals(Ext(name), Ext(name));
    hide Uppercase;
  }

  /** Names that differ in letter case at most are split at the same place. */
  lemma SameSplit(a: seq<byte>, b: seq<byte>)
    requires SameLetters(a, b)
    ensures LastDot(a) == LastDot(b) && SameLetters(Base(a), Base(b)) && SameLetters(Ext(a), Ext(b))
  {
    hide LastDot;
    var x, y := LastDot(a), LastDot(b);
    assert x >= 0 ==> SameLetter(a[x], b[x]);
    assert y >= 0 ==> SameLetter(a[y], b[y]);
  }

  lemma SameSpaces(a: seq<byte>, b: seq<byte>, n: nat)
    requires SameLetters(a, b)
    ensures SPACE in Cut(a, n) <==> SPACE in Cut(b, n)
  {
    var x, y := Cut(a, n), Cut(b, n);
    assert forall i :: 0 <= i < |x| ==> SameLetter(x[i], y[i]);
    if SPACE in x {
      var i :| 0 <= i < |x| && x[i] == SPACE;
      assert y[i] == SPACE;
    }
    if SPACE in y {
      var i :| 0 <= i < |y| && y[i] == SPACE;
      assert x[i] == SPACE;
    }
  }

  /** Names that differ in letter case at most are packed alike. */
  lemma PackedAlike(a: seq<byte>, b: seq<byte>)
    requires SameLetters(a, b)
    ensures ShortName(a) == ShortName(b)
  {
    hide LastDot, Uppercase, Padded, Cut;
    SameSplit(a, b);
    SameSpaces(Base(a), Base(b), 8);
    SameSpaces(Ext(a), Ext(b), 3);
    SameCapitals(Base(a), Base(b));
    SameCapitals(Ext(a), Ext(b));
  }

  /** Names that fit are packed alike exactly when they differ in letter case at most. */
  lemma PackedAlikeExactly(a: CString, b: CString)
    requires FitsShort(a) && FitsShort(b) && ShortName(a).Some? && ShortName(b).Some?
    ensures ShortName(a) == ShortName(b) <==> SameLetters(a, b)
  {
    hide ShortName, ReaderName, RemoverName, Uppercase, FitsShort, Decoded;
    if SameLetters(a, b) {
      PackedAlike(a, b);
    }
    if ShortName(a) == ShortName(b) {
      var e: Slot := ShortName(a).value + Zeros(21);
      assert e[..11] == ShortName(a).value;
      PackedDecodes(a, e);
      PackedDecodes(b, e);
      DecodedExact(a);
      DecodedExact(b);
      SameCapitals(a, b);
    }
  }

  lemma {:induction false} UpperUpTo(s: seq<byte>)
    ensures UpTo(Uppercase(s), DOT) == Uppercase(UpTo(s, DOT))
  {
    if s != [] && s[0] != DOT {
      UpperUpTo(s[1..]);
      assert Uppercase(s)[1..] == Uppercase(s[1..]);
      UpperConcat([s[0]], UpTo(s[1..], DOT));
      assert Uppercase([s[0]]) == [Upper(s[0])];
    }
  }

  // --- Decimal cluster numbers -------------------------------------------------------------

  function Decimal(n: nat): (r: seq<byte>)
    ensures |r| > 0 && forall i :: 0 <= i < |r| ==> 48 <= r[i] <= 57
  {
    if n < 10 then [48 + n] else Decimal(n / 10) + [48 + n % 10]
  }

  /** Leading digits of a string, accumulated. */
  function DigitsValue(s: seq<byte>, acc: nat): (r: nat)
    decreases |s|
  {
    if s == [] || !(48 <= s[0] <= 57) then acc else DigitsValue(s[1..], acc * 10 + (s[0] as int - 48))
  }

  function SkipBlanks(s: seq<byte>): (r: seq<byte>) {
    if s != [] && (s[0] == SPACE || 9 <= s[0] <= 13) then SkipBlanks(s[1..]) else s
  }

  /** `atoi` taken as an unsigned 32-bit number. */
  function ParseCluster(s: seq<byte>): (r: nat) {
    var t := SkipBlanks(s);
    var v: int := if t != [] && t[0] == 45 then 0 - DigitsValue(t[1..], 0)
             else if t != [] && t[0] == 43 then DigitsValue(t[1..], 0)
             else DigitsValue(t, 0);
    v % TWO32
  }

  lemma {:induction false} DigitsAppend(s: seq<byte>, d: byte, acc: nat)
    requires (forall i :: 0 <= i < |s| ==> 48 <= s[i] <= 57) && 48 <= d <= 57
    ensures DigitsValue(s + [d], acc) == DigitsValue(s, acc) * 10 + (d as int - 48)
    decreases |s|
  {
    if s == [] {
      assert ([d] + [])[1..] == [];
      assert s + [d] == [d];
    } else {
      assert (s + [d])[1..] == s[1..] + [d];
      DigitsAppend(s[1..], d, acc * 10 + (s[0] as int - 48));
    }
  }

  lemma {:induction false} DecimalDigits(n: nat)
    ensures DigitsValue(Decimal(n), 0) == n
  {
    if n < 10 {
      assert Decimal(n)[1..] == [];
    } else {
      DecimalDigits(n / 10);
      DigitsAppend(Decimal(n / 10), 48 + n % 10, 0);
    }
  }

  /** Printing a cluster number and parsing it back is the identity on 32-bit numbers. */
  lemma ParseDecimal(c: nat)
    requires c < TWO32
    ensures ParseCluster(Decimal(c)) == c
  {
    DecimalDigits(c);
  }

  /** The digits, last one first. */
  method DigitsBackwards(c: nat) returns (rev: seq<byte>)
    requires c > 0
    ensures Reversed(rev) == Decimal(c)
  {
    hide Reversed;
    ReversedNothing();
    var rest: nat := c;
    rev := [];
    while rest > 0
      invariant rest == 0 ==> Decimal(c) == Reversed(rev)
      invariant rest > 0 ==> Decimal(c) == Decimal(rest) + Reversed(rev)
    {
      rev := rev + [48 + rest % 10];
      ReversedLast(rev);
      assert rest >= 10 ==> Decimal(rest) == Decimal(rest / 10) + [48 + rest % 10];
      rest := rest / 10;
    }
  }

  /** Print by collecting digits backwards and reversing them. */
  method PrintDecimal(c: nat) returns (s: seq<byte>)
    ensures s == Decimal(c)
  {
    if c == 0 {
      return [48];
    }
    hide Decimal, Reversed;
    var rev := DigitsBackwards(c);
    s := [];
    var i := |rev|;
    assert rev[..i] == rev;
    while i > 0
      invariant 0 <= i <= |rev|
      invariant s + Reversed(rev[..i]) == Reversed(rev)
    {
      assert rev[..i][..i - 1] == rev[..i - 1];
      ReversedLast(rev[..i]);
      i := i - 1;
      s := s + [rev[i]];
    }
    ReversedNothing();
    assert rev[..0] == [] && s + [] == s;
  }

  lemma ReversedNothing()
    ensures Reversed<byte>([]) == []
  {
  }
}
