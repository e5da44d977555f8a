/** HanaFS paths: the buffers in which a request is stripped of its drive, normalised and qualified,
    and which requests name the same entry. */
module HanaPath {
  import opened Bytes

  const SLASH: byte := 47
  const COLON: byte := 58
  const ZERO: byte := 48
  const MAX_PATH: nat := 511

  predicate HasDrive(p: CString) {
    |p| >= 2 && ZERO <= p[0] <= ZERO + 9 && p[1] == COLON
  }

  /** Drive number of a request, -1 when it has none. */
  function DriveOf(p: CString): (d: int)
    ensures -1 <= d <= 9
  {
    if HasDrive(p) then (p[0] as int) - ZERO else -1
  }

  function WithoutDrive(p: CString): (r: CString) {
    if HasDrive(p) then p[2..] else p
  }

  predicate IsRooted(p: seq<byte>) {
    p != [] && p[0] == SLASH
  }

  function Rooted(p: CString): (r: CString)
    ensures IsRooted(r)
  {
    if IsRooted(p) then p else [SLASH] + p
  }

  /** Without trailing slashes, except that the root stays. */
  function Trimmed(p: CString): (r: CString)
    ensures r <= p && (p != [] ==> r != [])
    ensures |r| > 1 ==> r[|r| - 1] != SLASH
    ensures forall i :: |r| <= i < |p| ==> p[i] == SLASH
  {
    if |p| > 1 && p[|p| - 1] == SLASH then Trimmed(p[..|p| - 1]) else p
  }

  function Normalize(p: CString): (r: CString)
    ensures IsRooted(r)
  {
    Trimmed(Rooted(p))
  }

  function DrivePrefix(d: int): (r: CString)
    requires 0 <= d <= 9
    ensures |r| == 5 && IsRooted(r) && r[4] == ZERO + d
  {
    [SLASH, 100, 114, 118, ZERO + d]
  }

  function Prefix(p: CString): (r: CString) {
    if HasDrive(p) then DrivePrefix(DriveOf(p)) else []
  }

  /** The normalised path inside its drive's namespace. */
  function Qualified(p: CString): (r: CString) {
    Prefix(p) + Normalize(WithoutDrive(p))
  }

  /** Path under which an entry is stored: a 512-byte buffer cuts it off. */
  function Internal(p: CString): (r: CString)
    ensures |r| <= MAX_PATH && IsRooted(r)
  {
    Cut(Qualified(p), MAX_PATH)
  }

  lemma {:induction false} TrimmedFixed(p: CString)
    requires |p| <= 1 || p[|p| - 1] != SLASH
    ensures Trimmed(p) == p
  {
  }

  /** Normalising is idempotent. */
  lemma NormalizeIdempotent(p: CString)
    ensures Normalize(Normalize(p)) == Normalize(p)
  {
    TrimmedFixed(Normalize(p));
  }

  function Slashes(n: nat): (r: CString) {
    seq(n, _ => SLASH)
  }

  lemma {:induction false} TrimSlashes(p: CString, n: nat)
    requires p != [] && (|p| == 1 || p[|p| - 1] != SLASH)
    ensures Trimmed(p + Slashes(n)) == p
  {
    var s := p + Slashes(n);
    if n == 0 {
      assert s == p;
    } else {
      assert s[..|s| - 1] == p + Slashes(n - 1);
      TrimSlashes(p, n - 1);
    }
  }

  /** All spellings of a path, with and without a leading slash and with any number behind it, have one normal
      form; slashes alone are the root. */
  lemma Spellings(p: CString, n: nat)
    requires p != [] && p[0] != SLASH && p[|p| - 1] != SLASH
    ensures Normalize(p + Slashes(n)) == [SLASH] + p == Normalize([SLASH] + p + Slashes(n))
    ensures Normalize(Slashes(n)) == [SLASH]
  {
    var r: CString := [SLASH] + p;
    var k := if n == 0 then 0 else n - 1;
    assert Rooted(p + Slashes(n)) == r + Slashes(n) == Rooted(r + Slashes(n)) by {
      assert [SLASH] + (p + Slashes(n)) == r + Slashes(n);
    }
    assert Rooted(Slashes(n)) == [SLASH] + Slashes(k);
    hide Trimmed, Rooted, Slashes;
    TrimSlashes(r, n);
    TrimSlashes([SLASH], k);
  }

  /** A path that is already rooted and does not end in a slash is stored as it is. */
  lemma InternalFixed(p: CString)
    requires IsRooted(p) && |p| <= MAX_PATH && (|p| == 1 || p[|p| - 1] != SLASH)
    ensures Internal(p) == p && !HasDrive(p)
  {
    TrimmedFixed(p);
  }

  /** The part of a normalised path that is kept behind the namespace of a drive. */
  const KEPT: nat := MAX_PATH - 5

  /** A plain request `a` spells out the namespace of the drive that request `b` gives, and goes on like
      it as far as paths are kept. */
  predicate Shadows(a: CString, b: CString) {
    && !HasDrive(a) && HasDrive(b)
    && Cut(Normalize(a), MAX_PATH) == DrivePrefix(DriveOf(b)) + Cut(Normalize(WithoutDrive(b)), KEPT)
  }

  lemma SamePrefixed(d: int, x: CString, e: int, y: CString)
    requires 0 <= d <= 9 && 0 <= e <= 9
    ensures DrivePrefix(d) + x == DrivePrefix(e) + y <==> d == e && x == y
  {
    var a, b := DrivePrefix(d) + x, DrivePrefix(e) + y;
    assert a[4] == ZERO + d && b[4] == ZERO + e && a[5..] == x && b[5..] == y;
  }

  /** The stored path: the namespace of the drive, if there is one, and what is kept of the normal form. */
  lemma InternalParts(p: CString)
    ensures Internal(p) == if HasDrive(p) then DrivePrefix(DriveOf(p)) + Cut(Normalize(WithoutDrive(p)), KEPT)
                           else Cut(Normalize(p), MAX_PATH)
  {
    var x := Normalize(WithoutDrive(p));
    assert !HasDrive(p) ==> Qualified(p) == x;
    hide Normalize;
  }

  /** A request that does not start with a digit and a colon has no drive and is stored under what is kept of
      its normal form. */
  lemma PlainRequest(p: CString)
    requires forall d: byte :: 48 <= d <= 57 ==> !([d, 58] <= p)
    ensures DriveOf(p) == -1 && Internal(p) == Cut(Normalize(p), 511)
  {
    assert |p| >= 2 ==> [p[0], p[1]] <= p;
    InternalParts(p);
  }

  /** Which requests name the same entry, for all requests: those for the same drive or both for none
      whose normal forms agree as far as they are kept, and plain requests that spell out the other's
      namespace. */
  lemma SameEntry(p: CString, q: CString)
    ensures Internal(p) == Internal(q) <==>
            || (&& DriveOf(p) == DriveOf(q)
                && var kept := if HasDrive(p) then KEPT else MAX_PATH;
                Cut(Normalize(WithoutDrive(p)), kept) == Cut(Normalize(WithoutDrive(q)), kept))
            || Shadows(p, q) || Shadows(q, p)
  {
    InternalParts(p);
    InternalParts(q);
    hide Internal, Normalize, DrivePrefix, Cut;
    if HasDrive(p) && HasDrive(q) {
      SamePrefixed(DriveOf(p), Cut(Normalize(WithoutDrive(p)), KEPT), DriveOf(q), Cut(Normalize(WithoutDrive(q)), KEPT));
    }
  }

  /** For every drive and path, the request "N:path" and the plain request "/drvN" with the normal form of the
      path behind it are one entry, exactly unless the path is the root: only there a slash is cut off. */
  lemma DriveSyntaxCollides(d: nat, q: CString)
    requires d <= 9
    ensures var p: CString, r: CString := [48 + d, 58] + q, [47, 100, 114, 118, 48 + d] + Normalize(q);
            DriveOf(p) == d && DriveOf(r) == -1 && (Internal(p) == Internal(r) <==> Normalize(q) != [SLASH])
  {
    var p: CString, r: CString := [48 + d, 58] + q, [47, 100, 114, 118, 48 + d] + Normalize(q);
    assert WithoutDrive(p) == q && Qualified(p) == r;
    NormalEnd(q);
    PlainStored([47, 100, 114, 118, 48 + d], Normalize(q));
    hide Normalize, Trimmed, Rooted;
    assert WithoutDrive(r) == r && Prefix(r) == [];
    assert Qualified(r) == Normalize(r);
  }

  /** A rooted path with a normal form behind it is normal, unless that is the root. */
  lemma PlainStored(lead: CString, q: CString)
    requires IsRooted(lead) && |lead| > 1 && lead[|lead| - 1] != SLASH && q != [] && (q == [SLASH] || q[|q| - 1] != SLASH)
    ensures Normalize(lead + q) == if q == [SLASH] then lead else lead + q
  {
    var r := lead + q;
    assert r[0] == lead[0];
    if q == [SLASH] {
      assert r == lead + Slashes(1);
      TrimSlashes(lead, 1);
    } else {
      assert r[|r| - 1] == q[|q| - 1];
      TrimmedFixed(r);
    }
  }

  lemma NormalEnd(q: CString)
    ensures Normalize(q) == [SLASH] || Normalize(q)[|Normalize(q)| - 1] != SLASH
  {
  }

  /** Long requests that agree on what is kept are one entry. */
  lemma LongPathsCollide(p: CString, a: CString, b: CString)
    requires IsRooted(p) && |p| == MAX_PATH && a != [] && b != []
    requires a[|a| - 1] != SLASH && b[|b| - 1] != SLASH
    ensures Internal(p + a) == p == Internal(p + b)
  {
    forall x: CString | x != [] && x[|x| - 1] != SLASH
      ensures Internal(p + x) == p
    {
      TrimmedFixed(p + x);
      assert Qualified(p + x) == p + x;
    }
  }

  // --- The buffers ----------------------------------------------------------------------------

  /** The buffer holds the string and its terminating NUL. */
  ghost predicate Spells(buf: seq<byte>, s: CString) {
    |s| < |buf| && buf[..|s|] == s && buf[|s|] == 0
  }

  method Strlen(buf: array<byte>, ghost s: CString) returns (n: nat)
    requires Spells(buf[..], s)
    ensures n == |s|
  {
    forall k | 0 <= k < |s|
      ensures buf[k] != 0
    {
      assert buf[k] == buf[..][..|s|][k] && s[k] in s;
    }
    n := 0;
    while buf[n] != 0
      invariant n <= |s|
      decreases |s| - n
    {
      assert n < |s|;
      n := n + 1;
    }
  }

  /** Gives the path a leading slash, if there is room for one, and drops trailing ones. */
  method NormalizeInPlace(buf: array<byte>, ghost s: CString)
    requires Spells(buf[..], s)
    modifies buf
    ensures if IsRooted(s) || |s| + 1 < buf.Length then Spells(buf[..], Normalize(s)) else buf[..] == old(buf[..])
  {
    if buf[0] != SLASH {
      assert !IsRooted(s) by {
        assert s != [] ==> s[0] == buf[..][..|s|][0];
      }
      var l := Strlen(buf, s);
      if l + 1 >= buf.Length {
        return;
      }
      ShiftRight(buf, l, s);
    } else {
      assert IsRooted(s) by {
        assert s != [] ==> s[0] == buf[..][..|s|][0];
      }
    }
    DropSlashes(buf, Rooted(s));
  }

  method ShiftRight(buf: array<byte>, l: nat, ghost s: CString)
    requires Spells(buf[..], s) && l == |s| && |s| + 1 < buf.Length
    modifies buf
    ensures Spells(buf[..], [SLASH] + s)
  {
    ghost var was := buf[..];
    var i := l + 1;
    while i > 0
      invariant 0 <= i <= |s| + 1 < buf.Length && |was| == buf.Length
      invariant forall k :: 0 <= k <= i ==> buf[k] == was[k]
      invariant forall k :: i < k <= |s| + 1 ==> buf[k] == was[k - 1]
    {
      buf[i] := buf[i - 1];
      i := i - 1;
    }
    buf[0] := SLASH;
    assert buf[..][..|s| + 1] == [SLASH] + s;
  }

  method DropSlashes(buf: array<byte>, ghost s: CString)
    requires Spells(buf[..], s) && s != []
    modifies buf
    ensures Spells(buf[..], Trimmed(s))
  {
    var l := Strlen(buf, s);
    while l > 1 && buf[l - 1] == SLASH
      invariant 1 <= l <= |s| && Spells(buf[..], s[..l])
      invariant Trimmed(s) == Trimmed(s[..l])
      decreases l
    {
      assert s[l - 1] == buf[..][..l][l - 1];
      assert s[..l][..l - 1] == s[..l - 1];
      ghost var was := buf[..];
      buf[l - 1] := 0;
      assert buf[..][..l - 1] == was[..l][..l - 1];
      l := l - 1;
    }
    assert s[l - 1] == buf[..][..l][l - 1];
  }

  /** Strips a drive prefix and returns its number. */
  method ParseDrivePrefix(buf: array<byte>, ghost s: CString) returns (drive: int)
    requires Spells(buf[..], s)
    modifies buf
    ensures drive == DriveOf(s) && Spells(buf[..], WithoutDrive(s))
  {
    assert forall k :: 0 <= k < |s| ==> s[k] == buf[..][..|s|][k];
    if buf.Length < 3 {
      return -1;
    }
    if ZERO <= buf[0] <= ZERO + 9 && buf[1] == COLON {
      drive := (buf[0] as int) - ZERO;
      var l := Strlen(buf, s);
      ghost var was := buf[..];
      var i := 0;
      while i + 2 <= l
        invariant i + 1 <= l
        invariant forall k :: 0 <= k < i ==> buf[k] == was[k + 2]
        invariant forall k :: i <= k < |was| ==> buf[k] == was[k]
      {
        buf[i] := buf[i + 2];
        i := i + 1;
      }
      buf[i] := 0;
      assert buf[..][..l - 2] == s[2..];
      return;
    }
    return -1;
  }

  /** Copies what fits of the path behind the first `pos` bytes. */
  method AppendPath(path: array<byte>, out: array<byte>, pos: nat, ghost s: CString)
    requires Spells(path[..], s) && out != path && out.Length == MAX_PATH + 1 && pos <= 5 && 0 !in out[..pos]
    modifies out
    ensures Spells(out[..], Cut(old(out[..pos]) + s, MAX_PATH))
  {
    ghost var whole := out[..pos] + s;
    assert forall k :: 0 <= k < |s| ==> s[k] == path[..][..|s|][k] && s[k] != 0;
    var i := 0;
    while pos + i + 1 < out.Length && path[i] != 0
      invariant i <= |s| && pos + i <= MAX_PATH
      invariant forall k :: 0 <= k < pos + i ==> out[k] == whole[k]
      decreases out.Length - i
    {
      out[pos + i] := path[i];
      i := i + 1;
    }
    out[pos + i] := 0;
    assert |Cut(whole, MAX_PATH)| == pos + i;
    assert out[..][..pos + i] == Cut(whole, MAX_PATH);
  }

  /** Writes what fits of the drive prefix and the path. */
  method BuildInternalPath(path: array<byte>, drive: int, out: array<byte>, ghost s: CString)
    requires Spells(path[..], s) && IsRooted(s) && -1 <= drive <= 9 && out != path && out.Length == MAX_PATH + 1
    modifies out
    ensures Spells(out[..], Cut(if drive < 0 then s else DrivePrefix(drive) + s, MAX_PATH))
  {
    hide Spells, Cut;
    if drive < 0 {
      assert out[..0] + s == s;
      AppendPath(path, out, 0, s);
      return;
    }
    out[0], out[1], out[2], out[3], out[4] := SLASH, 100, 114, 118, ZERO + drive;
    assert out[..5] == DrivePrefix(drive);
    AppendPath(path, out, 5, s);
  }

  method NewBuffer(path: CString) returns (buf: array<byte>)
    ensures fresh(buf) && buf.Length == |path| + 2 && Spells(buf[..], path)
  {
    buf := new byte[|path| + 2](i => if 0 <= i < |path| then path[i] else 0);
    assert buf[..][..|path|] == path;
  }

  method StringIn(buf: array<byte>, ghost s: CString) returns (r: CString)
    requires Spells(buf[..], s)
    ensures r == s
  {
    var n := Strlen(buf, s);
    assert buf[..n] == buf[..][..n];
    r := buf[..n];
  }

  lemma ResolveParts(path: CString)
    ensures |WithoutDrive(path)| <= |path| && -1 <= DriveOf(path) <= 9
    ensures var rest, drive := WithoutDrive(path), DriveOf(path);
            Internal(path) == Cut(if drive < 0 then Normalize(rest) else DrivePrefix(drive) + Normalize(rest), MAX_PATH)
  {
    hide Normalize, Cut, DrivePrefix;
  }

  /** What every operation does first: the stored path, the normalised path and the drive. */
  method Resolve(path: CString) returns (ipath: CString, plain: CString, drive: int)
    ensures ipath == Internal(path) && plain == Normalize(WithoutDrive(path)) && drive == DriveOf(path)
  {
    hide Spells, Internal, Qualified, WithoutDrive, Normalize, HasDrive, DriveOf, DrivePrefix, Cut;
    ghost var rest := WithoutDrive(path);
    ResolveParts(path);
    var pbuf := NewBuffer(path);
    drive := ParseDrivePrefix(pbuf, path);
    NormalizeInPlace(pbuf, rest);
    var out := new byte[MAX_PATH + 1];
    BuildInternalPath(pbuf, drive, out, Normalize(rest));
    ipath := StringIn(out, Internal(path));
    plain := StringIn(pbuf, Normalize(rest));
  }
}
