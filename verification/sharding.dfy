/** The on-disk layout of the blob store: a hex digest `d` is stored under
    `basepath/d[0:2]/d[2:4]/d[4:6]` in a file named `d[6:]`. */
module Sharding {

  predicate IsHexChar(c: char) {
    '0' <= c <= '9' || 'a' <= c <= 'f'
  }

  /** Every character is a lowercase hex digit. */
  predicate AllHex(s: string) {
    s == [] || (IsHexChar(s[0]) && AllHex(s[1..]))
  }

  lemma {:induction false} AllHexAt(s: string, i: nat)
    requires AllHex(s) && i < |s|
    ensures IsHexChar(s[i])
  {
    if i > 0 {
      AllHexAt(s[1..], i - 1);
    }
  }

  /** What `hexdigest()` of a SHA-256 accumulator returns. */
  predicate IsHexDigest(s: string) {
    |s| == 64 && AllHex(s)
  }

  /** `n` zero digits: the digest of nothing in particular. */
  function Zeros(n: nat): (s: string)
    ensures |s| == n && AllHex(s)
  {
    if n == 0 then "" else "0" + Zeros(n - 1)
  }

  type HexDigest = s: string | IsHexDigest(s)
    witness Zeros(64)

  /** Python's `s[lo:hi]` for non-negative bounds: both ends are clipped to the string. */
  function Slice(s: string, lo: nat, hi: nat): (r: string)
    ensures |r| <= |s|
    ensures lo <= hi <= |s| ==> r == s[lo..hi]
    ensures |s| <= lo ==> r == ""
  {
    var a := if lo < |s| then lo else |s|;
    var b := if hi < |s| then hi else |s|;
    if b <= a then "" else s[a..b]
  }

  /** `os.path.join(a, b)` on POSIX: an absolute `b` replaces `a`; otherwise a
      separator is inserted unless `a` is empty or already ends in one. */
  function Join(a: string, b: string): string {
    if |b| > 0 && b[0] == '/' then b
    else if a == "" || a[|a| - 1] == '/' then a + b
    else a + "/" + b
  }

  /** `os.path.join(path, *parts)`: the components joined from left to right. */
  function JoinPath(path: string, parts: seq<string>): string
    decreases |parts|
  {
    if parts == [] then path else JoinPath(Join(path, parts[0]), parts[1..])
  }

  /** `File.getpath`: the three shard directories under `basepath`. */
  function ShardDir(basepath: string, hashstring: string): string {
    JoinPath(basepath, [Slice(hashstring, 0, 2), Slice(hashstring, 2, 4), Slice(hashstring, 4, 6)])
  }

  /** `File.getfilename`: the digest without its first six characters. */
  function LeafName(hashstring: string): string {
    Slice(hashstring, 6, |hashstring|)
  }

  /** The file a record points at: `os.path.join(getpath(), getfilename())`. */
  function FullName(basepath: string, hashstring: string): string {
    JoinPath(ShardDir(basepath, hashstring), [LeafName(hashstring)])
  }

  /** The directory prefix `os.path.join` puts in front of a relative component. */
  function Root(basepath: string): string {
    if basepath == "" || basepath[|basepath| - 1] == '/' then basepath else basepath + "/"
  }

  /** The part of the shard directory that comes from a digest. */
  function ShardTail(d: HexDigest): string {
    d[0..2] + "/" + d[2..4] + "/" + d[4..6]
  }

  /** The part of the stored file's name that comes from a digest. */
  function FileTail(d: HexDigest): string {
    ShardTail(d) + "/" + d[6..]
  }

  /** The three shard segments followed by the leaf name give back the hash
      string, whatever its length. */
  lemma SegmentsReconstruct(h: string)
    ensures Slice(h, 0, 2) + Slice(h, 2, 4) + Slice(h, 4, 6) + LeafName(h) == h
  {
    if |h| >= 6 {
      assert h == h[0..2] + h[2..4] + h[4..6] + h[6..];
    } else if |h| >= 4 {
      assert h == h[0..2] + h[2..4] + h[4..];
    } else if |h| >= 2 {
      assert h == h[0..2] + h[2..];
    }
  }

  /** Joining a relative, non-empty component appends it to the root. */
  lemma JoinRelative(a: string, b: string)
    requires |b| > 0 && b[0] != '/'
    ensures Join(a, b) == Root(a) + b
  {
  }

  /** A path that does not end in a separator gets one from `Root`. */
  lemma RootAfterSegment(r: string, b: string)
    requires |b| > 0 && b[|b| - 1] != '/'
    ensures Root(r + b) == r + b + "/"
  {
    assert (r + b)[|r + b| - 1] == b[|b| - 1];
  }

  /** No character of a digest is a separator. */
  lemma NoSeparator(d: HexDigest, i: nat)
    requires i < 64
    ensures d[i] != '/'
  {
    AllHexAt(d, i);
  }

  /** For a digest, the shard directory is the root of `basepath` followed by
      the digest cut at 2, 4 and 6, with separators. */
  lemma ShardLayout(basepath: string, d: HexDigest)
    ensures ShardDir(basepath, d) == Root(basepath) + ShardTail(d)
  {
    var r, s0, s1, s2 := Root(basepath), d[0..2], d[2..4], d[4..6];
    NoSeparator(d, 0); NoSeparator(d, 1); NoSeparator(d, 2);
    NoSeparator(d, 3); NoSeparator(d, 4); NoSeparator(d, 5);
    JoinRelative(basepath, s0);
    var p1 := r + s0;
    RootAfterSegment(r, s0);
    JoinRelative(p1, s1);
    var p2 := p1 + "/" + s1;
    RootAfterSegment(p1 + "/", s1);
    JoinRelative(p2, s2);
    var p3 := p2 + "/" + s2;
    calc {
      ShardDir(basepath, d);
      JoinPath(basepath, [s0, s1, s2]);
      { assert [s0, s1, s2][1..] == [s1, s2]; }
      JoinPath(p1, [s1, s2]);
      { assert [s1, s2][1..] == [s2]; }
      JoinPath(p2, [s2]);
      { assert [s2][1..] == []; }
      JoinPath(p3, []);
    }
  }

  /** For a digest, the stored file is the root of `basepath` followed by the
      shard tail, a separator and the digest from its seventh character on. */
  lemma DigestLayout(basepath: string, d: HexDigest)
    ensures ShardDir(basepath, d) == Root(basepath) + ShardTail(d)
    ensures LeafName(d) == d[6..]
    ensures FullName(basepath, d) == Root(basepath) + FileTail(d)
  {
    ShardLayout(basepath, d);
    var dir := ShardDir(basepath, d);
    NoSeparator(d, 5);
    NoSeparator(d, 6);
    var prefix := Root(basepath) + d[0..2] + "/" + d[2..4] + "/";
    assert dir == prefix + d[4..6];
    RootAfterSegment(prefix, d[4..6]);
    JoinRelative(dir, d[6..]);
    assert |d| == 64 && LeafName(d) == d[6..];
    assert [d[6..]][1..] == [];
    assert FullName(basepath, d) == JoinPath(Join(dir, d[6..]), []);
    assert dir + "/" + d[6..] == Root(basepath) + FileTail(d);
  }

  /** Equal concatenations with equally long tails have equal parts. */
  lemma CancelConcat(r1: string, t1: string, r2: string, t2: string)
    requires r1 + t1 == r2 + t2 && |t1| == |t2|
    ensures r1 == r2 && t1 == t2
  {
    var n := |r1 + t1|;
    assert r1 == (r1 + t1)[..|r1|] && r2 == (r2 + t2)[..|r2|];
    assert t1 == (r1 + t1)[|r1|..] && t2 == (r2 + t2)[|r2|..];
  }

  /** The digest can be read back from the file tail, character by character. */
  lemma FileTailAt(d: HexDigest, i: nat)
    requires i < 64
    ensures |FileTail(d)| == 67
    ensures FileTail(d)[if i < 2 then i else if i < 4 then i + 1 else if i < 6 then i + 2 else i + 3] == d[i]
  {
  }

  /** Two digests share a storage slot only if they are the same digest and
      the base paths have the same root; the converse holds too. */
  lemma FullNameEq(b1: string, d1: HexDigest, b2: string, d2: HexDigest)
    ensures FullName(b1, d1) == FullName(b2, d2) <==> (d1 == d2 && Root(b1) == Root(b2))
  {
    DigestLayout(b1, d1);
    DigestLayout(b2, d2);
    if FullName(b1, d1) == FullName(b2, d2) {
      FileTailAt(d1, 0);
      FileTailAt(d2, 0);
      CancelConcat(Root(b1), FileTail(d1), Root(b2), FileTail(d2));
      forall i | 0 <= i < 64 ensures d1[i] == d2[i] {
        FileTailAt(d1, i);
        FileTailAt(d2, i);
      }
    }
  }

  /** Within one base path, distinct digests never share a storage slot. */
  lemma SlotInjective(basepath: string, d1: HexDigest, d2: HexDigest)
    requires d1 != d2
    ensures FullName(basepath, d1) != FullName(basepath, d2)
  {
    FullNameEq(basepath, d1, basepath, d2);
  }

  /** The first six digest characters can be read back from the shard tail. */
  lemma ShardTailAt(d: HexDigest, i: nat)
    requires i < 6
    ensures |ShardTail(d)| == 8
    ensures ShardTail(d)[if i < 2 then i else if i < 4 then i + 1 else i + 2] == d[i]
  {
  }

  /** Digests that agree on six characters have the same shard tail. */
  lemma ShardTailOfPrefix(d1: HexDigest, d2: HexDigest)
    requires d1[..6] == d2[..6]
    ensures ShardTail(d1) == ShardTail(d2)
  {
    assert d1[0..2] == d1[..6][0..2] && d2[0..2] == d2[..6][0..2];
    assert d1[2..4] == d1[..6][2..4] && d2[2..4] == d2[..6][2..4];
    assert d1[4..6] == d1[..6][4..6] && d2[4..6] == d2[..6][4..6];
  }

  /** `getpath` depends on the first six digest characters and on the base
      path only up to a trailing separator: `a` and `a/` give the same directory. */
  lemma ShardDirEq(b1: string, d1: HexDigest, b2: string, d2: HexDigest)
    ensures ShardDir(b1, d1) == ShardDir(b2, d2) <==> (d1[..6] == d2[..6] && Root(b1) == Root(b2))
  {
    DigestLayout(b1, d1);
    DigestLayout(b2, d2);
    if ShardDir(b1, d1) == ShardDir(b2, d2) {
      ShardTailAt(d1, 0);
      ShardTailAt(d2, 0);
      CancelConcat(Root(b1), ShardTail(d1), Root(b2), ShardTail(d2));
      forall i | 0 <= i < 6 ensures d1[i] == d2[i] {
        ShardTailAt(d1, i);
        ShardTailAt(d2, i);
      }
    } else if d1[..6] == d2[..6] && Root(b1) == Root(b2) {
      ShardTailOfPrefix(d1, d2);
    }
  }
}
