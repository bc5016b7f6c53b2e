/** The content-addressed store behind `File`: `write` hashes the payload,
    files it under the digest's shard path, reuses an identical copy, and on a
    slot holding other bytes feeds one more '1' into the hash and tries again. */
module BlobStore {
  import opened Prelude
  import opened Sharding
  import Tracked

  /** SHA-256 followed by `hexdigest()`, left abstract. */
  type Hasher = seq<byte> -> HexDigest

  /** The byte `'1'.encode('utf-8')` that a collision appends to the hash input. */
  const MARKER: byte := 0x31

  /** The filesystem, as a map from full file names to their bytes. */
  type Files = map<string, seq<byte>>

  /** `k` collision markers. */
  function Markers(k: nat): (r: seq<byte>)
    ensures |r| == k
  {
    seq(k, _ => MARKER)
  }

  lemma MarkersSucc(data: seq<byte>, k: nat)
    ensures data + Markers(k) + [MARKER] == data + Markers(k + 1)
  {
    assert Markers(k) + [MARKER] == Markers(k + 1);
  }

  /** The digest of attempt `k`: everything fed to the accumulator so far is
      the payload followed by `k` markers. */
  function Attempt(hash: Hasher, data: seq<byte>, k: nat): HexDigest {
    hash(data + Markers(k))
  }

  /** The file that attempt `k` looks at. */
  function SlotOf(basepath: string, hash: Hasher, data: seq<byte>, k: nat): string {
    FullName(basepath, Attempt(hash, data, k))
  }

  /** The sequence of files the retry loop probes, attempt by attempt. */
  function Probe(basepath: string, hash: Hasher, data: seq<byte>): nat -> string {
    (k: nat) => SlotOf(basepath, hash, data, k)
  }

  /** Probe `k` is the file named by attempt `k`'s digest. */
  lemma ProbeAt(basepath: string, hash: Hasher, data: seq<byte>, k: nat)
    ensures Probe(basepath, hash, data)(k) == FullName(basepath, Attempt(hash, data, k))
  {
  }

  /** The first `n + 1` attempts yield pairwise distinct digests. */
  predicate DistinctAttempts(hash: Hasher, data: seq<byte>, n: nat) {
    forall i, j :: 0 <= i < j <= n ==> Attempt(hash, data, i) != Attempt(hash, data, j)
  }

  /** The first `n + 1` probes look at pairwise distinct files. */
  predicate DistinctProbes(probe: nat -> string, n: nat) {
    forall i, j :: 0 <= i < j <= n ==> probe(i) != probe(j)
  }

  /** Distinct digests are stored in distinct files. */
  lemma ProbesDistinct(basepath: string, hash: Hasher, data: seq<byte>, n: nat)
    requires DistinctAttempts(hash, data, n)
    ensures DistinctProbes(Probe(basepath, hash, data), n)
  {
    forall i, j | 0 <= i < j <= n ensures Probe(basepath, hash, data)(i) != Probe(basepath, hash, data)(j) {
      SlotInjective(basepath, Attempt(hash, data, i), Attempt(hash, data, j));
    }
  }

  /** Attempt `k` finds different bytes in its file and has to retry. */
  predicate Collides(files: Files, probe: nat -> string, data: seq<byte>, k: nat) {
    probe(k) in files && files[probe(k)] != data
  }

  /** Attempts `0` to `k - 1` all collided. */
  predicate CollidedBefore(files: Files, probe: nat -> string, data: seq<byte>, k: nat) {
    k == 0 || (CollidedBefore(files, probe, data, k - 1) && Collides(files, probe, data, k - 1))
  }

  lemma {:induction false} CollidedBeforeAll(files: Files, probe: nat -> string, data: seq<byte>, k: nat)
    ensures CollidedBefore(files, probe, data, k) <==> forall i :: 0 <= i < k ==> Collides(files, probe, data, i)
  {
    if k > 0 {
      CollidedBeforeAll(files, probe, data, k - 1);
    }
  }

  /** Attempt `k` is where `write` stops: every earlier attempt collided and
      this one finds its file missing or holding `data` itself. */
  predicate IsFinalAttempt(files: Files, probe: nat -> string, data: seq<byte>, k: nat) {
    !Collides(files, probe, data, k) && CollidedBefore(files, probe, data, k)
  }

  /** The files looked at by the first `k` attempts. */
  ghost function ProbedBefore(probe: nat -> string, k: nat): set<string> {
    set i | 0 <= i < k :: probe(i)
  }

  /** Distinct probes: `k` attempts look at `k` different files. */
  lemma {:induction false} ProbedBeforeSize(probe: nat -> string, k: nat, n: nat)
    requires k <= n + 1 && DistinctProbes(probe, n)
    ensures |ProbedBefore(probe, k)| == k
  {
    if k > 0 {
      ProbedBeforeSize(probe, k - 1, n);
      assert ProbedBefore(probe, k) == ProbedBefore(probe, k - 1) + {probe(k - 1)};
    }
  }

  lemma SubsetSize<T>(a: set<T>, b: set<T>)
    requires a <= b
    ensures |a| <= |b|
  {
    assert b == a + (b - a);
    assert a * (b - a) == {};
  }

  /** The retry loop is bounded: with distinct probes, at most `|files|`
      attempts can collide, since each collision is a distinct existing file. */
  lemma CollisionsBounded(files: Files, probe: nat -> string, data: seq<byte>, k: nat)
    requires DistinctProbes(probe, |files|)
    requires CollidedBefore(files, probe, data, k)
    ensures k <= |files|
  {
    CollidedBeforeAll(files, probe, data, k);
    if k > |files| {
      var m := |files| + 1;
      ProbedBeforeSize(probe, m, |files|);
      forall p | p in ProbedBefore(probe, m) ensures p in files.Keys {
        var i :| 0 <= i < m && probe(i) == p;
        assert Collides(files, probe, data, i);
      }
      SubsetSize(ProbedBefore(probe, m), files.Keys);
    }
  }

  /** There is exactly one final attempt. */
  lemma FinalAttemptUnique(files: Files, probe: nat -> string, data: seq<byte>, k1: nat, k2: nat)
    requires IsFinalAttempt(files, probe, data, k1)
    requires IsFinalAttempt(files, probe, data, k2)
    ensures k1 == k2
  {
    CollidedBeforeAll(files, probe, data, k1);
    CollidedBeforeAll(files, probe, data, k2);
  }

  /** Storing `data` in the final file leaves that attempt final: a second
      write of the same payload stops at the same digest. */
  lemma StoreKeepsFinal(files: Files, probe: nat -> string, data: seq<byte>, k: nat)
    requires IsFinalAttempt(files, probe, data, k)
    ensures IsFinalAttempt(files[probe(k) := data], probe, data, k)
  {
    var stored := files[probe(k) := data];
    CollidedBeforeAll(files, probe, data, k);
    CollidedBeforeAll(stored, probe, data, k);
    forall i | 0 <= i < k ensures Collides(stored, probe, data, i) {
      assert Collides(files, probe, data, i);
    }
  }

  /** What the final attempt does to the filesystem: on a duplicate nothing
      changes, no existing file is ever overwritten, and the final file ends
      up holding the payload. */
  lemma StoreOutcome(files: Files, probe: nat -> string, data: seq<byte>, k: nat)
    requires IsFinalAttempt(files, probe, data, k)
    ensures var after := files[probe(k) := data];
      && (probe(k) in files ==> after == files)
      && (forall p :: p in files ==> p in after && after[p] == files[p])
      && after.Keys == files.Keys + {probe(k)} && after[probe(k)] == data
  {
  }

  /** The filesystem the store writes into. */
  class Disk {
    var files: Files

    constructor (files: Files)
      ensures this.files == files
    {
      this.files := files;
    }
  }

  /** A stored-file record: the declared type, the digest that names the
      content, the derived location and the tracked lifecycle fields. */
  class File {
    var filetype: string
    var hashstring: string
    var basepath: string
    var filepath: string
    var filename: string
    var addedby: UserId
    var addeddate: Time
    var iscurrent: bool
    var removedby: Option<UserId>
    var removeddate: Option<Time>
    var modifieddate: Time

    /** A new record with the field defaults: empty digest and location, current. */
    constructor (filetype: string, basepath: string, addedby: UserId, now: Time)
      ensures this.filetype == filetype && this.basepath == basepath
      ensures hashstring == "" && filepath == "" && filename == ""
      ensures Meta() == Tracked.Created(addedby, now, now)
    {
      this.filetype := filetype;
      this.basepath := basepath;
      hashstring, filepath, filename := "", "", "";
      this.addedby, addeddate, iscurrent := addedby, now, true;
      removedby, removeddate, modifieddate := None, None, now;
    }

    /** The tracked lifecycle fields as one value. */
    function Meta(): Tracked.Tracking
      reads this
    {
      Tracked.Tracking(addedby, addeddate, iscurrent, removedby, removeddate, modifieddate)
    }

    /** `getpath`: a pure function of `basepath` and `hashstring`. */
    function GetPath(): string
      reads this
    {
      ShardDir(basepath, hashstring)
    }

    /** `getfilename`: a pure function of `hashstring`. */
    function GetFileName(): string
      reads this
    {
      LeafName(hashstring)
    }

    /** `read`: the bytes at the location recomputed from `hashstring`, or
        `None` when no file is there (the open raises). The cached `filepath`
        and `filename` fields play no part. */
    function Read(disk: Disk): (r: Option<seq<byte>>)
      reads this, disk
      ensures r.Some? <==> FullName(basepath, hashstring) in disk.files
      ensures r.Some? ==> r.value == disk.files[FullName(basepath, hashstring)]
    {
      var fullname := FullName(basepath, hashstring);  // join(getpath(), getfilename())
      if fullname in disk.files then Some(disk.files[fullname]) else None
    }

    /** `update`: sets the passed lifecycle fields and stamps `modifieddate`. */
    method Update(c: Tracked.Changes, now: Time)
      modifies this
      ensures Meta() == Tracked.Update(old(Meta()), c, now)
      ensures filetype == old(filetype) && hashstring == old(hashstring) && basepath == old(basepath)
      ensures filepath == old(filepath) && filename == old(filename)
    {
      var t := Tracked.Update(Meta(), c, now);
      addedby, addeddate, iscurrent := t.addedby, t.addeddate, t.iscurrent;
      removedby, removeddate, modifieddate := t.removedby, t.removeddate, t.modifieddate;
    }

    /** The head of `write`'s loop: records the digest and the location it
        derives, and names the file to look at. */
    method Locate(digest: HexDigest) returns (fullname: string)
      modifies this`hashstring, this`filepath, this`filename
      ensures hashstring == digest && filepath == GetPath() && filename == GetFileName()
      ensures fullname == FullName(basepath, digest)
    {
      hashstring := digest;
      filepath := GetPath();
      filename := GetFileName();
      fullname := JoinPath(filepath, [filename]);
    }

    /** `write`: stores `data` under the first attempt digest whose slot is
        empty (fresh write) or already holds `data` (duplicate); a slot with
        other bytes is never touched. */
    method Write(data: seq<byte>, hash: Hasher, disk: Disk) returns (ok: bool, ghost attempts: nat)
      requires DistinctAttempts(hash, data, |disk.files|)
      modifies this`hashstring, this`filepath, this`filename, this`iscurrent, disk
      ensures ok
      ensures attempts <= |old(disk.files)|
      ensures IsFinalAttempt(old(disk.files), Probe(basepath, hash, data), data, attempts)
      ensures hashstring == Attempt(hash, data, attempts)
      ensures filepath == GetPath() && filename == GetFileName()
      ensures disk.files == old(disk.files)[FullName(basepath, hashstring) := data]
      ensures iscurrent
      ensures Read(disk) == Some(data)
    {
      ghost var probe := Probe(basepath, hash, data);
      ProbesDistinct(basepath, hash, data, |disk.files|);
      var acc := data;
      var fullname;
      attempts := 0;
      while true
        invariant acc == data + Markers(attempts)
        invariant disk.files == old(disk.files)
        invariant CollidedBefore(disk.files, probe, data, attempts)
        invariant attempts <= |disk.files|
        decreases |disk.files| - attempts
      {
        fullname := Locate(hash(acc));
        assert hashstring == Attempt(hash, data, attempts);
        ProbeAt(basepath, hash, data, attempts);
        assert fullname == probe(attempts);
        if fullname !in disk.files || disk.files[fullname] == data {
          break;
        }
        // a collision: other bytes already live in this slot
        MarkersSucc(data, attempts);
        acc := acc + [MARKER];
        CollisionsBounded(disk.files, probe, data, attempts + 1);
        attempts := attempts + 1;
      }
      assert IsFinalAttempt(disk.files, probe, data, attempts);
      if fullname in disk.files {
        // a duplicate: keep the existing copy
        assert disk.files[fullname := data] == disk.files;
      } else {
        disk.files := disk.files[fullname := data];
      }
      iscurrent := true;
      ok := true;
      assert fullname in disk.files && disk.files[fullname] == data;
    }
  }

  /** Writing the same payload through two records over one disk: both end at
      the same digest and location, and the second write changes nothing. */
  method WriteTwice(data: seq<byte>, hash: Hasher, disk: Disk, basepath: string, actor: UserId, now: Time)
      returns (first: File, second: File)
    requires DistinctAttempts(hash, data, |disk.files| + 1)
    modifies disk
    ensures fresh(first) && fresh(second)
    ensures first.hashstring == second.hashstring
    ensures first.filepath == second.filepath && first.filename == second.filename
    ensures disk.files == old(disk.files)[FullName(basepath, first.hashstring) := data]
    ensures first.Read(disk) == Some(data) && second.Read(disk) == Some(data)
  {
    first := new File("", basepath, actor, now);
    var ok1, k1 := first.Write(data, hash, disk);
    ghost var afterFirst := disk.files;
    ProbeAt(basepath, hash, data, k1);
    assert afterFirst == old(disk.files)[Probe(basepath, hash, data)(k1) := data];
    StoreKeepsFinal(old(disk.files), Probe(basepath, hash, data), data, k1);
    assert |afterFirst| <= |old(disk.files)| + 1;
    second := new File("", basepath, actor, now);
    var ok2, k2 := second.Write(data, hash, disk);
    FinalAttemptUnique(afterFirst, Probe(basepath, hash, data), data, k1, k2);
    assert second.hashstring == first.hashstring;
    assert disk.files == afterFirst;
  }

  /** Writing two payloads: each reads back as its own bytes afterwards. */
  method WriteBoth(b1: seq<byte>, b2: seq<byte>, hash: Hasher, disk: Disk, basepath: string, actor: UserId, now: Time)
      returns (f1: File, f2: File)
    requires DistinctAttempts(hash, b1, |disk.files|)
    requires DistinctAttempts(hash, b2, |disk.files| + 1)
    modifies disk
    ensures fresh(f1) && fresh(f2)
    ensures f1.Read(disk) == Some(b1) && f2.Read(disk) == Some(b2)
    ensures b1 != b2 ==> f1.hashstring != f2.hashstring
  {
    f1 := new File("", basepath, actor, now);
    var ok1, k1 := f1.Write(b1, hash, disk);
    ghost var slot1 := FullName(basepath, f1.hashstring);
    f2 := new File("", basepath, actor, now);
    var ok2, k2 := f2.Write(b2, hash, disk);
    ProbeAt(basepath, hash, b2, k2);
    assert slot1 in disk.files && disk.files[slot1] == b1;
  }
}
