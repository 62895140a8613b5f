/**
 Readers, files and buffered writers. Each operation is nondeterministic where the operating
 system is: reads may be short or interrupted, buffered bytes may reach the file at any time,
 and on a `faulty` system any operation may fail. A contract therefore speaks of every schedule.
 */
module Streams {
  import opened ByteStrings
  import opened Outcomes

  datatype ReadOutcome = Count(n: nat) | Interrupted | Failed

  function Min(a: nat, b: nat): nat { if a <= b then a else b }

  /** A choice the environment makes, where it has one. */
  method Maybe(possible: bool) returns (happens: bool)
    ensures happens ==> possible
  {
    happens := *;
    happens := happens && possible;
  }

  /** A byte source. `pending` is what it will still deliver before its first end of file. */
  class Reader {
    var pending: Bytes
    var interrupts: nat
    const faulty: bool

    constructor (data: Bytes, interrupts: nat, faulty: bool)
      ensures pending == data && this.interrupts == interrupts && this.faulty == faulty
    {
      pending, this.interrupts, this.faulty := data, interrupts, faulty;
    }

    /** One `read` into `buf[start..]`; nothing is promised about the bytes after the ones counted. */
    method Read(buf: array<byte>, start: nat) returns (r: ReadOutcome)
      requires start < buf.Length
      modifies this, buf
      ensures buf[..start] == old(buf[..start])
      ensures r.Count? ==>
                && (r.n == 0 <==> old(pending) == [])
                && r.n <= buf.Length - start
                && r.n <= |old(pending)|
                && buf[start..start + r.n] == old(pending)[..r.n]
                && pending == old(pending)[r.n..]
                && interrupts == old(interrupts)
      ensures r.Interrupted? ==> pending == old(pending) && interrupts < old(interrupts)
      ensures r.Failed? ==> faulty
    {
      var fails := Maybe(faulty);
      if fails {
        return Failed;
      }
      var interrupted := Maybe(interrupts > 0);
      if interrupted {
        interrupts := interrupts - 1;
        return Interrupted;
      }
      if pending == [] {
        return Count(0);
      }
      var most := Min(buf.Length - start, |pending|);
      var n: nat :| 1 <= n <= most;
      forall i | 0 <= i < n { buf[start + i] := pending[i]; }
      pending := pending[n..];
      r := Count(n);
    }

    /** Fill `buf` from the stream, or stop short at end of file. Returns how many bytes were stored. */
    method ReadChunk(buf: array<byte>) returns (r: Result<nat>)
      modifies this, buf
      ensures r.Ok? ==>
                && r.value == Min(buf.Length, |old(pending)|)
                && buf[..r.value] == old(pending)[..r.value]
                && pending == old(pending)[r.value..]
      ensures r.Err? ==> faulty && r.error == Io(OtherIo)
    {
      var total := 0;
      while total < buf.Length
        invariant total <= Min(buf.Length, |old(pending)|)
        invariant buf[..total] == old(pending)[..total]
        invariant pending == old(pending)[total..]
        decreases buf.Length - total, interrupts
      {
        var outcome := Read(buf, total);
        match outcome
        case Count(n) =>
          if n == 0 { break; }
          assert buf[..total + n] == buf[..total] + buf[total..total + n];
          total := total + n;
        case Interrupted =>
        case Failed =>
          return Err(Io(OtherIo));
      }
      r := Ok(total);
    }

    /** The standard library's `read_exact`: all `len` bytes, or an error at end of file. */
    method ReadExact(len: nat) returns (r: Result<Bytes>)
      modifies this
      ensures r.Ok? ==>
                && len <= |old(pending)|
                && r.value == old(pending)[..len]
                && pending == old(pending)[len..]
      ensures r == Err(Io(UnexpectedEof)) ==> |old(pending)| < len
      ensures r.Err? ==> r.error == Io(UnexpectedEof) || (faulty && r.error == Io(OtherIo))
    {
      var buf := new byte[len](_ => 0);
      var n := ReadChunk(buf);
      if n.Err? {
        return Err(n.error);
      }
      if n.value < len {
        return Err(Io(UnexpectedEof));
      }
      assert buf[..] == buf[..len];
      r := Ok(buf[..]);
    }
  }

  /** The files of a file system, and every state they have passed through. */
  datatype Snapshot<P> = Snapshot(files: map<P, Bytes>, trace: seq<map<P, Bytes>>)

  /** From `before` to `after`, no state on the way differs from `before` outside `paths`. */
  ghost predicate Confined<P>(before: Snapshot<P>, after: Snapshot<P>, paths: set<P>) {
    && |before.trace| <= |after.trace|
    && after.trace[..|before.trace|] == before.trace
    && after.files - paths == before.files - paths
    && forall k :: |before.trace| <= k < |after.trace| ==> after.trace[k] - paths == before.files - paths
  }

  /** Confinement goes on step by step. */
  lemma ConfinedOn<P>(a: Snapshot<P>, b: Snapshot<P>, c: Snapshot<P>, paths: set<P>, step: set<P>)
    requires Confined(a, b, paths) && Confined(b, c, step) && step <= paths
    ensures Confined(a, c, paths)
  {
    assert c.trace[..|a.trace|] == c.trace[..|b.trace|][..|a.trace|];
    WiderDifference(c.files, b.files, step, paths);
    forall k | |a.trace| <= k < |c.trace|
      ensures c.trace[k] - paths == a.files - paths
    {
      if k < |b.trace| {
        assert c.trace[k] == c.trace[..|b.trace|][k] == b.trace[k];
      } else {
        WiderDifference(c.trace[k], b.files, step, paths);
      }
    }
  }

  lemma WiderDifference<P>(m1: map<P, Bytes>, m2: map<P, Bytes>, step: set<P>, paths: set<P>)
    requires m1 - step == m2 - step && step <= paths
    ensures m1 - paths == m2 - paths
  {
    assert m1 - paths == (m1 - step) - paths && m2 - paths == (m2 - step) - paths;
  }

  ghost predicate SameAt<P>(m1: map<P, Bytes>, m2: map<P, Bytes>, p: P) {
    (p in m1 <==> p in m2) && (p in m1 ==> m1[p] == m2[p])
  }

  /** Equality off some paths is equality at every other path. */
  lemma SameElsewhere<P>(m1: map<P, Bytes>, m2: map<P, Bytes>, paths: set<P>, p: P)
    requires m1 - paths == m2 - paths && p !in paths
    ensures SameAt(m1, m2, p)
  {
    assert p in m1 <==> p in m1 - paths;
    assert p in m2 <==> p in m2 - paths;
    if p in m1 {
      assert m1[p] == (m1 - paths)[p] && m2[p] == (m2 - paths)[p];
    }
  }

  /** A map of paths to contents. `volatile` means another program may be changing files meanwhile. */
  class FileSystem<P(==)> {
    var files: map<P, Bytes>
    ghost var trace: seq<map<P, Bytes>>
    const faulty: bool
    const volatile: bool

    ghost predicate Valid()
      reads this
    {
      trace != [] && trace[|trace| - 1] == files
    }

    ghost function Snap(): Snapshot<P>
      reads this
    {
      Snapshot(files, trace)
    }

    constructor (files: map<P, Bytes>, faulty: bool, volatile: bool)
      ensures Valid() && this.files == files && trace == [files]
      ensures this.faulty == faulty && this.volatile == volatile
    {
      this.files, this.faulty, this.volatile := files, faulty, volatile;
      trace := [files];
    }

    /** The only place where `files` changes; it records the new state. */
    method Commit(now: map<P, Bytes>)
      modifies this
      ensures Valid() && files == now && trace == old(trace) + [now]
    {
      files := now;
      trace := trace + [now];
    }

    predicate Exists(path: P)
      reads this
    {
      path in files
    }

    /** `std::fs::metadata(path)?.len()`. */
    method FileLen(path: P) returns (r: Result<nat>)
      ensures r.Ok? && !volatile ==> path in files && r.value == |files[path]|
      ensures r.Ok? && volatile ==> r.value < TWO64
      ensures r.Err? ==> r.error.Io?
      ensures path in files && !faulty && !volatile ==> r.Ok?
    {
      if volatile {
        if * {
          var len: nat :| len < TWO64;
          return Ok(len);
        }
        return Err(Io(OtherIo));
      }
      if path !in files { return Err(Io(NotFound)); }
      var fails := Maybe(faulty);
      if fails { return Err(Io(OtherIo)); }
      r := Ok(|files[path]|);
    }

    /**
     `File::open`. The handle delivers the file's contents, unless the file is changed under it:
     by another program, or (`overwritten`) by this one before it has finished reading.
     */
    method Open(path: P, overwritten: bool) returns (r: Result<Reader>)
      requires path in files ==> |files[path]| < TWO64
      ensures r.Ok? ==> fresh(r.value) && r.value.faulty == faulty && |r.value.pending| < TWO64
      ensures r.Ok? && !volatile ==> path in files
      ensures r.Ok? && !volatile && !overwritten ==> r.value.pending == files[path]
      ensures r.Err? ==> r.error.Io?
      ensures path in files && !faulty && !volatile ==> r.Ok?
    {
      if path !in files && !volatile { return Err(Io(NotFound)); }
      var fails := Maybe((faulty || volatile));
      if fails { return Err(Io(OtherIo)); }
      var data: Bytes := [];
      if volatile || overwritten {
        data :| |data| < TWO64;
      } else {
        data := files[path];
      }
      var interrupts: nat := *;
      var reader := new Reader(data, interrupts, faulty);
      r := Ok(reader);
    }

    /** `File::create`: an empty file, whatever was there. */
    method Create(path: P) returns (r: Result<()>)
      requires Valid()
      modifies this
      ensures Valid()
      ensures Confined(old(Snap()), Snap(), {path})
      ensures r.Ok? ==> path in files && files[path] == []
      ensures r.Err? ==> Snap() == old(Snap()) && faulty && r.error.Io?
    {
      var fails := Maybe(faulty);
      if fails { return Err(Io(OtherIo)); }
      Commit(files[path := []]);
      assert files - {path} == old(files) - {path};
      r := Ok(());
    }

    /** `std::fs::rename`: one step, all or nothing. */
    method Rename(from: P, to: P) returns (r: Result<()>)
      requires Valid()
      modifies this
      ensures Valid()
      ensures r.Ok? ==>
                && from in old(files)
                && files == (old(files) - {from})[to := old(files)[from]]
                && trace == old(trace) + [files]
      ensures r.Err? ==> Snap() == old(Snap()) && r.error.Io?
      ensures r.Err? ==> from !in old(files) || faulty
    {
      if from !in files { return Err(Io(NotFound)); }
      var fails := Maybe(faulty);
      if fails { return Err(Io(OtherIo)); }
      Commit((files - {from})[to := files[from]]);
      r := Ok(());
    }

    /** `std::fs::remove_file`. */
    method Remove(path: P) returns (r: Result<()>)
      requires Valid()
      modifies this
      ensures Valid()
      ensures Confined(old(Snap()), Snap(), {path})
      ensures r.Ok? || r == Err(Io(NotFound)) <==> path !in files
      ensures r.Err? ==> Snap() == old(Snap())
      ensures r.Err? ==> r == Err(Io(NotFound)) || (faulty && r == Err(Io(OtherIo)))
    {
      if path !in files { return Err(Io(NotFound)); }
      var fails := Maybe(faulty);
      if fails { return Err(Io(OtherIo)); }
      Commit(files - {path});
      assert files - {path} == old(files) - {path};
      r := Ok(());
    }

    /** `std::fs::write`: create or truncate, then write everything. A failure may leave a partial file. */
    method WriteFile(path: P, data: Bytes) returns (r: Result<()>)
      requires Valid()
      modifies this
      ensures Valid()
      ensures Confined(old(Snap()), Snap(), {path})
      ensures r.Ok? ==> path in files && files[path] == data
      ensures r.Err? ==> faulty && r.error.Io?
      ensures files == old(files) || path in files
    {
      r := Create(path);
      if r.Err? { return; }
      var fails := Maybe(faulty);
      if fails {
        var n: nat :| n <= |data|;
        Commit(files[path := data[..n]]);
        assert files - {path} == old(files) - {path};
        return Err(Io(OtherIo));
      }
      Commit(files[path := data]);
      assert files - {path} == old(files) - {path};
    }
  }

  /**
     `BufWriter<File>`: accepts bytes and passes them on to the file in order, some time later.
     `opening` is the file system when the writer was made; since then only `path` has changed.
   */
  class BufWriter<P(==)> {
    const fs: FileSystem<P>
    const path: P
    ghost const opening: Snapshot<P>
    var accepted: Bytes

    ghost predicate Valid()
      reads this, fs
    {
      && fs.Valid()
      && path in fs.files
      && fs.files[path] <= accepted
      && Confined(opening, fs.Snap(), {path})
    }

    constructor (fs: FileSystem<P>, path: P)
      requires fs.Valid() && path in fs.files && fs.files[path] == []
      ensures Valid() && this.fs == fs && this.path == path && accepted == [] && opening == fs.Snap()
    {
      this.fs, this.path, accepted := fs, path, [];
      opening := fs.Snap();
    }

    /** A longer prefix of the accepted bytes reaches the file. */
    method Advance(n: nat)
      requires Valid() && |fs.files[path]| <= n <= |accepted|
      modifies fs
      ensures Valid() && fs.files[path] == accepted[..n]
    {
      fs.Commit(fs.files[path := accepted[..n]]);
      assert fs.files - {path} == old(fs.files) - {path};
    }

    method WriteAll(data: Bytes) returns (r: Result<()>)
      requires Valid()
      modifies this, fs
      ensures Valid()
      ensures r.Ok? ==> accepted == old(accepted) + data
      ensures r.Err? ==> fs.faulty && r.error == Io(OtherIo)
    {
      var keep: nat := |data|;
      if fs.faulty {
        keep :| keep <= |data|;
      }
      accepted := accepted + data[..keep];
      var n: nat :| |fs.files[path]| <= n <= |accepted|;
      Advance(n);
      r := if keep < |data| then Err(Io(OtherIo)) else Ok(());
    }

    method Flush() returns (r: Result<()>)
      requires Valid()
      modifies fs
      ensures Valid()
      ensures r.Ok? ==> fs.files[path] == accepted
      ensures r.Err? ==> fs.faulty && r.error == Io(OtherIo)
    {
      var fails := Maybe(fs.faulty);
      if fails {
        return Err(Io(OtherIo));
      }
      Advance(|accepted|);
      assert accepted[..|accepted|] == accepted;
      r := Ok(());
    }

    /** Dropping the writer: a last attempt to flush, whose outcome is ignored. */
    method Drop()
      requires Valid()
      modifies fs
      ensures Valid()
      ensures old(fs.files[path]) == accepted ==> fs.files[path] == accepted
    {
      var n: nat :| |fs.files[path]| <= n <= |accepted|;
      Advance(n);
    }
  }
}
