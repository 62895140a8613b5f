/** `encrypt_file` and `decrypt_file` of src/cipher.rs: the temporary-file protocol around the loops. */
module FileCipher {
  import opened ByteStrings
  import opened Outcomes
  import opened Crypto
  import opened ChunkNonces
  import opened Streams
  import opened Headers
  import opened Container
  import opened ContainerTheorems
  import opened ChunkLoops

  // ---- names of temporary files -----------------------------------------------------------

  /** A path; `name` is its ordinary final component, absent in paths such as `/` or `a/..`. */
  datatype Path = Path(parent: string, name: Option<string>)

  /** The position of the last dot, or -1. */
  function LastDot(name: string): (d: int)
    ensures -1 <= d < |name|
    ensures d >= 0 ==> name[d] == '.'
    ensures forall k :: d < k < |name| ==> name[k] != '.'
  {
    if name == [] then -1
    else if name[|name| - 1] == '.' then |name| - 1
    else LastDot(name[..|name| - 1])
  }

  /** `Path::file_stem`: everything before the last dot, unless the name's only dot is its first character. */
  function Stem(name: string): string {
    if LastDot(name) <= 0 then name else name[..LastDot(name)]
  }

  /** `Path::with_extension` with a non-empty extension. */
  function WithExtension(p: Path, ext: string): Path {
    match p.name
    case None => p
    case Some(name) => Path(p.parent, Some(Stem(name) + "." + ext))
  }

  /** The name changes, unless there is none or it already had precisely this as its last extension. */
  lemma WithExtensionFixes(p: Path, ext: string)
    ensures WithExtension(p, ext) == p <==>
      (p.name.Some? ==> LastDot(p.name.value) > 0 && p.name.value[LastDot(p.name.value) + 1..] == ext)
  {
    if p.name.Some? {
      var name, d := p.name.value, LastDot(p.name.value);
      if d > 0 {
        assert name == name[..d] + "." + name[d + 1..];
        assert name[..d] + "." + ext == name ==> (name[..d] + "." + ext)[d + 1..] == ext;
      }
    }
  }

  /** Because its extension contains a dot, a temporary name never is the target's own ordinary name. */
  lemma TempIsNotTarget(target: Path, ext: string)
    requires '.' in ext
    ensures WithExtension(target, ext) != target <==> target.name.Some?
  {
    WithExtensionFixes(target, ext);
    if target.name.Some? {
      var name, d := target.name.value, LastDot(target.name.value);
      assert '.' !in name[d + 1..];
    }
  }

  lemma {:induction false} LastDotAt(a: string, b: string)
    requires '.' !in b
    ensures LastDot(a + "." + b) == |a|
  {
    var name := a + "." + b;
    if b == "" {
      assert name[|name| - 1] == '.';
    } else {
      LastDotAt(a, b[..|b| - 1]);
      assert name[..|name| - 1] == a + "." + b[..|b| - 1];
      assert name[|name| - 1] == b[|b| - 1];
    }
  }

  /**
     What the new name is: the last extension is replaced, and where there is none, as in `name` or
     in `.name`, the new one is added.
   */
  lemma WithExtensionNames(parent: string, name: string, last: string, ext: string)
    requires '.' !in last
    ensures name != "" ==>
              WithExtension(Path(parent, Some(name + "." + last)), ext) == Path(parent, Some(name + "." + ext))
    ensures WithExtension(Path(parent, Some(last)), ext) == Path(parent, Some(last + "." + ext))
    ensures WithExtension(Path(parent, Some("." + last)), ext) == Path(parent, Some("." + last + "." + ext))
    ensures WithExtension(Path(parent, None), ext) == Path(parent, None)
  {
    LastDotAt(name, last);
    LastDotAt("", last);
    assert "" + "." + last == "." + last;
    assert (name + "." + last)[..|name|] == name;
    var d := LastDot(last);
    assert d < 0;
  }

  /** The temporary name may still be the source's: encrypting `a.cry.tmp` to `a.cry` is one case. */
  lemma TempMayBeSource()
    ensures WithExtension(Path("", Some("a.cry")), "cry.tmp") == Path("", Some("a.cry.tmp"))
  {
    var name := "a.cry";
    assert name[..4] == "a.cr" && name[..4][..3] == "a.c" && name[..4][..3][..2] == "a.";
    assert LastDot("a.") == 1 && LastDot("a.c") == 1 && LastDot("a.cr") == 1;
    assert name[..1] + "." + "cry.tmp" == "a.cry.tmp";
  }

  // ---- what a run may do to the file system -----------------------------------------------

  /** A state is harmless if only tmp and target differ, and target is as before or completely new. */
  ghost predicate Harmless(
      before: map<Path, Bytes>, state: map<Path, Bytes>, tmp: Path, target: Path, complete: Option<Bytes>)
  {
    && state - {tmp, target} == before - {tmp, target}
    && (SameAt(before, state, target) || (target in state && complete == Some(state[target])))
  }

  /** Every state since `before`, the present one included, is harmless. */
  ghost predicate AllHarmless(
      before: Snapshot<Path>, after: Snapshot<Path>, tmp: Path, target: Path, complete: Option<Bytes>)
  {
    && |before.trace| <= |after.trace|
    && after.trace[..|before.trace|] == before.trace
    && Harmless(before.files, after.files, tmp, target, complete)
    && forall k :: |before.trace| <= k < |after.trace| ==>
         Harmless(before.files, after.trace[k], tmp, target, complete)
  }

  /** At every path but tmp, every state on the way holds what was there before or, at the target, everything. */
  lemma OldOrComplete(
      before: Snapshot<Path>, after: Snapshot<Path>, tmp: Path, target: Path, complete: Option<Bytes>, k: nat, p: Path)
    requires AllHarmless(before, after, tmp, target, complete) && p != tmp
    requires |before.trace| <= k < |after.trace|
    ensures var state := after.trace[k];
            || (p !in before.files && p !in state)
            || (p in before.files && p in state && state[p] == before.files[p])
            || (p == target && p in state && Some(state[p]) == complete)
  {
    var state := after.trace[k];
    assert Harmless(before.files, state, tmp, target, complete);
    if p != target { SameElsewhere(before.files, state, {tmp, target}, p); }
  }

  lemma OnlyTempIsHarmless(
      before: map<Path, Bytes>, state: map<Path, Bytes>, tmp: Path, target: Path, complete: Option<Bytes>)
    requires state - {tmp} == before - {tmp} && tmp != target
    ensures Harmless(before, state, tmp, target, complete) && SameAt(before, state, target)
  {
    WiderDifference(state, before, {tmp}, {tmp, target});
    SameElsewhere(before, state, {tmp}, target);
  }

  lemma ConfinedIsHarmless(
      before: Snapshot<Path>, after: Snapshot<Path>, tmp: Path, target: Path, complete: Option<Bytes>)
    requires Confined(before, after, {tmp}) && tmp != target
    ensures AllHarmless(before, after, tmp, target, complete)
    ensures SameAt(before.files, after.files, target)
  {
    OnlyTempIsHarmless(before.files, after.files, tmp, target, complete);
    forall k | |before.trace| <= k < |after.trace|
      ensures Harmless(before.files, after.trace[k], tmp, target, complete)
    {
      OnlyTempIsHarmless(before.files, after.trace[k], tmp, target, complete);
    }
  }

  lemma RenameIsHarmless(
      before: Snapshot<Path>, mid: Snapshot<Path>, after: Snapshot<Path>, tmp: Path, target: Path)
    requires Confined(before, mid, {tmp}) && tmp != target && tmp in mid.files
    requires after.files == (mid.files - {tmp})[target := mid.files[tmp]]
    requires after.trace == mid.trace + [after.files]
    ensures AllHarmless(before, after, tmp, target, Some(mid.files[tmp]))
    ensures target in after.files && after.files[target] == mid.files[tmp] && tmp !in after.files
  {
    var complete := Some(mid.files[tmp]);
    ConfinedIsHarmless(before, mid, tmp, target, complete);
    assert after.files - {tmp, target} == mid.files - {tmp, target};
    assert after.trace[..|before.trace|] == mid.trace[..|before.trace|];
    forall k | |before.trace| <= k < |after.trace|
      ensures Harmless(before.files, after.trace[k], tmp, target, complete)
    {
      if k < |mid.trace| {
        assert after.trace[k] == mid.trace[k];
      } else {
        assert after.trace[k] == after.files;
      }
    }
  }

  lemma OthersKept(
      before: Snapshot<Path>, after: Snapshot<Path>, tmp: Path, target: Path, complete: Option<Bytes>, other: Path)
    requires AllHarmless(before, after, tmp, target, complete) && other != tmp && other != target
    ensures SameAt(before.files, after.files, other)
  {
    SameElsewhere(before.files, after.files, {tmp, target}, other);
  }

  // ---- the end of both protocols ----------------------------------------------------------

  /**
     How a run ended. `Removed` means that after an error the temporary file was removed, or found
     not to be there; `RemovalFailed` that its removal failed too.
   */
  datatype Ending = NotStarted | Renamed | RenameFailed | Removed | RemovalFailed
  {
    predicate WritePhaseFailed() { Removed? || RemovalFailed? }
  }

  /** What each ending leaves in `now`, when the closure turned `before` into a state with `written` in tmp. */
  ghost predicate Left(
      ending: Ending, before: map<Path, Bytes>, now: map<Path, Bytes>, tmp: Path, target: Path,
      complete: Option<Bytes>)
  {
    && (ending.NotStarted? ==> now == before)
    && (ending.Renamed? ==>
          target in now && complete == Some(now[target]) && (tmp != target ==> tmp !in now))
    && (ending.RenameFailed? ==> tmp in now && complete == Some(now[tmp]))
    && (ending.Removed? ==> tmp !in now)
    && (ending.RemovalFailed? ==> tmp in now)
    && (!ending.Renamed? && tmp != target ==> SameAt(before, now, target))
  }

  /** Move a finished temporary file into place, or delete an unfinished one. */
  method Conclude(
      fs: FileSystem<Path>, tmp: Path, target: Path, inner: Result<()>, ghost before: Snapshot<Path>,
      ghost complete: Option<Bytes>)
    returns (r: Result<()>, ghost ending: Ending)
    requires fs.Valid() && Confined(before, fs.Snap(), {tmp})
    requires inner.Ok? ==> tmp in fs.files && complete == Some(fs.files[tmp])
    modifies fs
    ensures fs.Valid()
    ensures tmp != target ==> AllHarmless(before, fs.Snap(), tmp, target, complete)
    ensures Left(ending, before.files, fs.files, tmp, target, complete)
    ensures inner.Err? <==> ending.WritePhaseFailed()
    ensures inner.Err? ==> r == inner
    ensures ending.RemovalFailed? || ending.RenameFailed? ==> fs.faulty
    ensures ending.RenameFailed? ==> r.Err? && r.error.Io?
    ensures ending.Renamed? && r.Err? ==> r.error.Io? && (fs.faulty || fs.volatile)
    ensures !ending.NotStarted?
  {
    ghost var mid := fs.Snap();
    if inner.Err? {
      var removed := fs.Remove(tmp);
      ConfinedOn(before, mid, fs.Snap(), {tmp}, {tmp});
      if tmp != target { ConfinedIsHarmless(before, fs.Snap(), tmp, target, complete); }
      return inner, if removed.Ok? || removed == Err(Io(NotFound)) then Removed else RemovalFailed;
    }
    r := fs.Rename(tmp, target);
    if r.Err? {
      if tmp != target { ConfinedIsHarmless(before, mid, tmp, target, complete); }
      ending := RenameFailed;
      return;
    }
    if tmp != target { RenameIsHarmless(before, mid, fs.Snap(), tmp, target); }
    var len := fs.FileLen(target);
    r, ending := if len.Err? then Err(len.error) else Ok(()), Renamed;
  }

  // ---- encryption ---------------------------------------------------------------------------

  /** The header an encryption of `plain` commits to. */
  ghost function HeaderOf(algo: Algorithm, salt: Salt, nonce: Nonce, chunk: ChunkSize, plain: Bytes): (h: Header)
    requires |plain| < TWO64
    ensures h.algo == algo && h.salt == salt && h.nonce == nonce && Commits(h, chunk, plain)
  {
    ChunkCount(plain, chunk);
    DivCeilBound(|plain|, chunk);
    Header(algo, salt, nonce, |Chunks(plain, chunk)|)
  }

  /** The fixed part of an encrypted file, byte by byte. */
  ghost predicate IsHeaded(
      suite: Suite, key: Bytes, file: Bytes, algo: Algorithm, salt: Salt, nonce: Nonce, chunk: ChunkSize, input: Bytes)
    requires |file| >= 73
  {
    && file[..4] == MAGIC
    && file[4] == (if algo == Aes256Gcm then 0x01 else 0x02)
    && file[5..21] == salt && file[21..33] == nonce
    && FromBE(file[33..41]) == DivCeil(|input|, chunk)
    && TagCovers(suite, key, file)
  }

  lemma EncryptedIsHeaded(
      suite: Suite, chunk: ChunkSize, pass: Bytes, algo: Algorithm, salt: Salt, nonce: Nonce, input: Bytes, file: Bytes)
    requires |input| < TWO64
    requires EncryptedFile(suite, chunk, pass, HeaderOf(algo, salt, nonce, chunk, input), input) == Some(file)
    ensures suite.kdf(pass, salt).Some? && |file| >= 73
    ensures IsHeaded(suite, suite.kdf(pass, salt).value, file, algo, salt, nonce, chunk, input)
  {
    var h := HeaderOf(algo, salt, nonce, chunk, input);
    var key := suite.kdf(pass, salt).value;
    var payloads := HonestFile(suite, chunk, pass, key, h, input);
    HeaderLayout(suite, key, h, file);
    ChunkCount(input, chunk);
  }

  /** Header, chunks, flush, and the check of the committed count. */
  method WriteEncryption(
      writer: BufWriter<Path>, reader: Reader, suite: Suite, chunk: ChunkSize, h: Header, key: Bytes)
    returns (r: Result<()>)
    requires writer.Valid() && writer.accepted == [] && |reader.pending| < TWO64
    modifies writer, writer.fs, reader
    ensures writer.Valid()
    ensures r.Ok? ==>
              && Commits(h, chunk, old(reader.pending))
              && writer.fs.files[writer.path] == writer.accepted
              && Some(writer.accepted) == EncryptedWith(suite, chunk, key, h, old(reader.pending))
    ensures r.Err? ==>
              || (r.error.Io? && (reader.faulty || writer.fs.faulty))
              || (r.error == Truncated(h.chunkCount, |Chunks(old(reader.pending), chunk)|)
                  && !Commits(h, chunk, old(reader.pending)))
  {
    r := WriteHeader(suite, writer, h, key);
    if r.Err? { return; }
    assert writer.accepted == HeaderBytes(suite, key, h);
    var aad := ComputeHeaderAad(suite, h);
    var count := EncryptChunks(reader, writer, Session(suite, chunk, h.algo, key, h.nonce, aad));
    if count.Err? { return Err(count.error); }
    r := writer.Flush();
    if r.Ok? && count.value != h.chunkCount {
      r := Err(Truncated(h.chunkCount, count.value));
    }
  }

  /** Everything between opening the source and checking the count. `input` is what was read. */
  method EncryptToTemp(
      fs: FileSystem<Path>, suite: Suite, chunk: ChunkSize, plainPath: Path, tmp: Path, h: Header, key: Bytes)
    returns (r: Result<()>, ghost input: Bytes)
    requires fs.Valid() && (plainPath in fs.files ==> |fs.files[plainPath]| < TWO64)
    modifies fs
    ensures fs.Valid() && Confined(old(fs.Snap()), fs.Snap(), {tmp})
    ensures |input| < TWO64
    ensures r.Ok? ==>
              && Commits(h, chunk, input)
              && tmp in fs.files
              && Some(fs.files[tmp]) == EncryptedWith(suite, chunk, key, h, input)
    ensures r.Ok? && !fs.volatile ==>
              plainPath in old(fs.files) && (plainPath != tmp ==> input == old(fs.files)[plainPath])
    ensures (&& plainPath in old(fs.files) && plainPath != tmp && !fs.faulty && !fs.volatile
             && Commits(h, chunk, old(fs.files)[plainPath])) ==> r.Ok?
    ensures r.Err? ==>
              || (r.error.Io? && (fs.faulty || fs.volatile || plainPath !in old(fs.files)))
              || (r.error == Truncated(h.chunkCount, |Chunks(input, chunk)|) && !Commits(h, chunk, input))
  {
    input := [];
    var source := fs.Open(plainPath, plainPath == tmp);
    if source.Err? { return Err(source.error), []; }
    var reader := source.value;
    input := reader.pending;
    r := fs.Create(tmp);
    if r.Err? { return; }
    ghost var created := fs.Snap();
    var writer := new BufWriter<Path>(fs, tmp);
    r := WriteEncryption(writer, reader, suite, chunk, h, key);
    writer.Drop();
    ConfinedOn(old(fs.Snap()), created, fs.Snap(), {tmp}, {tmp});
  }

  /** Refuse an existing target without force, and ask for the source's length. */
  method Admit(fs: FileSystem<Path>, source: Path, target: Path, force: bool) returns (len: Result<u64>)
    requires source in fs.files ==> |fs.files[source]| < TWO64
    ensures len == Err(FileExists) <==> target in fs.files && !force
    ensures len.Err? && len.error != FileExists ==> len.error.Io?
    ensures len.Ok? && !fs.volatile ==> source in fs.files && len.value == |fs.files[source]|
    ensures source in fs.files && !fs.faulty && !fs.volatile && len != Err(FileExists) ==> len.Ok?
  {
    if fs.Exists(target) && !force { return Err(FileExists); }
    var measured := fs.FileLen(source);
    len := if measured.Ok? then Ok(measured.value) else Err(measured.error);
  }

  /** Encrypt a source of the length that was reported, through `tmp`, to `target`. */
  method EncryptMeasured(
      fs: FileSystem<Path>, suite: Suite, chunk: ChunkSize, plainPath: Path, plainLen: u64, tmp: Path, target: Path,
      pass: Bytes, algo: Algorithm, salt: Salt, nonce: Nonce)
    returns (r: Result<()>, ghost input: Bytes, ghost ending: Ending)
    requires fs.Valid() && (plainPath in fs.files ==> |fs.files[plainPath]| < TWO64)
    requires !fs.volatile ==> plainPath in fs.files && plainLen == |fs.files[plainPath]|
    modifies fs
    ensures fs.Valid() && |input| < TWO64
    ensures var done := EncryptedFile(suite, chunk, pass, HeaderOf(algo, salt, nonce, chunk, input), input);
            && Left(ending, old(fs.files), fs.files, tmp, target, done)
            && (tmp != target ==> AllHarmless(old(fs.Snap()), fs.Snap(), tmp, target, done))
    ensures r.Ok? ==> ending.Renamed?
    ensures ending.NotStarted? ==> fs.Snap() == old(fs.Snap())
    ensures ending.RemovalFailed? || ending.RenameFailed? ==> fs.faulty
    ensures r.Err? && !r.error.Io? ==> ending.NotStarted? || ending.WritePhaseFailed()
    ensures ending.Renamed? && r.Err? ==> fs.faulty || fs.volatile
    ensures r != Err(FileExists)
    ensures suite.kdf(pass, salt).None? ==> r == Err(Kdf) && ending.NotStarted?
    ensures ending.Renamed? && !fs.volatile && plainPath != tmp ==> input == old(fs.files)[plainPath]
    ensures suite.kdf(pass, salt).Some? && plainPath != tmp && !fs.faulty && !fs.volatile ==> r.Ok?
  {
    input, ending := [], NotStarted;
    ghost var before := fs.Snap();
    DivCeilBound(plainLen, chunk);
    var chunkCount: u64 := DivCeil(plainLen, chunk);
    var key := suite.kdf(pass, salt);
    if key.None? {
      if tmp != target { ConfinedIsHarmless(before, before, tmp, target, None); }
      return Err(Kdf), [], NotStarted;
    }
    var h := Header(algo, salt, nonce, chunkCount);
    if plainPath in fs.files { ChunkCount(fs.files[plainPath], chunk); }
    r, input := EncryptToTemp(fs, suite, chunk, plainPath, tmp, h, key.value);
    ghost var done := EncryptedFile(suite, chunk, pass, HeaderOf(algo, salt, nonce, chunk, input), input);
    if r.Ok? { assert h == HeaderOf(algo, salt, nonce, chunk, input); }
    r, ending := Conclude(fs, tmp, target, r, before, done);
  }

  /**
     `encrypt_file`. `salt` and `nonce` are the bytes the random generator gave, `input` the bytes
     the source delivered. Whatever happens, every state of the file system on the way has the old
     target or the complete encryption of `input`; what is left at the end depends on the ending.
   */
  method EncryptFile(
      fs: FileSystem<Path>, suite: Suite, chunk: ChunkSize, plainPath: Path, cipherPath: Path,
      pass: Bytes, algo: Algorithm, force: bool, salt: Salt, nonce: Nonce)
    returns (r: Result<()>, ghost input: Bytes, ghost ending: Ending)
    requires fs.Valid() && (plainPath in fs.files ==> |fs.files[plainPath]| < TWO64)
    modifies fs
    ensures fs.Valid() && |input| < TWO64
    ensures var tmp := WithExtension(cipherPath, "cry.tmp");
            var done := EncryptedFile(suite, chunk, pass, HeaderOf(algo, salt, nonce, chunk, input), input);
            && Left(ending, old(fs.files), fs.files, tmp, cipherPath, done)
            && (tmp == plainPath && (ending.Renamed? || ending.Removed?) && cipherPath.name.Some? ==>
                  plainPath !in fs.files)
            && (cipherPath.name.Some? ==>
                  && tmp != cipherPath
                  && AllHarmless(old(fs.Snap()), fs.Snap(), tmp, cipherPath, done)
                  && (plainPath != tmp && plainPath != cipherPath ==>
                        SameAt(old(fs.files), fs.files, plainPath)))
    ensures r.Ok? ==> ending.Renamed?
    ensures ending.NotStarted? ==> fs.Snap() == old(fs.Snap())
    ensures ending.RemovalFailed? || ending.RenameFailed? ==> fs.faulty
    ensures r.Err? && !r.error.Io? ==> ending.NotStarted? || ending.WritePhaseFailed()
    ensures ending.Renamed? && r.Err? ==> fs.faulty || fs.volatile
    ensures ending.Renamed? ==>
              && cipherPath in fs.files && |fs.files[cipherPath]| >= 73
              && suite.kdf(pass, salt).Some?
              && IsHeaded(suite, suite.kdf(pass, salt).value, fs.files[cipherPath], algo, salt, nonce, chunk, input)
    ensures r == Err(FileExists) <==> cipherPath in old(fs.files) && !force
    ensures r == Err(FileExists) ==> ending.NotStarted?
    ensures plainPath !in old(fs.files) && !fs.volatile && (force || cipherPath !in old(fs.files)) ==>
              r.Err? && r.error.Io? && ending.NotStarted?
    ensures (&& plainPath in old(fs.files) && (force || cipherPath !in old(fs.files))
             && suite.kdf(pass, salt).None? && !fs.faulty && !fs.volatile) ==>
              r == Err(Kdf) && ending.NotStarted?
    ensures ending.Renamed? && !fs.volatile && plainPath != WithExtension(cipherPath, "cry.tmp") ==>
              plainPath in old(fs.files) && input == old(fs.files)[plainPath]
    ensures (&& plainPath in old(fs.files) && plainPath != WithExtension(cipherPath, "cry.tmp")
             && cipherPath.name.Some? && (force || cipherPath !in old(fs.files))
             && suite.kdf(pass, salt).Some? && !fs.faulty && !fs.volatile) ==> r.Ok?
  {
    input, ending := [], NotStarted;
    ghost var before := fs.Snap();
    var tmp := WithExtension(cipherPath, "cry.tmp");
    TempIsNotTarget(cipherPath, "cry.tmp");
    ghost var nothing := EncryptedFile(suite, chunk, pass, HeaderOf(algo, salt, nonce, chunk, []), []);
    if tmp != cipherPath { ConfinedIsHarmless(before, before, tmp, cipherPath, nothing); }
    var plainLen := Admit(fs, plainPath, cipherPath, force);
    if plainLen.Err? { return Err(plainLen.error), [], NotStarted; }
    r, input, ending := EncryptMeasured(
      fs, suite, chunk, plainPath, plainLen.value, tmp, cipherPath, pass, algo, salt, nonce);
    ghost var done := EncryptedFile(suite, chunk, pass, HeaderOf(algo, salt, nonce, chunk, input), input);
    if ending.Renamed? {
      EncryptedIsHeaded(suite, chunk, pass, algo, salt, nonce, input, fs.files[cipherPath]);
    }
    if tmp != cipherPath && plainPath != tmp && plainPath != cipherPath {
      OthersKept(before, fs.Snap(), tmp, cipherPath, done, plainPath);
    }
  }

  // ---- decryption ---------------------------------------------------------------------------

  /**
     Read the header, derive the key from the salt in it, and authenticate it. What is left to
     decide is left to the body that follows.
   */
  method OpenSession(reader: Reader, suite: Suite, chunk: ChunkSize, pass: Bytes)
    returns (r: Result<Session>, committed: u64)
    modifies reader
    ensures r.Ok? ==>
              && DecryptedFile(suite, chunk, pass, old(reader.pending))
                 == DecryptedBody(r.value.Opening(), committed, reader.pending)
              && |reader.pending| <= |old(reader.pending)|
    ensures r.Err? ==>
              || DecryptedFile(suite, chunk, pass, old(reader.pending)) == Err(r.error)
              || (reader.faulty && r.error == InvalidFormat(TooShort))
    ensures r != Err(FileExists)
  {
    committed := 0;
    ghost var input := reader.pending;
    var raw := reader.ReadExact(HEADER_LEN);
    if raw.Err? { return Err(InvalidFormat(TooShort)), 0; }
    var key := suite.kdf(pass, raw.value[SALT_OFFSET..SALT_OFFSET + SALT_LEN]);
    assert raw.value[SALT_OFFSET..SALT_OFFSET + SALT_LEN] == input[SALT_OFFSET..SALT_OFFSET + SALT_LEN];
    if key.None? { return Err(Kdf), 0; }
    var slice := new Reader(raw.value, 0, false);
    var header := ReadHeader(suite, slice, key.value);
    if header.Err? { return Err(header.error), 0; }
    var h := header.value;
    var aad := ComputeHeaderAad(suite, h);
    r, committed := Ok(Session(suite, chunk, h.algo, key.value, h.nonce, aad)), h.chunkCount;
  }

  /** Frames, flush, and the check of the committed count. */
  method WriteDecryption(writer: BufWriter<Path>, reader: Reader, s: Session, committed: u64)
    returns (r: Result<()>)
    requires writer.Valid() && writer.accepted == [] && |reader.pending| < TWO64
    modifies writer, writer.fs, reader
    ensures writer.Valid()
    ensures r.Ok? ==>
              && writer.fs.files[writer.path] == writer.accepted
              && DecryptedBody(s.Opening(), committed, old(reader.pending)) == Ok(writer.accepted)
    ensures r.Err? ==>
              || DecryptedBody(s.Opening(), committed, old(reader.pending)) == Err(r.error)
              || ((reader.faulty || writer.fs.faulty) && r.error.Io?)
    ensures r != Err(FileExists)
  {
    var count := DecryptChunks(reader, writer, s);
    if count.Err? { return Err(count.error); }
    assert writer.accepted == DecryptBody(s.Opening(), old(reader.pending), 0).value.plain;
    r := writer.Flush();
    if r.Ok? && count.value != committed {
      r := Err(Truncated(committed, count.value));
    }
  }

  /** Everything between creating the output and checking the count. */
  method DecryptToTemp(fs: FileSystem<Path>, reader: Reader, s: Session, committed: u64, tmp: Path)
    returns (r: Result<()>)
    requires fs.Valid() && |reader.pending| < TWO64 && reader.faulty == fs.faulty
    modifies fs, reader
    ensures fs.Valid() && Confined(old(fs.Snap()), fs.Snap(), {tmp})
    ensures r.Ok? ==>
              tmp in fs.files && DecryptedBody(s.Opening(), committed, old(reader.pending)) == Ok(fs.files[tmp])
    ensures r.Err? ==>
              || DecryptedBody(s.Opening(), committed, old(reader.pending)) == Err(r.error)
              || (fs.faulty && r.error.Io?)
    ensures r != Err(FileExists)
  {
    r := fs.Create(tmp);
    if r.Err? { return; }
    ghost var created := fs.Snap();
    var writer := new BufWriter<Path>(fs, tmp);
    r := WriteDecryption(writer, reader, s, committed);
    writer.Drop();
    ConfinedOn(old(fs.Snap()), created, fs.Snap(), {tmp}, {tmp});
  }

  /** Decrypt what an opened source delivers, through `tmp`, to `target`. */
  method DecryptDelivered(
      fs: FileSystem<Path>, reader: Reader, suite: Suite, chunk: ChunkSize, pass: Bytes, tmp: Path, target: Path)
    returns (r: Result<()>, ghost ending: Ending)
    requires fs.Valid() && |reader.pending| < TWO64 && reader.faulty == fs.faulty
    modifies fs, reader
    ensures fs.Valid()
    ensures var spec := DecryptedFile(suite, chunk, pass, old(reader.pending));
            var done := if spec.Ok? then Some(spec.value) else None;
            && Left(ending, old(fs.files), fs.files, tmp, target, done)
            && (tmp != target ==> AllHarmless(old(fs.Snap()), fs.Snap(), tmp, target, done))
            && (spec.Err? ==> ending.NotStarted? || ending.WritePhaseFailed())
            && (!fs.faulty && !fs.volatile ==> (r.Ok? <==> spec.Ok?) && (r.Err? ==> spec == Err(r.error)))
    ensures r.Ok? ==> ending.Renamed?
    ensures r != Err(FileExists)
    ensures ending.NotStarted? ==> fs.Snap() == old(fs.Snap())
    ensures ending.RemovalFailed? || ending.RenameFailed? ==> fs.faulty
    ensures ending.Renamed? && r.Err? ==> r.error.Io? && (fs.faulty || fs.volatile)
  {
    ghost var before := fs.Snap();
    ghost var spec := DecryptedFile(suite, chunk, pass, reader.pending);
    ghost var done := if spec.Ok? then Some(spec.value) else None;
    if tmp != target { ConfinedIsHarmless(before, before, tmp, target, done); }
    var session, committed := OpenSession(reader, suite, chunk, pass);
    if session.Err? { return Err(session.error), NotStarted; }
    r := DecryptToTemp(fs, reader, session.value, committed, tmp);
    r, ending := Conclude(fs, tmp, target, r, before, done);
  }

  /**
     `decrypt_file`. `input` is what the source delivered. The target only ever holds what it held
     before or the complete plaintext; on a sound file system with a stable source the result is
     exactly the one `DecryptedFile` gives for the source's contents.
   */
  method DecryptFile(
      fs: FileSystem<Path>, suite: Suite, chunk: ChunkSize, plainPath: Path, cipherPath: Path,
      pass: Bytes, force: bool)
    returns (r: Result<()>, ghost input: Bytes, ghost ending: Ending)
    requires fs.Valid() && (cipherPath in fs.files ==> |fs.files[cipherPath]| < TWO64)
    modifies fs
    ensures fs.Valid()
    ensures var tmp := WithExtension(plainPath, "plain.tmp");
            var spec := DecryptedFile(suite, chunk, pass, input);
            var done := if spec.Ok? then Some(spec.value) else None;
            && Left(ending, old(fs.files), fs.files, tmp, plainPath, done)
            && (plainPath.name.Some? ==>
                  && tmp != plainPath
                  && AllHarmless(old(fs.Snap()), fs.Snap(), tmp, plainPath, done)
                  && (cipherPath != tmp && cipherPath != plainPath ==>
                        SameAt(old(fs.files), fs.files, cipherPath)))
            && (spec.Err? ==> ending.NotStarted? || ending.WritePhaseFailed())
    ensures r.Ok? ==> ending.Renamed?
    ensures ending.NotStarted? ==> fs.Snap() == old(fs.Snap())
    ensures ending.RemovalFailed? || ending.RenameFailed? ==> fs.faulty
    ensures ending.Renamed? && r.Err? ==> r.error.Io? && (fs.faulty || fs.volatile)
    ensures cipherPath !in old(fs.files) && !fs.volatile && (force || plainPath !in old(fs.files)) ==>
              r.Err? && r.error.Io? && ending.NotStarted?
    ensures r == Err(FileExists) <==> plainPath in old(fs.files) && !force
    ensures r == Err(FileExists) ==> ending.NotStarted?
    ensures (&& cipherPath in old(fs.files) && cipherPath != WithExtension(plainPath, "plain.tmp")
             && plainPath.name.Some? && (force || plainPath !in old(fs.files))
             && !fs.faulty && !fs.volatile) ==>
              && input == old(fs.files)[cipherPath]
              && (r.Ok? <==> DecryptedFile(suite, chunk, pass, input).Ok?)
              && (r.Err? ==> DecryptedFile(suite, chunk, pass, input) == Err(r.error))
  {
    input, ending := [], NotStarted;
    ghost var before := fs.Snap();
    var tmp := WithExtension(plainPath, "plain.tmp");
    TempIsNotTarget(plainPath, "plain.tmp");
    if tmp != plainPath { ConfinedIsHarmless(before, before, tmp, plainPath, None); }
    if fs.Exists(plainPath) && !force { return Err(FileExists), [], NotStarted; }
    var source := fs.Open(cipherPath, cipherPath == tmp);
    if source.Err? { return Err(source.error), [], NotStarted; }
    var reader := source.value;
    input := reader.pending;
    ghost var spec := DecryptedFile(suite, chunk, pass, input);
    ghost var done := if spec.Ok? then Some(spec.value) else None;
    if tmp != plainPath { ConfinedIsHarmless(before, before, tmp, plainPath, done); }
    var cipherLen := fs.FileLen(cipherPath);
    if cipherLen.Err? { return Err(cipherLen.error), input, NotStarted; }
    r, ending := DecryptDelivered(fs, reader, suite, chunk, pass, tmp, plainPath);
    if tmp != plainPath && cipherPath != tmp && cipherPath != plainPath {
      OthersKept(before, fs.Snap(), tmp, plainPath, done, cipherPath);
    }
  }

  // ---- both together ----------------------------------------------------------------------------

  /** Whatever bytes an encryption read, changed meanwhile or not, its file decrypts to exactly them. */
  lemma WhateverWasReadDecrypts(
      suite: Suite, chunk: ChunkSize, pass: Bytes, algo: Algorithm, salt: Salt, nonce: Nonce, input: Bytes)
    requires |input| < TWO64 && suite.kdf(pass, salt).Some?
    ensures var file := EncryptedFile(suite, chunk, pass, HeaderOf(algo, salt, nonce, chunk, input), input);
            && file.Some?
            && DecryptedFile(suite, chunk, pass, file.value) == Ok(input)
            && |file.value| <= 73 + 21 * |input|
  {
    RoundTrip(suite, chunk, pass, HeaderOf(algo, salt, nonce, chunk, input), input);
    DivCeilBound(|input|, chunk);
  }

  /**
     On a sound file system, with force, encrypting a file and decrypting the result restores it,
     be the output a third file, the source itself, or the encrypted file.
   */
  method EncryptThenDecrypt(
      fs: FileSystem<Path>, suite: Suite, chunk: ChunkSize, plainPath: Path, cipherPath: Path, outPath: Path,
      pass: Bytes, algo: Algorithm, salt: Salt, nonce: Nonce)
    requires fs.Valid() && !fs.faulty && !fs.volatile
    requires plainPath in fs.files && 73 + 21 * |fs.files[plainPath]| < TWO64
    requires suite.kdf(pass, salt).Some?
    requires cipherPath.name.Some? && outPath.name.Some?
    requires plainPath != WithExtension(cipherPath, "cry.tmp") && cipherPath != WithExtension(outPath, "plain.tmp")
    modifies fs
    ensures outPath in fs.files && fs.files[outPath] == old(fs.files)[plainPath]
  {
    var encrypted, input, first := EncryptFile(fs, suite, chunk, plainPath, cipherPath, pass, algo, true, salt, nonce);
    WhateverWasReadDecrypts(suite, chunk, pass, algo, salt, nonce, input);
    var decrypted, delivered, second := DecryptFile(fs, suite, chunk, outPath, cipherPath, pass, true);
  }
}
