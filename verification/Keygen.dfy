/** `cry keygen` and `cry derive` of src/keygen.rs: which files they write, and when they refuse. */
module Keygen {
  import opened ByteStrings
  import opened Outcomes
  import opened Crypto
  import opened Streams
  import Hex
  import SaltEncoding
  import AesSalt

  datatype KeyAlgorithm = Ed25519 | Rsa | Aes256Gcm

  /** An Ed25519 identity, with what the OpenSSH library makes of it (None where it fails). */
  datatype KeyPair = KeyPair(
    secret: Bytes, public: Bytes, opensshPrivate: Bytes -> Option<Bytes>, authorizedKeys: Bytes)

  type FilePath = string

  function PrivatePath(base: string): FilePath { base + ".cry_id" }
  function PublicPath(base: string): FilePath { base + ".cry_pub_id" }
  function OpensshPath(base: string): FilePath { PrivatePath(base) + ".openssh_id" }
  function OpensshPubPath(base: string): FilePath { PrivatePath(base) + ".openssh_pub" }

  function OutputPaths(base: string, algo: KeyAlgorithm, openssh: bool): (paths: set<FilePath>) {
    match algo
    case Aes256Gcm => {PrivatePath(base)}
    case Rsa => {PrivatePath(base), PublicPath(base)}
    case Ed25519 =>
      {PrivatePath(base), PublicPath(base)} + (if openssh then {OpensshPath(base), OpensshPubPath(base)} else {})
  }

  lemma PathsDiffer(base: string)
    ensures PrivatePath(base) != PublicPath(base)
    ensures OpensshPath(base) !in {PrivatePath(base), PublicPath(base)}
    ensures OpensshPubPath(base) !in {PrivatePath(base), PublicPath(base), OpensshPath(base)}
  {
    var n := |base|;
    assert |PrivatePath(base)| == n + 7 && |PublicPath(base)| == n + 11;
    assert |OpensshPath(base)| == n + 18 && |OpensshPubPath(base)| == n + 19;
  }

  lemma OutputNames(base: string)
    ensures PrivatePath(base) == base + ".cry_id" && PublicPath(base) == base + ".cry_pub_id"
    ensures OpensshPath(base) == base + ".cry_id.openssh_id"
    ensures OpensshPubPath(base) == base + ".cry_id.openssh_pub"
  {
    assert ".cry_id" + ".openssh_id" == ".cry_id.openssh_id" && ".cry_id" + ".openssh_pub" == ".cry_id.openssh_pub";
    assert base + ".cry_id" + ".openssh_id" == base + (".cry_id" + ".openssh_id");
    assert base + ".cry_id" + ".openssh_pub" == base + (".cry_id" + ".openssh_pub");
  }

  // ---- what a run leaves alone ------------------------------------------------------------

  /** In no state since `before` has a file disappeared or changed that existed then. */
  ghost predicate NothingLost(before: Snapshot<FilePath>, after: Snapshot<FilePath>) {
    forall p :: p in before.files ==>
      && (p in after.files && after.files[p] == before.files[p])
      && forall k :: |before.trace| <= k < |after.trace| ==>
           p in after.trace[k] && after.trace[k][p] == before.files[p]
  }

  /** Confinement to paths that did not exist loses nothing. */
  lemma NewPathsLoseNothing(before: Snapshot<FilePath>, after: Snapshot<FilePath>, paths: set<FilePath>)
    requires Confined(before, after, paths) && before.files.Keys * paths == {}
    ensures NothingLost(before, after)
  {
    assert forall p :: p in before.files && p in paths ==> p in before.files.Keys * paths;
    forall p | p in before.files
      ensures p in after.files && after.files[p] == before.files[p]
      ensures forall k :: |before.trace| <= k < |after.trace| ==>
                p in after.trace[k] && after.trace[k][p] == before.files[p]
    {
      SameElsewhere(before.files, after.files, paths, p);
      forall k | |before.trace| <= k < |after.trace|
        ensures p in after.trace[k] && after.trace[k][p] == before.files[p]
      {
        SameElsewhere(before.files, after.trace[k], paths, p);
      }
    }
  }

  // ---- single writes ------------------------------------------------------------------------

  method EnsureWritable(fs: FileSystem<FilePath>, path: FilePath, force: bool) returns (r: Result<()>)
    ensures r == if path in fs.files && !force then Err(FileExists) else Ok(())
  {
    r := if fs.Exists(path) && !force then Err(FileExists) else Ok(());
  }

  ghost predicate OnlyAt(before: map<FilePath, Bytes>, after: map<FilePath, Bytes>, path: FilePath) {
    forall p :: p != path ==> SameAt(before, after, p)
  }

  /** `std::fs::write` to one of the `paths` this run may touch. */
  method WritePlain(
      fs: FileSystem<FilePath>, path: FilePath, data: Bytes,
      ghost before: Snapshot<FilePath>, ghost paths: set<FilePath>)
    returns (r: Result<()>)
    requires fs.Valid() && Confined(before, fs.Snap(), paths) && path in paths
    modifies fs
    ensures fs.Valid() && Confined(before, fs.Snap(), paths)
    ensures OnlyAt(old(fs.files), fs.files, path)
    ensures r.Ok? ==> path in fs.files && fs.files[path] == data
    ensures r.Err? ==> fs.faulty && r.error.Io?
  {
    ghost var here := fs.Snap();
    r := fs.WriteFile(path, data);
    ConfinedOn(before, here, fs.Snap(), paths, {path});
    forall p | p != path
      ensures SameAt(here.files, fs.files, p)
    {
      SameElsewhere(here.files, fs.files, {path}, p);
    }
  }

  /** Check the path once more, then write it. */
  method WriteChecked(
      fs: FileSystem<FilePath>, path: FilePath, data: Bytes, force: bool,
      ghost before: Snapshot<FilePath>, ghost paths: set<FilePath>)
    returns (r: Result<()>)
    requires fs.Valid() && Confined(before, fs.Snap(), paths) && path in paths
    modifies fs
    ensures fs.Valid() && Confined(before, fs.Snap(), paths)
    ensures OnlyAt(old(fs.files), fs.files, path)
    ensures r == Err(FileExists) <==> path in old(fs.files) && !force
    ensures r.Ok? ==> path in fs.files && fs.files[path] == data
    ensures r.Err? && r.error != FileExists ==> fs.faulty && r.error.Io?
  {
    r := EnsureWritable(fs, path, force);
    if r.Err? { return; }
    r := WritePlain(fs, path, data, before, paths);
  }

  // ---- check everything, then write ---------------------------------------------------------

  predicate Blocked(files: set<FilePath>, base: string, algo: KeyAlgorithm, openssh: bool, force: bool) {
    !force && files * OutputPaths(base, algo, openssh) != {}
  }

  /** By name: which existing files make a run refuse. */
  lemma BlockedExactly(files: set<FilePath>, base: string, algo: KeyAlgorithm, openssh: bool, force: bool)
    ensures Blocked(files, base, algo, openssh, force) <==>
      && !force
      && (|| base + ".cry_id" in files
          || (algo != Aes256Gcm && base + ".cry_pub_id" in files)
          || (algo == Ed25519 && openssh
              && (base + ".cry_id.openssh_id" in files || base + ".cry_id.openssh_pub" in files)))
  {
    OutputNames(base);
    var clash := files * OutputPaths(base, algo, openssh);
    assert forall p :: p in clash <==> p in files && p in OutputPaths(base, algo, openssh);
    if clash != {} {
      var p :| p in clash;
    }
  }

  /** The checks that come before anything is generated or written. */
  method CheckAll(fs: FileSystem<FilePath>, base: string, algo: KeyAlgorithm, openssh: bool, force: bool)
    returns (r: Result<()>)
    ensures r == if Blocked(fs.files.Keys, base, algo, openssh, force) then Err(FileExists) else Ok(())
  {
    ghost var clash := fs.files.Keys * OutputPaths(base, algo, openssh);
    assert forall p :: p in clash <==> p in fs.files && p in OutputPaths(base, algo, openssh);
    r := EnsureWritable(fs, PrivatePath(base), force);
    if r.Err? { assert PrivatePath(base) in clash; return; }
    if algo == Aes256Gcm { return; }
    r := EnsureWritable(fs, PublicPath(base), force);
    if r.Err? { assert PublicPath(base) in clash; return; }
    if algo == Rsa || !openssh { return; }
    r := EnsureWritable(fs, OpensshPath(base), force);
    if r.Err? { assert OpensshPath(base) in clash; return; }
    r := EnsureWritable(fs, OpensshPubPath(base), force);
    if r.Err? { assert OpensshPubPath(base) in clash; return; }
  }

  /** What the files of an Ed25519 identity hold. */
  ghost predicate HoldsIdentity(
      files: map<FilePath, Bytes>, base: string, pair: KeyPair, openssh: bool, sshPass: Option<Bytes>)
  {
    && base + ".cry_id" in files && files[base + ".cry_id"] == Hex.BytesToHex(pair.secret)
    && base + ".cry_pub_id" in files && files[base + ".cry_pub_id"] == Hex.BytesToHex(pair.public)
    && (openssh ==> HoldsOpenssh(files, base, pair, sshPass))
  }

  ghost predicate HoldsOpenssh(files: map<FilePath, Bytes>, base: string, pair: KeyPair, sshPass: Option<Bytes>) {
    && sshPass.Some?
    && base + ".cry_id.openssh_id" in files
    && pair.opensshPrivate(sshPass.value) == Some(files[base + ".cry_id.openssh_id"])
    && base + ".cry_id.openssh_pub" in files
    && files[base + ".cry_id.openssh_pub"] == pair.authorizedKeys + [0x0a]
  }

  /** An OpenSSH pair, if asked for, has a passphrase and can be exported under it. */
  predicate Exportable(openssh: bool, pair: KeyPair, sshPass: Option<Bytes>) {
    openssh ==> sshPass.Some? && pair.opensshPrivate(sshPass.value).Some?
  }

  /** The writing half for an Ed25519 identity; its own checks never trip once all checks have passed. */
  method WriteIdentity(
      fs: FileSystem<FilePath>, base: string, pair: KeyPair, openssh: bool, sshPass: Option<Bytes>, force: bool)
    returns (r: Result<()>)
    requires fs.Valid() && !Blocked(fs.files.Keys, base, Ed25519, openssh, force)
    modifies fs
    ensures fs.Valid() && Confined(old(fs.Snap()), fs.Snap(), OutputPaths(base, Ed25519, openssh))
    ensures r != Err(FileExists)
    ensures r.Ok? ==> HoldsIdentity(fs.files, base, pair, openssh, sshPass)
    ensures r.Ok? ==> Exportable(openssh, pair, sshPass)
    ensures r.Err? && Exportable(openssh, pair, sshPass) ==> fs.faulty
  {
    ghost var before, paths := fs.Snap(), OutputPaths(base, Ed25519, openssh);
    PathsDiffer(base);
    OutputNames(base);
    assert force || forall p :: p in paths && p in before.files ==> p in before.files.Keys * paths;
    r := WriteChecked(fs, PrivatePath(base), Hex.BytesToHex(pair.secret), force, before, paths);
    if r.Err? { return; }
    ghost var one := fs.files;
    assert SameAt(before.files, one, PublicPath(base));
    var fails := Maybe(fs.faulty);
    if fails { return Err(Io(OtherIo)); }
    r := WriteChecked(fs, PublicPath(base), Hex.BytesToHex(pair.public), force, before, paths);
    assert SameAt(one, fs.files, PrivatePath(base));
    if r.Err? || !openssh { return; }
    ghost var two := fs.files;
    assert SameAt(before.files, one, OpensshPath(base)) && SameAt(one, two, OpensshPath(base));
    r := WriteOpenssh(fs, base, pair, sshPass, force, before, paths);
    assert SameAt(two, fs.files, PrivatePath(base)) && SameAt(two, fs.files, PublicPath(base));
  }

  /** The OpenSSH pair; the public half is written without another check. */
  method WriteOpenssh(
      fs: FileSystem<FilePath>, base: string, pair: KeyPair, sshPass: Option<Bytes>, force: bool,
      ghost before: Snapshot<FilePath>, ghost paths: set<FilePath>)
    returns (r: Result<()>)
    requires fs.Valid() && Confined(before, fs.Snap(), paths)
    requires OpensshPath(base) in paths && OpensshPubPath(base) in paths
    modifies fs
    ensures fs.Valid() && Confined(before, fs.Snap(), paths)
    ensures forall p :: p !in {OpensshPath(base), OpensshPubPath(base)} ==> SameAt(old(fs.files), fs.files, p)
    ensures r == Err(FileExists) ==> OpensshPath(base) in old(fs.files) && !force
    ensures r.Ok? ==> HoldsOpenssh(fs.files, base, pair, sshPass)
    ensures r.Err? && r.error != FileExists && Exportable(true, pair, sshPass) ==> fs.faulty
  {
    PathsDiffer(base);
    OutputNames(base);
    if sshPass.None? { return Err(InvalidFormat(MissingPassphrase)); }
    r := EnsureWritable(fs, OpensshPath(base), force);
    if r.Err? { return; }
    var pem := pair.opensshPrivate(sshPass.value);
    if pem.None? { return Err(InvalidFormat(ExportFailed)); }
    r := WritePlain(fs, OpensshPath(base), pem.value, before, paths);
    if r.Err? { return; }
    ghost var one := fs.files;
    r := WritePlain(fs, OpensshPubPath(base), pair.authorizedKeys + [0x0a], before, paths);
    assert SameAt(one, fs.files, OpensshPath(base));
    forall p | p !in {OpensshPath(base), OpensshPubPath(base)}
      ensures SameAt(old(fs.files), fs.files, p)
    {
      assert SameAt(old(fs.files), one, p) && SameAt(one, fs.files, p);
    }
  }

  /** If nothing blocks and force is off, none of the paths existed, so confinement to them loses nothing. */
  lemma UnblockedLosesNothing(
      before: Snapshot<FilePath>, after: Snapshot<FilePath>, base: string, algo: KeyAlgorithm, openssh: bool)
    requires Confined(before, after, OutputPaths(base, algo, openssh))
    requires !Blocked(before.files.Keys, base, algo, openssh, false)
    ensures NothingLost(before, after)
  {
    NewPathsLoseNothing(before, after, OutputPaths(base, algo, openssh));
  }

  /** Fresh key material, as the generators gave it. */
  datatype Generated = Generated(pair: KeyPair, aesKey: Bytes, rsa: Option<(Bytes, Bytes)>)

  /**
     `cry keygen`. It refuses exactly when an output path exists and force is off, and then has
     written nothing; without force no file that existed is ever changed, whatever else goes wrong.
   */
  method Generate(
      fs: FileSystem<FilePath>, base: string, algo: KeyAlgorithm, openssh: bool, force: bool,
      made: Generated, sshPass: Option<Bytes>)
    returns (r: Result<()>)
    requires fs.Valid()
    modifies fs
    ensures fs.Valid() && Confined(old(fs.Snap()), fs.Snap(), OutputPaths(base, algo, openssh))
    ensures r == Err(FileExists) <==> Blocked(old(fs.files.Keys), base, algo, openssh, force)
    ensures r == Err(FileExists) ==> fs.Snap() == old(fs.Snap())
    ensures !force ==> NothingLost(old(fs.Snap()), fs.Snap())
    ensures !fs.faulty ==>
              (r.Ok? <==>
                 && !Blocked(old(fs.files.Keys), base, algo, openssh, force)
                 && (algo == Ed25519 ==> Exportable(openssh, made.pair, sshPass))
                 && (algo == Rsa ==> made.rsa.Some?))
    ensures r.Ok? && algo == Ed25519 ==> HoldsIdentity(fs.files, base, made.pair, openssh, sshPass)
    ensures r.Ok? && algo == Aes256Gcm ==>
              base + ".cry_id" in fs.files && fs.files[base + ".cry_id"] == Hex.BytesToHex(made.aesKey)
    ensures r.Ok? && algo == Rsa ==>
              && made.rsa.Some?
              && base + ".cry_id" in fs.files && fs.files[base + ".cry_id"] == made.rsa.value.0
              && base + ".cry_pub_id" in fs.files && fs.files[base + ".cry_pub_id"] == made.rsa.value.1
  {
    ghost var before, paths := fs.Snap(), OutputPaths(base, algo, openssh);
    PathsDiffer(base);
    OutputNames(base);
    r := CheckAll(fs, base, algo, openssh, force);
    if r.Err? { return; }
    match algo {
      case Ed25519 =>
        r := WriteIdentity(fs, base, made.pair, openssh, sshPass, force);
      case Aes256Gcm =>
        assert PrivatePath(base) in fs.files ==> PrivatePath(base) in fs.files.Keys * paths;
        r := WriteChecked(fs, PrivatePath(base), Hex.BytesToHex(made.aesKey), force, before, paths);
      case Rsa =>
        if made.rsa.None? {
          r := Err(InvalidFormat(GenerationFailed));
        } else {
          r := WritePlain(fs, PrivatePath(base), made.rsa.value.0, before, paths);
          if r.Ok? {
            ghost var one := fs.files;
            r := WritePlain(fs, PublicPath(base), made.rsa.value.1, before, paths);
            assert SameAt(one, fs.files, PrivatePath(base));
          }
        }
    }
    if !force { UnblockedLosesNothing(before, fs.Snap(), base, algo, openssh); }
  }

  /**
     `cry derive`. The same refusals; the key written is a function of the passphrase and of the
     namespace, version and sub-identity, through the salts of SaltEncoding and AesSalt.
   */
  method Derive(
      fs: FileSystem<FilePath>, suite: Suite, keysOf: Bytes -> KeyPair, pass: Bytes,
      namespace: Bytes, version: u32, sub: Option<Bytes>,
      base: string, algo: KeyAlgorithm, openssh: bool, force: bool, sshPass: Option<Bytes>)
    returns (r: Result<()>)
    requires fs.Valid()
    modifies fs
    ensures fs.Valid() && Confined(old(fs.Snap()), fs.Snap(), OutputPaths(base, algo, openssh))
    ensures r == Err(FileExists) <==> algo != Rsa && Blocked(old(fs.files.Keys), base, algo, openssh, force)
    ensures r == Err(FileExists) || algo == Rsa ==> fs.Snap() == old(fs.Snap())
    ensures !force ==> NothingLost(old(fs.Snap()), fs.Snap())
    ensures algo == Rsa ==> r == Err(InvalidFormat(RsaDerivationDisabled))
    ensures !fs.faulty ==>
              (r.Ok? <==>
                 && algo != Rsa && !Blocked(old(fs.files.Keys), base, algo, openssh, force)
                 && (algo == Ed25519 ==>
                       var seed := suite.kdf(pass, suite.sha256(SaltEncoding.Preimage(namespace, version, sub))[..16]);
                       seed.Some? && Exportable(openssh, keysOf(seed.value), sshPass))
                 && (algo == Aes256Gcm ==>
                       suite.kdf(pass, suite.sha256(AesSalt.SaltInput(namespace, version, sub))).Some?))
    ensures r.Ok? && algo == Ed25519 ==>
              var seed := suite.kdf(pass, suite.sha256(SaltEncoding.Preimage(namespace, version, sub))[..16]);
              seed.Some? && HoldsIdentity(fs.files, base, keysOf(seed.value), openssh, sshPass)
    ensures r.Ok? && algo == Aes256Gcm ==>
              var key := suite.kdf(pass, suite.sha256(AesSalt.SaltInput(namespace, version, sub)));
              && key.Some?
              && base + ".cry_id" in fs.files && fs.files[base + ".cry_id"] == Hex.BytesToHex(key.value)
  {
    ghost var before, paths := fs.Snap(), OutputPaths(base, algo, openssh);
    OutputNames(base);
    if algo == Rsa { return Err(InvalidFormat(RsaDerivationDisabled)); }
    r := CheckAll(fs, base, algo, openssh, force);
    if r.Err? { return; }
    if algo == Ed25519 {
      var salt := SaltEncoding.DeriveSalt(suite, namespace, version, sub);
      var seed := suite.kdf(pass, salt);
      if seed.None? {
        r := Err(Kdf);
      } else {
        r := WriteIdentity(fs, base, keysOf(seed.value), openssh, sshPass, force);
      }
    } else {
      var key := suite.kdf(pass, suite.sha256(AesSalt.SaltInput(namespace, version, sub)));
      if key.None? {
        r := Err(Kdf);
      } else {
        assert PrivatePath(base) in fs.files ==> PrivatePath(base) in fs.files.Keys * paths;
        r := WriteChecked(fs, PrivatePath(base), Hex.BytesToHex(key.value), force, before, paths);
      }
    }
    if !force { UnblockedLosesNothing(before, fs.Snap(), base, algo, openssh); }
  }
}
