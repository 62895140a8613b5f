/** Integrity carried through to the file system: what a decryption can leave behind. */
module HonestOutputs {
  import opened ByteStrings
  import opened Outcomes
  import opened Streams
  import opened Container
  import opened NoSplice
  import opened FileCipher

  /** The run whose plaintext an input without forgeries decrypts to, if it is accepted. */
  lemma Origin(w: History, input: Bytes) returns (origin: Option<Run>)
    requires NoForgery(w, input)
    ensures origin.Some? <==> DecryptedFile(w.suite, w.chunk, w.pass, input).Ok?
    ensures origin.Some? ==>
              origin.value in w.runs && DecryptedFile(w.suite, w.chunk, w.pass, input) == Ok(origin.value.plain)
  {
    origin := None;
    if DecryptedFile(w.suite, w.chunk, w.pass, input).Ok? {
      var r, tail := AcceptedIsOneHonestFile(w, input);
      origin := Some(r);
    }
  }

  /**
     Decrypt what may have been tampered with. If the input holds no forgery, then in every state
     on the way, on any system, the target is as before or holds the whole plaintext of one honest
     run; a run that got as far as the rename leaves that plaintext.
   */
  method DecryptForgeryFree(
      fs: FileSystem<Path>, w: History, plainPath: Path, cipherPath: Path, force: bool)
    returns (r: Result<()>, ghost input: Bytes, ghost ending: Ending, ghost origin: Option<Run>)
    requires fs.Valid() && (cipherPath in fs.files ==> |fs.files[cipherPath]| < TWO64)
    modifies fs
    ensures fs.Valid()
    ensures origin.Some? ==> origin.value in w.runs
    ensures plainPath.name.Some? && NoForgery(w, input) ==>
              AllHarmless(
                old(fs.Snap()), fs.Snap(), WithExtension(plainPath, "plain.tmp"), plainPath,
                if origin.Some? then Some(origin.value.plain) else None)
    ensures NoForgery(w, input) && ending.Renamed? ==>
              origin.Some? && plainPath in fs.files && fs.files[plainPath] == origin.value.plain
    ensures plainPath.name.Some? && !ending.Renamed? ==> SameAt(old(fs.files), fs.files, plainPath)
    ensures r.Ok? ==> ending.Renamed?
  {
    r, input, ending := DecryptFile(fs, w.suite, w.chunk, plainPath, cipherPath, w.pass, force);
    origin := None;
    if NoForgery(w, input) {
      origin := Origin(w, input);
    }
  }
}
