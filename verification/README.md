# Cry: a verified model

A Dafny 4.11 model of the parts of `cry` on which its users' data depends, with proofs of what
those parts guarantee. `dafny verify dfyconfig.toml` checks everything.

- **The `.cry` container.** A 73-byte authenticated header and length-prefixed AEAD chunks.
  `Container` says what a file means, `ContainerTheorems` and `NoSplice` what follows from it,
  `ChunkLoops` proves the streaming loops against it, and `FileCipher` the temporary-file protocol
  around them; `HonestOutputs` carries integrity through to the files written. What is proved of
  frames holds for every way of opening them (`Opener`). `Headers` and `ChunkNonces` are the header and the 96-bit nonce counter.
- **The environment.** `Streams` has readers that may be short or interrupted, a file system that
  records every state it passes through, and buffered writers whose bytes reach the file at any
  later time. Each operation is nondeterministic where the operating system is; `faulty` lets any
  operation fail. `volatile` means that another program may change files meanwhile: what a file
  delivers and what length it reports may then be anything (the recorded states are those this
  program makes). So a contract holds for every schedule and every failure it does not exclude.
- **Cryptography.** `Crypto` keeps AEADs, SHA-256, HMAC and Argon2id as functions. `Suite` is the
  type of those that obey the laws used: opening undoes sealing and accepts nothing else, a tag has
  16 bytes, digests, tags and derived keys have 32. A toy instance shows the laws are consistent.
  No law says that something cannot be forged; the one theorem that needs this (`NoSplice`) assumes
  it of the frames and the header of the file at hand, and only there.
- **Contexts and codecs.** `SaltEncoding` and `AesSalt` (the texts hashed into salts), `Hex`,
  `Identity` (content signatures), `Keygen` (output files) and `SshAgent` (agent output). The first
  four work on the bytes of strings; `Utf8` says which byte strings are text.

Objects that the source updates are classes (`Reader`, `FileSystem`, `BufWriter`, `Hasher`, `Mac`,
`Splitter`); loops are methods with invariants; expressions are functions. Long functions of the source
are divided (`EncryptFile` into `EncryptToTemp`, `WriteEncryption` and `Conclude`, say), in its order of steps. The chunk size is any
number C with 1 <= C and C + 64 < 2^32; the program's is `CHUNK_SIZE`. Machine integers are `u32` and
`u64`, so that every increment and cast is proved to stay in range.

## Where code and documentation differ

The model follows the code.

- src/cipher.rs:283 likens the nonce to that of TLS 1.3; section 5.3 of RFC 8446 uses XOR, the code adds.
- src/cipher.rs:21-22 says a failed run leaves no partial file. A failing rename leaves the complete
  temporary file, and a failing length query after the rename returns an error with the new file in
  place (`EncryptFile`, `DecryptFile`: `ending` is `RenameFailed`, or `Renamed` with an error). A
  source that has the name of the temporary file is overwritten and ends up gone (`TempMayBeSource`,
  `EncryptFile`).
- docs/architecture-and-security.md calls the format strict; up to three bytes after the last frame
  are accepted (`ExtensionAcceptedIffShort`), and a frame may hold up to 48 plaintext bytes more than
  any the encryptor writes (`LongFrame`).
- src/crydna.rs:36-37 says every (namespace, version, sub-identity) has its own salt. Two namespaces can
  share one exactly when `SaltEncoding.Extends` relates them, also if all strings are text;
  `ColonCollision` is a concrete pair.
- docs/identity-and-ssh.md says any change of context changes the key. For AES keys an absent and an
  empty sub-identity are the same, and namespaces related by `AesSalt.Extends` can be confused
  (`BarCollision` is a concrete pair).
- src/crydna.rs:331 describes hex input; a plus sign in a pair's first place is accepted too, and text
  outside ASCII can panic (`DecodesExactly`, `TextPanicsExactly`, `SomeTextPanics`).

## Model

| member | source | states |
|---|---|---|
| `ChunkNonces.DeriveChunkNonce` | src/cipher.rs:285-298 | the two-word add with carry, copied into a buffer, is addition of the index modulo 2^96 on the big-endian base, for every base and every 64-bit index |
| `ChunkNonces.ChunkNonceValue` | src/cipher.rs:281-284 | the nonce, read back as a number, is (base + index) mod 2^96 |
| `ChunkNonces.NoncesCoincideIff` | src/cipher.rs:285-298 | nonces of two bases at i and j are equal if and only if the bases differ by j - i modulo 2^96 |
| `ChunkNonces.NonceInjective` | src/cipher.rs:559-568 | under one base no two 64-bit indices share a nonce, through carry and wrap |
| `ChunkNonces.CountersOverlapIff` | src/cipher.rs:16-19 | two files share some nonce if and only if one base lies fewer than the other file's chunk count after the other base |
| `Headers.DeriveHmacSubkey` | src/header.rs:118-128 | the one-HMAC computation is HKDF-Expand (section 2.3 of RFC 5869, defined in general) of the master key to 32 bytes |
| `Headers.ComputeHmac` | src/header.rs:132-138 | the header tag is the HMAC, under the HMAC of "cry-header-hmac-v2" and 0x01 under the master key, of magic, algorithm, salt, nonce and chunk count in this order |
| `Headers.WriteHeader` | src/header.rs:141-147 | on success exactly the 73 header bytes are appended to the output; it fails only if the writer does |
| `Headers.ReadHeader` | src/header.rs:154-206 | reading field by field from any stream gives the result `HeaderJudged` lays down for its bytes, one condition per result: in particular HeaderTampered whenever bytes 41 to 73 are not the HMAC of the first 41; a read that fails counts as a header too short |
| `Headers.ParseHeaderExactly` | src/header.rs:154-206 | every byte string gets exactly that result |
| `Headers.HeaderLayout` | src/header.rs:99-147 | a written header has magic, algorithm byte, salt, nonce and count at their offsets and a tag over the 41 bytes before it |
| `Headers.ReadOfWritten` | src/header.rs:141-206 | a written header, whatever follows it, is read back under the same key |
| `Headers.WrittenOfRead` | src/header.rs:154-206 | any bytes accepted as a header are byte for byte what writing the returned header emits |
| `Headers.PreHmacInjective` | src/header.rs:99-107 | different headers have different authenticated bytes |
| `Headers.ComputeHeaderAad` | src/cipher.rs:258-267 | hashing the fields one by one is hashing the 41 serialised bytes in one piece |
| `Headers.HeaderAadBinds` | src/cipher.rs:255-267 | different headers with equal additional data are a collision of SHA-256 on their 41 bytes |
| `Headers.ChunkAadInjective` | src/cipher.rs:270-275 | a chunk's additional data determines the file's hash and the index |
| `Streams.Reader.ReadChunk` | src/cipher.rs:401-412 | for every schedule of short reads and interrupts it takes min(buffer, remaining) bytes, in order, and terminates; it fails only if the reader fails |
| `Streams.Reader.ReadExact` | src/cipher.rs:363-378 | all the bytes asked for, or end of file exactly when fewer are left |
| `Streams.BufWriter.WriteAll` | src/cipher.rs:326-328 | the bytes are accepted in order; meanwhile the file holds a prefix of what was accepted and no other path changes |
| `Streams.BufWriter.Flush` | src/cipher.rs:120 | on success the file holds exactly what was accepted |
| `Streams.FileSystem.Rename` | src/cipher.rs:136 | one step that moves the contents, or no step at all |
| `ContainerTheorems.ChunksConcat` | src/cipher.rs:316-341 | the chunks are the plaintext in order, none empty, none above the chunk size |
| `ContainerTheorems.ChunkCount` | src/cipher.rs:77-79 | the number of chunks is the committed ceil(length / chunk size), for empty inputs and exact multiples too |
| `ContainerTheorems.HonestPayloads` | src/cipher.rs:322-330 | every list of chunks can be sealed; the frames are within the reader's cap, open again at their own index, and cost 20 bytes each |
| `ContainerTheorems.FrameAtFront` | src/cipher.rs:326-328 | a frame's length survives the 32-bit cast and is read back as its payload's length |
| `ContainerTheorems.FramesThenAnything` | src/cipher.rs:361-391 | reading well-opening frames followed by anything gives their parts and goes on with the rest at the next index |
| `ContainerTheorems.CutFrames` | src/cipher.rs:361-378 | frames cut anywhere: the cut leaves m whole frames and t further bytes; below four bytes exactly those m frames are read, from four on the reader runs out of input |
| `ContainerTheorems.CountAdvances` | src/cipher.rs:385 | four more bytes are never skipped silently, and the count is at most a quarter of the body's length |
| `ContainerTheorems.LongFrame` | src/cipher.rs:369-374 | a body of one sealed frame is accepted if its plaintext has at most chunk size + 48 bytes, and is SuspiciousChunkLen beyond |
| `ContainerTheorems.AcceptedExactly` | src/cipher.rs:350-398 | a body is accepted with output P if and only if it is the committed number of frames, each within the cap and opening under its own index, plus fewer than four bytes, and P is what they open to |
| `ContainerTheorems.RejectedExactly` | src/cipher.rs:361-391 | a body is rejected with error E if and only if it is opening frames followed by one that fails with E: too long before missing bytes, missing bytes before a failed opening, with its index |
| `ContainerTheorems.SplitUnique` | src/cipher.rs:361-378 | there is only one such division of a body |
| `ContainerTheorems.AcceptedUnderOwnSalt` | src/cipher.rs:186-198 | an accepted file's key came from the salt of its authenticated header although the salt was used before being checked; the file starts with that header as written under that key, and the rest is judged in its session |
| `ContainerTheorems.FileVerdict` | src/cipher.rs:181-229 | how any file is judged, by its own bytes and in this order: size, key derivation, magic, algorithm, tag (where a wrong passphrase shows), then the body under the cipher, nonce and hash that its first 41 bytes give |
| `ContainerTheorems.RoundTrip` | src/cipher.rs:495-529 | decrypting an encrypted file gives the plaintext, and its length is 73 + L + 20 ceil(L / C) |
| `ContainerTheorems.FileLayout` | src/cipher.rs:316-330 | frame k of an honest file, byte by byte: at 73 + k(C + 20) its length in four bytes and then bytes kC to (k+1)C of the plaintext, sealed by the cipher byte 4 names under nonce + k with the hash of the first 41 bytes and k as additional data |
| `ContainerTheorems.OpensExactly` | src/cipher.rs:441-462 | a payload opens at an index to M if and only if sealing M by the named cipher under that index's nonce and additional data gives it |
| `ContainerTheorems.ExtensionAcceptedIffShort` | src/cipher.rs:363-365 | bytes appended to an honest file are accepted, and ignored, if and only if they are fewer than four |
| `ContainerTheorems.PrefixRejected` | src/cipher.rs:222-227 | every proper prefix of an honest file is rejected, with exactly this error: too short within the header, Truncated with the number of whole frames if fewer than four bytes follow them, end of file otherwise |
| `NoSplice.FrameHasOnePlace` | src/cipher.rs:9-11 | the additional data of a chunk is used for no other chunk of any honest run: what was sealed under it is that run's chunk at that index |
| `NoSplice.AcceptedIsOneHonestFile` | src/cipher.rs:5-14 | an accepted file without a forged header or frame is the file of the run that wrote its header plus at most three bytes, and decrypts to that run's plaintext |
| `NoSplice.HonestFileHasNoForgery` | src/cipher.rs:350-398 | honest files, with fewer than four bytes appended or none, meet that hypothesis |
| `NoSplice.AcceptedIff` | src/cipher.rs:5-14 | a file is accepted and free of forgeries if and only if it is an honest run's file plus at most three bytes |
| `ChunkLoops.EncryptChunk` | src/cipher.rs:418-439 | the cipher named by the header seals under the chunk's own nonce and additional data |
| `ChunkLoops.DecryptChunk` | src/cipher.rs:441-462 | the same for opening; failure is DecryptionFailed |
| `ChunkLoops.EncryptNext` | src/cipher.rs:316-341 | one turn moves one chunk from what is left to what is written; the reused buffer contributes only the bytes just read |
| `ChunkLoops.EncryptChunks` | src/cipher.rs:304-348 | for every reader schedule the output is exactly the frames of the input's chunks and the count is theirs |
| `ChunkLoops.DecryptChunks` | src/cipher.rs:350-398 | for every reader schedule the result, value or error, and the output are those of the frame-by-frame meaning of the body |
| `FileCipher.WithExtensionFixes` | src/cipher.rs:99 | `with_extension` leaves a path unchanged if and only if it has no ordinary name or already ends in that extension |
| `FileCipher.WithExtensionNames` | src/cipher.rs:99 | the last extension is replaced; a name without one, or whose only dot comes first, gets the new one added |
| `FileCipher.TempIsNotTarget` | src/cipher.rs:204 | with a dotted extension the temporary path differs from the target exactly when the target has an ordinary name |
| `FileCipher.TempMayBeSource` | src/cipher.rs:99 | the temporary path can be the source's |
| `FileCipher.Conclude` | src/cipher.rs:134-144 | rename on success, removal on failure; on any system, what each ending leaves behind (`Left`): the new target, the complete temp after a failed rename, no temp after a removal, the partial temp only if its removal failed |
| `FileCipher.OldOrComplete` | src/cipher.rs:21-22 | what the file theorems say of states means: at every path but the temp, every state has what was there before or, at the target, everything |
| `FileCipher.WriteEncryption` | src/cipher.rs:108-131 | success means the committed count is the number of chunks read and the file holds the encryption of exactly those bytes |
| `FileCipher.EncryptToTemp` | src/cipher.rs:101-132 | only the temporary path changes; with a stable source and sound system it succeeds, so the count check never fires |
| `FileCipher.EncryptFile` | src/cipher.rs:63-152 | on any system, in every intermediate state the target is as before or the complete encryption of the bytes read, and only temp and target differ; after the rename the target starts with the requested algorithm, the salt, the nonce and the count of the bytes read, authenticated; each ending leaves what `Left` says, so an error of the write phase leaves the old target and no temp unless removing it failed too; Ok only after the rename; the source is untouched, or gone if it had the temp's name; FileExists exactly when the target exists and force is off, Io for a missing source, Kdf if no key can be derived |
| `FileCipher.OpenSession` | src/cipher.rs:181-202 | after the header, what remains to be decided is the body's meaning under the accepted header and key |
| `FileCipher.WriteDecryption` | src/cipher.rs:210-229 | success means the body is accepted with the committed count and the file holds its plaintext |
| `FileCipher.DecryptFile` | src/cipher.rs:159-249 | the same for decryption: the target is only ever as before or the complete plaintext, and a file that is rejected never gets as far as the rename; on a sound system the result, value or error, is the one the file's contents determine |
| `HonestOutputs.DecryptForgeryFree` | src/cipher.rs:159-249 | on any system, if the input holds no forgery, the target is in every state as before or holds the whole plaintext of one honest run, and holds that plaintext after the rename |
| `FileCipher.WhateverWasReadDecrypts` | src/cipher.rs:122-129 | the file of a successful encryption decrypts to exactly the bytes read, also if the source changed meanwhile |
| `FileCipher.EncryptThenDecrypt` | src/cipher.rs:495-529 | both runs in a row restore the source |
| `Hex.DecodesExactly` | src/crydna.rs:332-340 | a text decodes to b if and only if its canonical spelling (lower case, leading plus of a pair as zero) is the hex of b |
| `Hex.DecodeOfEncode` | src/crydna.rs:327-340 | decoding undoes encoding for every byte string |
| `Hex.DecodesPairwise` | src/crydna.rs:332-340 | a text decodes to b if and only if its pairs of characters are, one by one, the digits of b in either case, or a plus sign and a digit |
| `Hex.EncodesPairwise` | src/crydna.rs:327-329 | encoding writes each byte as its two lowercase digits, high one first |
| `Hex.PanicsExactly` | src/crydna.rs:336-339 | slicing panics if and only if some pair, all pairs before it having values, cuts a multi-byte character |
| `Hex.TextPanicsExactly` | src/crydna.rs:336-339 | on UTF-8 text that is a pair that ends inside a character |
| `Hex.SomeTextPanics` | src/crydna.rs:336-339 | there is such a text |
| `Utf8.TextExactly` | src/crydna.rs:332-340 | the byte strings called text are exactly the UTF-8 encodings of sequences of characters |
| `Hex.AsciiNeverPanics` | src/crydna.rs:332-340 | ASCII text never panics |
| `Identity.SignContent` | src/crydna.rs:225-232 | the signature is over the domain-tagged hash of the content's hash and verifies under the signer's key |
| `Identity.SignedMessageBinds` | src/crydna.rs:218-232 | a signature binds the content: two contents with one signed message are a SHA-256 collision, of themselves or of their tagged hashes |
| `Identity.VerifyContentSignature` | src/crydna.rs:247-283 | which verdict each input gets, by what its texts spell: accepted, VerificationFailed, bad key, bad signature and a panic of the decoder each occur exactly under the condition `Judges` gives |
| `Identity.OneVerdict` | src/crydna.rs:247-283 | these conditions exclude each other and leave no input without a verdict |
| `Identity.AcceptsExactly` | src/crydna.rs:247-283 | accepted exactly if both texts spell the hex of a well-formed key and of a signature that verifies |
| `Identity.HonestSignatureAccepted` | src/crydna.rs:225-283 | an honest signature and key pass through hex, in any accepted spelling |
| `SaltEncoding.DeriveSalt` | src/crydna.rs:293-305 | the salt is the first 16 bytes of the hash of the whole pre-image |
| `SaltEncoding.PreimageLayout` | src/crydna.rs:293-305 | what is hashed, in its place: "CryDNA-v1:", namespace, ":v", the version in four bytes, and ":sub:" with the sub-identity if there is one |
| `SaltEncoding.OneNamespaceInjective` | src/crydna.rs:293-305 | within a namespace version and sub-identity are determined, None and Some("") distinct |
| `SaltEncoding.NamespacesConfusedIff` | src/crydna.rs:293-305 | two different namespaces share a pre-image for some versions and sub-identities if and only if one is the other plus a tail of one of the listed shapes |
| `SaltEncoding.TextNamespacesConfusedIff` | src/crydna.rs:293-305 | the same between UTF-8 texts, the colliding sub-identities being text too |
| `SaltEncoding.UnambiguousIff` | src/crydna.rs:36-37 | a set of namespaces gives every identity its own pre-image if and only if none extends another that way |
| `SaltEncoding.TextUnambiguousIff` | src/crydna.rs:36-37 | the same for sets of texts and identities that are text |
| `SaltEncoding.ColonFreeIsUnambiguous` | src/crydna.rs:36-37 | colon-free namespaces do |
| `SaltEncoding.ColonCollision` | src/crydna.rs:293-305 | a colliding pair of ordinary identities |
| `AesSalt.DecimalInjective` | src/keygen.rs:195-196 | decimal printing is injective |
| `AesSalt.DecimalLaws` | src/keygen.rs:195-196 | printing goes digit by digit |
| `AesSalt.SaltInputLayout` | src/keygen.rs:193-197 | what is hashed, in its place: the 24 characters from "cry:derive" to "ns=", the namespace, the ver mark, the version in decimal, the sub mark and the sub-identity |
| `AesSalt.DomainsSeparate` | src/keygen.rs:190-197 | no AES salt input is an identity's pre-image |
| `AesSalt.OneNamespaceIff` | src/keygen.rs:193-197 | within a namespace inputs are equal if and only if versions are and the sub-identities are, an absent one counting as empty |
| `AesSalt.NamespacesConfusedIff` | src/keygen.rs:194-197 | two namespaces share an input if and only if one is the other followed by a printed version and sub mark |
| `AesSalt.TextNamespacesConfusedIff` | src/keygen.rs:194-197 | the same between UTF-8 texts |
| `AesSalt.BarCollision` | src/keygen.rs:194-197 | a colliding pair of ordinary identities |
| `AesSalt.BarFreeInjective` | src/keygen.rs:190-198 | without a bar in namespaces the input determines everything, up to an absent sub-identity being empty |
| `Keygen.PathsDiffer` | src/keygen.rs:228-258 | the four output paths of a base are pairwise different |
| `Keygen.CheckAll` | src/keygen.rs:76-81 | the checks refuse exactly if force is off and some output path exists |
| `Keygen.BlockedExactly` | src/keygen.rs:231-258 | which files block, by name: .cry_id, .cry_pub_id unless the key is AES, .cry_id.openssh_id and .cry_id.openssh_pub if asked for |
| `Keygen.WriteIdentity` | src/keygen.rs:84-103 | once all checks have passed, the checks repeated before each write never trip; success leaves the right contents in every file, and on a sound system only a missing passphrase or a failed export prevents it |
| `Keygen.UnblockedLosesNothing` | src/keygen.rs:221-226 | confinement to unblocked outputs keeps every file that existed, in every state |
| `Keygen.Generate` | src/keygen.rs:72-136 | FileExists if and only if blocked, and then nothing was written; without force no existing file ever changes, whatever fails; contents on success; on a sound system success exactly if nothing blocks and the material asked for could be made and exported |
| `Keygen.Derive` | src/keygen.rs:141-219 | the same, and the key written is the derived one of the context's pre-image; RSA is refused without touching anything; on a sound system success exactly if nothing blocks and the key can be derived and exported |
| `SshAgent.ExtractVar` | src/ssh.rs:440-458 | the line loop with its early returns computes the first decisive line's result |
| `SshAgent.RecoveredIff` | src/ssh.rs:444-455 | a variable's own line gives its value back if and only if the line's syntax can carry the value |
| `SshAgent.OwnLine` | src/ssh.rs:441-455 | what a variable's own line gives for any value, in either syntax |
| `SshAgent.BareSetenvStops` | src/ssh.rs:449-453 | a setenv of the variable without a value ends the search with nothing |
| `SshAgent.TrimExactly` | src/ssh.rs:441 | trimming takes exactly the white space off both ends |
| `SshAgent.DropSemicolonsExactly` | src/ssh.rs:453 | exactly the semicolons at the end go |
| `SshAgent.LineEndings` | src/ssh.rs:440 | lines end in a line feed with or without a carriage return, which the last may lack |
| `SshAgent.OtherNamePassed` | src/ssh.rs:441-456 | the line of another variable, in either syntax, is passed over |
| `SshAgent.FindsFirstRendered` | src/ssh.rs:436-458 | on any output, mixing both syntaxes in any order with other variables' lines of any value and with any lines that do not define the variable, it finds the first rendered value, or nothing if there is none |
| `SshAgent.FindsRendered` | src/ssh.rs:436-458 | if one line defines the variable, that is its value |

## Left out

- The insides of AES-GCM, ChaCha20-Poly1305, SHA-256, HMAC, Argon2id, Ed25519, RSA, Base64 and the OpenSSH key format: library code, kept as functions.
- src/kdf.rs: a deterministic, possibly failing function of passphrase and salt.
- src/main.rs and src/bench.rs: command line, prompts, timing.
- src/ssh.rs apart from `extract_var`: foreign processes and platform permissions.
- `ssh_wire_public_key`, fingerprints and text formats of public keys: fixed concatenations.
- Random salts, nonces and keys are parameters; so is the passphrase. Zeroing of memory, file permissions, progress output and message texts have no counterpart; error values keep their kind and numbers.
- Loss of power, other processes beyond changing a source while it is read, links and other aliases of one path; two paths are the same file only if they are equal.
- A file's length is below 2^64, as its type in the source says.
- `ContainerTheorems.SealedLength`: EncryptionFailed cannot occur for chunks below 2^32 bytes, so the loop's proof has no branch for it.
- `NoSplice.AcceptedIsOneHonestFile`: unforgeability and the collision freedom of the hash are hypotheses about the file and the runs, because the primitives are abstract.
- `Keygen.Derive`: how a seed becomes a key pair is a parameter.
- `SaltEncoding.DeriveSalt`: distinct pre-images may still share 16 bytes of their hashes; the proofs are about the pre-images.
