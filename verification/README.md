# minisign: key files, signature files and the transactions that write them

minisign keeps a secret key in a text file, writes detached signatures as text files of four lines,
and exists in two implementations, one in C (`src/`) and one in Rust (`rs/`), that must read each
other's files. This project models what can go wrong between a key and a disk, and between the two
implementations, and proves that it does not, or exactly when it does:

* **The keypair transaction** (`Disk`, `Keypair`, `KeypairExact`, `KeypairWriter`, `CreateOnly`,
  `ForceLock`, `Forced`). Every transaction is a finite tree of system calls; each call may fail, a crash is a run
  cut short, and concurrent runs are interleavings of calls. Proved: when the old key is never lost
  and when rollback is exact, that concurrent creation publishes one matched pair and replaces
  nothing, that forced runs exclude each other until a lock is judged stale; and that each
  transaction succeeds, with what result, when its calls are let through.
* **Single-file writers** (`AtomicWrite`, `FileWriter`, `SignatureWriter`, `SignatureWrites`). A reader
  sees the old or the new contents, never a part; the plain create does not have this property, and a
  lemma shows it.
* **Power cuts** (`PowerLoss`). A directory loses what happened to it since it was last synchronised,
  and a file contents that were not. The synchronisation calls come in time: no key and no complete
  file is lost by a cut at any point of a key transaction or an atomic write.
* **The codecs of both sides** (`Base64`, `Base64Buffers`, `Utf8`, `Utf8Scanner`, `CStrings`,
  `Lines`, `SignatureText`, `CSignature`, `CFiles`). The C loops run on buffers in the model as they do in the
  source and are proved against an encoding and a grammar; acceptance languages are exact; what Rust
  writes C reads, and the comment limits are the largest for which that holds.
* **Key encryption and KDF parameters** (`LittleEndian`, `Kdf`, `SecretKey`, `CSecretKey`,
  `KdfMinimum`, `Reading`, `PasswordChange`). Round trips, byte-for-byte agreement of C and Rust, and the crash
  safety of a password change over any history.
* **Batch signing over aliased paths** (`Paths`, `Gaps`, `Batch`, `BatchJobs`, `BatchOrder`,
  `BatchOutcome`). Path
  resolution against the kernel's walk through directories and links; the checks before a batch; no
  input is touched; exactly when every interleaving of the jobs ends as the sequential run does.
* **Signing and verifying** (`SignVerify`), end to end over an abstract signature scheme.

Conventions. A byte is a `bv8` and a text is its bytes. A file name in `Disk` is the canonical name
of a directory entry. `faults: set<Phase>` names the kinds of call that may fail in a run; a call
outside it goes through. Where the source loops or fills buffers, a method does so, and its
postcondition equates the result with a specification function; the lemmas are about that function.
Cryptographic primitives are parameters of function type, with the laws they must satisfy stated as
hypotheses (`Primitives.WellSized`, `Scheme.Correct`, `SameKdf`).

Six promises turned out not to hold as stated, and the project says exactly when they do.

* An existing secret key can be lost if `Path::exists` reports an error on it as absence, and only
  then (`Keypair.NoLostKey`).
* Rollback is exact if and only if no forward call can fail, or undo calls go through and no existing
  file can be taken for absent (`KeypairExact.ExactRollbackIff`).
* The buffer size `xfput_b64` computes meets the encoder's demand if and only if the product by four
  does not wrap (`Base64Buffers.XfputSizeSuffices`).
* C and Rust agree about the password of a key file if and only if its limits reach C's minimum of
  operations, an exponent of 10: below it Rust writes and opens keys for which C's library derives
  with another parallelism (`KdfMinimum.AgreeIff`, `KdfMinimum.UnreadableByC`).
* A path that ends in `/` or `.` resolves to the entry the kernel uses if and only if no symbolic link
  stands before the dots (`Paths.FinalDots`; `Paths.SlashAfterLink` is an input).
* The order of a batch's jobs matters if and only if the key path lacks an entry on its way to further
  components, a job that can sign its message writes its signature there, and there is another job
  (`BatchOrder.OrderMattersIff`; `BatchOrder.MissingKeyMatters` is an input). A key path that exists
  rules this out.

## Model

| member | source | states |
|---|---|---|
| `Keypair.NoLostKey` | rs/src/ops/generate.rs:590-707 | with any forward, cleanup, rollback and finish calls failing and a crash anywhere, the old secret key is complete under its name or its backup's until the commit has returned Ok with the new key in place; if and only if the existence check of the secret path cannot fail |
| `Keypair.OverwriteCanLose` | rs/src/ops/generate.rs:618-640 | when that check can fail, from every directory that holds an old key some run loses it |
| `Keypair.OverwriteReaches` | rs/src/ops/generate.rs:590-707 | every reachable configuration keeps the whole invariant: nothing else touched, no loss, tidiness, exact outcome |
| `Keypair.ExactRollback` | rs/src/ops/generate.rs:618-706 | from all four initial existence combinations, with undo calls going through and no existing file taken for absent, an error leaves both final paths exactly as they were, Ok leaves both new files and nothing staged, and no other name is touched at any step |
| `KeypairExact.ExactRollbackIff` | rs/src/ops/generate.rs:618-706 | every run that ends leaves the old pair or the new one if and only if no forward call can fail, or undo calls go through and no existing file can be taken for absent |
| `KeypairExact.OverwriteSucceeds` | rs/src/ops/generate.rs:590-707 | unless a forward call fails the transaction succeeds, whatever was there and whatever the existence checks report; and if backups can be deleted, the directory differs from before in exactly the two files |
| `Keypair.StageIsExact` | rs/src/ops/generate.rs:826-871 | whatever the final paths hold when the commit begins and for every fault pattern, the stage an error reports is exactly the set of renames done since: those paths hold the new files and their staged names are free, any other path holds what it held and its staged file is complete |
| `Keypair.RollbackKept` | rs/src/ops/generate.rs:781-824 | the rollback of each stage restores both paths, and even when its own calls fail it loses no key |
| `KeypairWriter.WriteTempFile` | rs/src/ops/generate.rs:407-432 | the method carries out exactly the staging program: same calls, same order, same branches |
| `KeypairWriter.CommitKeypairFiles` | rs/src/ops/generate.rs:826-871 | the method carries out exactly the commit program |
| `KeypairWriter.RollbackKeypairCommit` | rs/src/ops/generate.rs:781-824 | the method carries out exactly the rollback program of the stage |
| `KeypairWriter.WriteKeypairFilesWithOverwrite` | rs/src/ops/generate.rs:590-707 | directory, number of calls and result of the method are those of the overwrite transaction |
| `KeypairWriter.AcquireForceOverwriteLock` | rs/src/ops/generate.rs:709-755 | the retry loop, stale locks included, ends with the directory, number of calls and result that `ForceLock.Acquire` gives for the same answers; the laws of that function follow |
| `KeypairWriter.ForceWriteKeypair` | rs/src/ops/generate.rs:606-707 | lock, transaction and unlocking leave the directory and give the result of `ForceLock.ForceWrite`: without the lock its error and no transaction, with it the transaction on the directory as the lock left it |
| `ForceLock.FreeLockTaken` | rs/src/ops/generate.rs:718-725 | a free lock is taken with one call if that is let through, and otherwise that call is the error |
| `ForceLock.StaleLockTaken` | rs/src/ops/generate.rs:727-738 | a lock judged stale is broken and taken with three calls if they are let through |
| `ForceLock.HeldLockTimesOut` | rs/src/ops/generate.rs:726-755 | a lock that stays and is never judged stale is waited for to the end of patience, one call to an attempt, then reported as a timeout |
| `ForceLock.ErrorsAreReal` | rs/src/ops/generate.rs:726-755 | the write error only if the last call made was refused; a timeout only with the lock still there and the directory as before |
| `ForceLock.TimeoutIff` | rs/src/ops/generate.rs:726-755 | a timeout if and only if `patience + 1` attempts in a row find the lock and do not get rid of it |
| `ForceLock.AcquireKeeps` | rs/src/ops/generate.rs:709-755 | Ok with the lock there; no name but the lock is touched |
| `ForceLock.ForceWriteSucceeds` | rs/src/ops/generate.rs:606-707 | with every call let through, and the lock free or judged stale, it succeeds: the new pair in place, the lock gone, nothing else changed |
| `KeypairWriter.WriteKeypairFilesCreateNew` | rs/src/ops/generate.rs:533-588 | directory, number of calls and result of the method are those of the create-only transaction |
| `CreateOnly.ConcurrentCreation` | rs/src/ops/generate.rs:533-588 | any number of runs on the same paths in any interleaving, any calls failing: no earlier file replaced or removed, at most one Ok; if undo deletes go through, a published public key always has its own secret key in place, and all failed means nothing changed |
| `CreateOnly.CreatePairDisciplined` | rs/src/ops/generate.rs:533-588 | whatever others do, a run links only its complete files and deletes only its own |
| `CreateOnly.CreatePairSucceeds` | rs/src/ops/generate.rs:533-588 | a run alone of which no check or forward call fails says Ok if and only if neither path is there; then the directory has gained exactly the two files, otherwise it is as before and the error names the first path that is there |
| `Forced.ForcedRunsExclude` | rs/src/ops/generate.rs:709-760 | any number of forced runs in any interleaving, any calls failing: at most one between taking the lock and dropping it, as long as no lock is judged stale |
| `Forced.StaleLockAdmitsTwo` | rs/src/ops/generate.rs:727-738 | a lock judged stale while its holder lives can admit a second, for any runs on any directory |
| `Forced.ForcedRunsSerialise` | rs/src/ops/generate.rs:606-707 | if no forward call can fail, or undo calls go through and checks are truthful, at rest the final paths hold one run's pair or the original pair |
| `Forced.AloneIff` | rs/src/ops/generate.rs:606-707 | for a run alone this holds if and only if no forward call can fail, or undo calls go through and no existing file can be taken for absent |
| `AtomicWrite.ReplaceIsAtomic` | rs/src/ops/file_utils.rs:389-429 | at every step the path holds the complete old or complete new file; an error leaves the old unless it is that of the final directory sync |
| `AtomicWrite.CreateIsAtomic` | rs/src/ops/file_utils.rs:511-555 | the same for creation, and an existing file is never replaced |
| `AtomicWrite.ReplaceOutcome` | rs/src/ops/file_utils.rs:389-429 | the same of complete runs with every call free to fail |
| `AtomicWrite.ReplaceSucceeds` | rs/src/ops/file_utils.rs:389-429 | unless a forward call fails, and with or without a mode, replacing succeeds and the directory differs in that one file |
| `AtomicWrite.CreateSucceeds` | rs/src/ops/file_utils.rs:511-555 | unless a forward call fails, creating succeeds if and only if nothing is there, and otherwise says that the file exists; the directory differs in that one file or not at all |
| `AtomicWrite.WriteNewNeverReplaces` | rs/src/ops/file_utils.rs:342-358 | the plain create never replaces a file and shows only prefixes of the new one |
| `AtomicWrite.WriteNewShowsAnyPart` | rs/src/ops/file_utils.rs:342-358 | it is not atomic: for every proper prefix a run that leaves it |
| `AtomicWrite.WriteNewSucceeds` | rs/src/ops/file_utils.rs:342-358 | the plain create succeeds if and only if nothing is there, unless a call fails |
| `PowerLoss.ReplaceSurvives` | rs/src/ops/file_utils.rs:374-386 | after a power cut at any point of a replacement the path holds the complete old or the complete new file, and the new one if it had said Ok |
| `PowerLoss.CreateSurvives` | rs/src/ops/file_utils.rs:500-510 | the same of a creation, and an existing file stays |
| `PowerLoss.OverwriteSurvives` | rs/src/ops/generate.rs:618-706 | after a power cut at any point of the overwrite transaction the old secret key is complete under its name or its backup's, until the commit has returned Ok, and from then on the new one under its name |
| `PowerLoss.CreatePairSurvives` | rs/src/ops/generate.rs:533-588 | after a power cut at any point each final path holds what it held, or the complete file of the run where it held nothing |
| `PowerLoss.EndSurvives` | rs/src/ops/generate.rs:533-707 | once either transaction has said Ok, a power cut leaves both final paths as they are |
| `PowerLoss.WriteNewMayVanish` | rs/src/ops/file_utils.rs:342-358 | the plain create synchronises nothing: on every directory it can say Ok and a power cut leave no file |
| `FileWriter.AtomicReplaceFile` | rs/src/ops/file_utils.rs:389-429 | the method carries out exactly the replacement program |
| `FileWriter.AtomicCreateSecretKey` | rs/src/ops/file_utils.rs:511-555 | the method carries out exactly the creation program |
| `FileWriter.WriteFileNew` | rs/src/ops/file_utils.rs:342-358 | the method carries out exactly the plain create |
| `SignatureWriter.WriteFileAt` | rs/src/ops/file_utils.rs:334-370 | without force an exclusive create, with force a link is refused and a file replaced atomically, call by call |
| `SignatureWrites.ForcedReplaces` | rs/src/ops/file_utils.rs:337-340 | with force a missing or regular file is replaced and nothing else changes, unless a forward call fails |
| `SignatureWrites.ForcedRefusesLink` | rs/src/ops/file_utils.rs:362-372 | with force a link is refused, with the error for links unless inspecting it fails, and the directory is as before |
| `SignatureWrites.ForcedKeepsDirectory` | rs/src/ops/file_utils.rs:337-340 | with force a directory is never replaced: at every step all is as it was but for the staged file, which is gone at the end if its removal went through |
| `SignatureWrites.ForcedDirectoryError` | rs/src/ops/file_utils.rs:337-340 | the error then names the destination |
| `SignatureWrites.ForcedIsAtomic` | rs/src/ops/file_utils.rs:334-340 | with force, at every step and whatever fails, the destination holds the old or the complete new file |
| `SignatureWrites.ForcedNeverExists` | rs/src/ops/file_utils.rs:334-340 | with force no answers lead to the error that the file exists |
| `SignatureWrites.UnforcedCreates` | rs/src/ops/file_utils.rs:342-358 | without force, unless a call fails, Ok if and only if nothing was there; what is there stays |
| `Base64.RoundTrip` | src/base64.c:61-138 | decoding undoes encoding for every byte string |
| `Base64.DecodableIffWellFormed` | src/base64.c:61-95 | the accepted texts are exactly those of length 4k, k at least 1, over the alphabet with `=` only as the last one or two characters |
| `Base64.DecodeAlike` | src/base64.c:74-91 | two accepted texts of one length and padding decode alike if and only if they differ at most in the unused trailing bits |
| `Base64.EncodeDecode` | src/base64.c:61-138 | encoding undoes decoding on exactly the texts without unused bits set |
| `Base64.StrictDecodeInverse` | rs/src/formats.rs:7-19 | the strict decoder of the Rust side accepts exactly the encoder's output |
| `Base64Buffers.B64ToBin` | src/base64.c:61-96 | accepts exactly the well-formed texts whose bytes fit, leaves those bytes and their number, and on no input changes a byte from `bin_maxlen` on |
| `Base64Buffers.DecodeGroup` | src/base64.c:74-92 | one group by the reverse table, the masks and the shifts writes what the specification decodes, or nothing |
| `Base64Buffers.BinToB64` | src/base64.c:107-138 | writes exactly the encoding and its terminator if they fit, otherwise nothing |
| `Base64Buffers.ThereAndBack` | src/base64.c:61-138 | what the encoder wrote the decoder turns back into the bytes and their number |
| `Base64Buffers.EncoderNeedsExactly` | src/base64.c:107-109 | the size the encoder asks for, in wrapping arithmetic, is exactly what it writes |
| `Base64Buffers.XfputSizeSuffices` | src/helpers.c:130-136 | the allocation meets that demand if and only if the product by four does not wrap |
| `Utf8.DecodeInverse` | src/minisign.c:91-121 | decoding by the grammar of section 4 of RFC 3629 succeeds on exactly the encodings of scalar values, and inverts encoding |
| `Utf8.PrintableMeaning` | rs/src/validation.rs:56-76 | the printable texts are exactly the encodings of characters the Rust check accepts |
| `Utf8Scanner.Scan` | src/minisign.c:75-125 | the C scanner accepts a string if and only if it is such a text; every index it uses is within the string and its terminator |
| `Utf8Scanner.ScanChar` | src/minisign.c:88-122 | the tests on leading, continuation and second bytes accept exactly the characters of the grammar, controls excluded |
| `Utf8Scanner.ScanMeaning` | src/minisign.c:92-118 | the scanner's tests and shifts against the grammar's first character |
| `CStrings.Trim` | src/helpers.c:158-178 | cuts the line ending in place and accepts exactly complete lines without another carriage return |
| `CStrings.Stream.Gets` | src/minisign.c:222-265 | a bounded `fgets`: what is read, what is left, what string the buffer holds |
| `Lines.SplitJoin` | rs/src/signature.rs:313-319 | plain lines survive joining and splitting |
| `Lines.JoinSplit` | rs/src/signature.rs:313-319 | splitting and joining any text turns CR LF into LF, completes the last line, and changes nothing else |
| `SignatureText.ToBytes` | rs/src/signature.rs:131-147 | the filled buffer is algorithm, keynum and signature |
| `SignatureText.StructInverse` | rs/src/signature.rs:131-195 | a structure is read from its own 74 bytes and from no others |
| `SignatureText.AcceptedLines` | rs/src/signature.rs:312-369 | a text is accepted if and only if its lines are the four lines of a valid box |
| `SignatureText.TextRoundTrip` | rs/src/signature.rs:312-381 | every valid box is read back from the text it is written as |
| `SignatureText.AcceptedReserialises` | rs/src/signature.rs:312-381 | an accepted text is, up to line endings, the text its box is written as |
| `SignatureText.NewIffReadable` | rs/src/signature.rs:227-271 | the constructor accepts exactly the boxes that some text is read as |
| `SignatureText.AcceptedIsUtf8` | rs/src/signature.rs:312-369 | every accepted text is well-formed UTF-8, so the check before parsing turns none away |
| `CSignature.SigLoad` | src/minisign.c:205-289 | the C loader on its bounded buffers computes the specification `Load` |
| `CSignature.WrittenIsLoaded` | src/minisign.c:205-289 | for every box with printable comments, the file Rust writes is accepted, with the same structure, hashed flag, trusted comment and global signature, if and only if the comments have at most 1003 and 8173 bytes |
| `CSignature.NewIffLoaded` | rs/src/signature.rs:227-247 | the Rust limits admit exactly the comments that C can read |
| `CSignature.WriteThenLoad` | src/minisign.c:205-289 | every valid box, written and loaded by the C routine, gives its own fields |
| `CFiles.LoadIff` | src/minisign.c:205-289 | of any file of clean lines, whoever wrote it and whichever of LF and CR LF ends each: exactly when the C loader accepts it (line lengths, prefixes, printable trusted comment, base64 of the two sizes, a known algorithm), and what it then returns |
| `CFiles.TooFewLines` | src/minisign.c:205-289 | a file with fewer than three ended lines, or with nothing after the third, is refused |
| `CFiles.CrLfLoads` | src/minisign.c:205-289 | the file of a box is accepted with CR LF line endings too, if its comments leave room for them |
| `CFiles.KeyLoadIff` | src/minisign.c:445-482 | which structure the C key loader finds is decided by the second line alone, whatever the comment, the line endings and the rest of the file |
| `LittleEndian.WordInverse` | src/helpers.c:26-45 | loading and storing a 64-bit word are inverse |
| `LittleEndian.StoreInto` | src/helpers.c:34-45 | the eight shifted bytes written are the word's |
| `LittleEndian.XorInto` | src/helpers.c:94-102 | the loop combines exactly the given range and leaves the rest |
| `LittleEndian.XorInverse` | src/helpers.c:94-102 | applying a key stream twice changes nothing |
| `Kdf.DecodeMeaning` | rs/src/crypto.rs:505-563 | decoding answers (k, 8, 1) if and only if the limits are 32 and 1024 times 2^k and scrypt takes them |
| `Kdf.CalculateMeaning` | rs/src/crypto.rs:417-461 | without the weak flag, calculation succeeds for exactly k up to 53, with those limits |
| `Kdf.DecodeInvertsCalculate` | rs/src/crypto.rs:417-563 | the two are inverse in both directions |
| `Kdf.ToParamsMeaning` | rs/src/crypto.rs:61-69 | with the budget exactly k up to 20 remain |
| `Kdf.Settle` | src/minisign.c:413-428 | the halving loop ends with the sensitive limits halved once for each try before the first that succeeds, or with none if all seven fail |
| `Kdf.SettledMeaning` | src/minisign.c:413-428 | limits are settled for if and only if they are those of the first success among the seven tries |
| `Kdf.SettledDecodes` | src/minisign.c:413-428 | the pair stored decodes within the Rust budget, with 20 less the number of failed tries as its exponent, and it gives up exactly when all seven fail |
| `SecretKey.ToBytes` | rs/src/keys.rs:690-729 | the filled buffer is the 158-byte layout |
| `SecretKey.LayoutFields` | rs/src/keys.rs:690-729 | each field is at its offset in the 158 bytes |
| `SecretKey.StructInverse` | rs/src/keys.rs:690-824 | serialising is the identity on every accepted byte string, and what was serialised is accepted |
| `SecretKey.EncryptKey` | rs/src/keys.rs:361-409 | the buffer-filling method computes the specification of encryption |
| `SecretKey.DecryptKey` | rs/src/keys.rs:423-483 | and the one that decrypts the specification of decryption, with every error in its order |
| `SecretKey.EncryptionRoundTrip` | rs/src/keys.rs:361-483 | whenever the key stream passes its guard, encrypting, storing, reading and decrypting gives back key and keynum |
| `SecretKey.KeyFileRoundTrip` | rs/src/keys.rs:831-874 | a key file is read as the structure it was written from |
| `SecretKey.WrittenLoads` | rs/src/ops/file_utils.rs:320-326 | and passes the size limit and the UTF-8 check of loading |
| `SecretKey.LoadSecretKeyIff` | rs/src/keys.rs:831-850 | a file is loaded as a structure if and only if it is small enough, well-formed text, and its second line is the base64 of that structure's bytes |
| `CSecretKey.EncryptKey` | src/minisign.c:395-443 | the in-place C encryption leaves the stated 158 bytes, or gives up with the loop |
| `CSecretKey.GenerateEncrypted` | src/minisign.c:730-751 | for a NUL-free password and a fresh key the 158 bytes C leaves are the layout of the structure Rust makes with the same salt and limits, whenever Rust takes them |
| `CSecretKey.SameBytes` | src/minisign.c:395-443 | for the same password, salt and limits of 2^k with k from 10 to 20 C writes exactly the bytes Rust writes, and Rust accepts exactly when scrypt and the guard do |
| `CSecretKey.DecryptKey` | src/minisign.c:365-393 | the in-place C decryption derives from the NUL-terminated password and the salt and limits it reads from the structure, and accepts exactly when the derivation succeeds and the recomputed checksum agrees |
| `CSecretKey.RustOpens` | rs/src/keys.rs:423-483 | what opens any accepted encrypted structure in Rust: limits it takes and a key under the key stream with parallelism 1 |
| `CSecretKey.CDerives` | src/minisign.c:377-381 | for limits Rust takes, C derives the same key stream from its minimum of operations on, and with another parallelism below |
| `CSecretKey.SameDecryption` | src/minisign.c:365-393 | on every accepted encrypted structure but those with limits that Rust takes and that lie below C's minimum, and for every password: Rust decrypts it to a key if and only if C finds that key and Rust takes the limits and the key stream |
| `CSecretKey.OnlyC` | src/minisign.c:365-393 | with the same exception Rust opens no structure that C does not; those C opens and Rust refuses are exactly those with limits outside the agreed form or budget, or a key stream the guard rejects |
| `KdfMinimum.UnreadableByC` | rs/src/crypto.rs:42-43 | for every exponent below 10 that `generate` and `change` can be given, libraries with the stated relation and a key that Rust writes and opens and C finds no key in |
| `KdfMinimum.AgreeIff` | src/libzodium/sodium.h:17-18 | whatever the libraries, the two sides agree about all structures with the limits of 2^k, k up to 20, if and only if k is at least 10 |
| `CSecretKey.SameUnencrypted` | src/minisign.c:486-491 | an unencrypted structure yields both sides the same key |
| `CSecretKey.TestedIffParsed` | src/minisign.c:479-491 | the tests C puts to the decoded bytes are those of the Rust parser |
| `CSecretKey.SeckeyLoad` | src/minisign.c:445-492 | the C loader with a password accepts exactly the structures that pass its tests and, if encrypted, decrypt under what it derives from them |
| `CSecretKey.KeyFileLoads` | src/minisign.c:445-482 | C finds in every key file Rust writes the bytes Rust serialised |
| `Reading.ReadBounded` | rs/src/ops/file_utils.rs:264-295 | however the reads are cut up or interrupted, the whole file or `TooLarge` exactly when it or its metadata exceeds the limit |
| `PasswordChange.NewContentsOpen` | rs/src/ops/change.rs:152-199 | the new contents yield with the new password what the old yielded with the password given |
| `PasswordChange.NewContentsIff` | rs/src/ops/change.rs:152-199 | there are new contents if and only if the old password opens the file and either the key is to be unprotected, or there is a new password, an admissible exponent, and a key stream for the limits of that exponent |
| `PasswordChange.NewContentsAre` | rs/src/ops/change.rs:152-199 | what is written, when loaded: unencrypted, the extracted key with zeros for parameters; encrypted, the limits of the exponent asked for and the new salt |
| `PasswordChange.OldOrNew` | rs/src/ops/change.rs:146-206 | at every step of a call the file is the old one or the complete new one, and no other file changes |
| `PasswordChange.KeyNeverLost` | rs/src/ops/change.rs:146-206 | over any history of calls, each failing or cut off anywhere, the key file decodes and yields the original key with the password before the last call or the one it set |
| `PasswordChange.SuccessYieldsKeyIff` | rs/src/ops/change.rs:146-206 | after success the new password yields the key if and only if the password given did |
| `PasswordChange.ChangeWithLogN` | rs/src/ops/change.rs:146-206 | the method: errors before writing leave the directory alone, otherwise it is the atomic replacement by the new contents; with every call let through it succeeds and changes that one file |
| `Paths.NameDetermines` | rs/src/ops/file_utils.rs:449-453 | canonical names identify directories |
| `Paths.WalkWithoutDots` | rs/src/ops/file_utils.rs:454-459 | dropping dots and empty components changes no walk that arrives |
| `Paths.ResolvesToEntry` | rs/src/ops/file_utils.rs:442-466 | a path with an existing parent resolves to the entry the kernel would replace |
| `Paths.SpellingsAgree` | rs/src/ops/file_utils.rs:442-466 | two such spellings resolve alike if and only if they name one directory entry |
| `Paths.FinalDots` | rs/src/ops/file_utils.rs:454-459 | with final dots or slashes the same holds if and only if no symbolic link stands before them |
| `Paths.SlashAfterLink` | rs/src/ops/file_utils.rs:454-459 | a tree and a path `l/` on which resolution names the link and the kernel the directory |
| `Paths.MissingTail` | rs/src/ops/file_utils.rs:449-459 | a missing tail is applied component by component to the nearest existing ancestor |
| `Paths.ResolveFails` | rs/src/ops/file_utils.rs:449-453 | resolution fails exactly when, going up, something other than absence is met first |
| `Paths.NoAliasMeaning` | rs/src/ops/file_utils.rs:481-497 | the check passes exactly when everything resolves and nothing to the destination |
| `Paths.FirstAliasMeaning` | rs/src/ops/file_utils.rs:481-497 | which error the check reports: that of the first path in the list that resolves to the destination or cannot be resolved |
| `Batch.SuffixInjective` | rs/src/ops/sign.rs:188-197 | the suffix keeps different last components different, `.`, `..` and none included |
| `Batch.Dedupe` | rs/src/ops/sign.rs:436-446 | the loop with its set computes the specification |
| `Batch.DedupedMeaning` | rs/src/ops/sign.rs:436-446 | the survivors are canonically distinct and stand for all files given |
| `Batch.PreparedApart` | rs/src/ops/sign.rs:436-462 | after the checks, destinations are pairwise distinct and none is an input or the key |
| `Batch.PrepareIff` | rs/src/ops/sign.rs:436-462 | exactly what stops a batch before it signs: a missing file; more than one surviving file with an explicit path, and then the usage error; a destination that clashes or a path that cannot be resolved |
| `Gaps.OtherLater` | rs/src/ops/file_utils.rs:481-497 | what the alias check compares a path by once other files have come to be: as before, unless the entry that the path lacked is there; then the new file, or an error if the path goes on |
| `BatchJobs.PreparedIsChecked` | rs/src/ops/sign.rs:448-462 | the checks of the batch, with a key path that exists or not, establish what the interleaving needs |
| `BatchJobs.CheckPasses` | rs/src/ops/sign.rs:206-208 | exactly when the alias check a job repeats passes: unless the entry the key path lacked has come to be, and the path goes on there or it is the job's own destination |
| `BatchJobs.InputsUntouched` | rs/src/ops/sign.rs:339-390 | for every checked batch, at every point of every interleaving, with any call failing, each input's entry and bytes, the walk to it, and the walk to a key path that exists are as at the start |
| `BatchJobs.OrderIrrelevant` | rs/src/ops/sign.rs:339-390 | unless a job that can sign writes in the way of a missing key path while another has its check to repeat, any two interleavings in which all jobs end leave the same files and the same reports |
| `BatchJobs.ParallelIsSequential` | rs/src/ops/sign.rs:339-390 | under the same condition the sequential order comes to an end, and every other order that does ends as it does |
| `BatchOutcome.GrantedBatch` | rs/src/ops/sign.rs:200-232 | with every call let through, in every interleaving in which all jobs end, each reports what its message, its signature and its destination call for, and where that is Ok its signature file is there |
| `BatchOrder.OrderMattersIff` | rs/src/ops/sign.rs:200-232 | the condition is exact: when it fails there are two interleavings in which all jobs end with different reports |
| `BatchOrder.MissingKeyMatters` | rs/src/ops/sign.rs:200-232 | two messages and a key path for which the checks pass and the order matters |
| `SignVerify.AbsorbConcat` | rs/src/crypto.rs:369-384 | feeding a hash in pieces is feeding it the whole |
| `SignVerify.HashStream` | rs/src/crypto.rs:369-384 | however the reads cut the file up, the hash is that of its bytes |
| `SignVerify.SigningSucceeds` | rs/src/ops/sign.rs:563-652 | exactly when a signature is made, and otherwise which error; the box is valid and the self-check never objects |
| `SignVerify.CreateFrom` | rs/src/ops/sign.rs:563-652 | reading the file as it comes signs what the specification signs, or reports it unreadable |
| `SignVerify.SignThenVerify` | rs/src/ops/verify.rs:230-261 | signed, written, parsed and verified: succeeds exactly unless a legacy signature is refused or output of an over-long prehashed message is asked for, and gives back both comments and the message |
| `SignVerify.SignThenVerifyAny` | rs/src/ops/verify.rs:230-261 | the file of a fresh signature under any public key and over any message: every outcome, with its precedence |
| `SignVerify.LoadSignatureIff` | rs/src/signature.rs:312-369 | a signature file is loaded as a box if and only if its lines are the box's, the box is valid, and the file is not too large |
| `SignVerify.VerifyMeaning` | rs/src/ops/verify.rs:230-261 | verification succeeds exactly on the files of a valid box of the key's number whose two signatures verify |
| `SignVerify.VerifyMessageFrom` | rs/src/ops/verify.rs:370-427 | of a file that may be changing, the bytes handed out are the bytes that were verified |

## Left out

- The age of a lock: whether it is judged stale is any decision, as is when a waiting run gives up.
- A matched pair after a crash between the two commit renames: the code does not give it; only the
  absence of loss is claimed there.
- Forced.ForcedRunsSerialise: several runs whose undo calls or existence checks fail along with
  forward calls are not covered, nor locks judged stale; for one run the condition is exact.
- CreateOnly.ConcurrentCreation: its last two claims concern runs whose undo deletes go through.
- PasswordChange.KeyNeverLost: assumes of each call that a wrong password is not accepted by
  accident of the checksum, since the hash is an arbitrary function here.
- BatchJobs.ParallelIsSequential: concerns default signature paths, as the code requires of several
  files.
- Collisions of random nonces: names for staged and backup files are fresh and distinct.
- Outside module `PowerLoss` a crash keeps the calls made so far. There a power cut hits one run
  alone, a directory is left as one of its versions as a whole, and the backup of a key is taken to
  be in the directory of the key, as the source names it.
- Processes other than those modelled, and dangling links at the key paths.
- Permissions, modes and ownership; wiping of memory; constant-time comparison; Windows branches.
- Ed25519, Blake2b and scrypt themselves, and the parameter check of the scrypt library: parameters
  with stated laws. How libsodium's limits choose scrypt parameters is not part of this model:
  `SameKdf` states it for the limits of 2^k, k from 1 to 20, and `SameBytes`, `GenerateEncrypted`,
  `CDerives`, `SameDecryption`, `OnlyC` and module `KdfMinimum` rest on it.
- The base64 crate is not part of this model; its standard engine is taken to require padding and
  zero trailing bits.
- Acceptance by Rust of what C accepts: C ignores trailing lines and non-canonical base64 bits and
  does not check the untrusted comment for printability.
- Which error message a failure prints; only its kind where the callers distinguish it.
- Case-insensitive file systems, mount points, and relative paths: a path is taken as made absolute.
- Public key files (a fixed layout of 42 bytes in two lines), the default comments with their
  timestamp, and everything around the files: parsing the command line, prompting, the credential
  store, printed reports and exit codes, key identifiers as words, and the inspection display.
- The thread pool: parallel jobs are arbitrary interleavings of their calls.
- 32-bit `size_t`: the C buffers are modelled with 64 bits.
