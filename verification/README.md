# HIDE, modelled in Dafny

This project models the parts of HIDE (encrypted containers, identity logs, epoch keys, a
transparency log and login challenges) whose correctness is hard to see from the code, and proves
what they promise. It needs nothing but Dafny 4.11: `dafny verify dfyconfig.toml`.

What is modelled, file by file of the repository:

- **The RFC 6962 log** (`MerkleTree`, `MerkleProofs`, `TransparencyLog`, `ProofCodec`,
  `ProofRules`): the recursive prover, the iterative verifiers and the proof encoding. Proofs are
  complete for every 64-bit size with the one exception stated exactly, and sound over whole runs of
  accepted updates.
- **Checkpoint notes** (`Base64`, `TextRules`, `SignedNotes`, `NoteRules`, `Checkpoints`,
  `CheckpointRules`, `Cosigning`, `WitnessKeys`, `WitnessedLogs`): printing, parsing, the witness
  count, how many different keys it stands for, and the quorum theorems that rule out a split view,
  at one size and across sizes.
- **The identity log** (`IdentityEntries`, `Membership`, `IdentityLog`, `IdentityHistory`,
  `IdentityRules`, `IdentityCodec`, `IdentityForms`, `Bindings`, `BindingRules`): the signed state
  machine, what its maps mean in terms of the history, its two framings, and statements bound to a
  log that keeps growing.
- **Containers** (`Extensions`, `ExtensionRules`, `HeaderCodec`, `HeaderRules`, `MetadataCodec`,
  `MetadataRules`, `Transcripts`, `TranscriptRules`, `Streams`, `StreamRules`, `Payload`,
  `PayloadTheorems`, `PayloadReaders`, `PayloadRules`, `Containers`, `ContainerTheorems`,
  `ContainerRules`, `ContainerWriting`, `ContainerForms`, `SignedContainers`, `ContainerExact`):
  header and metadata codec, signing transcript, chunked payload over short reads and early ends,
  the whole of reading and writing a container, exactly when one can be written, and exactly which
  one is accepted.
- **Epoch keys** (`EpochChain`, `EpochCodec`, `EpochRules`, `EpochStoreFormat`, `EpochStore`,
  `StoreRules`, `StoreExact`, `EpochFiles`, `CommandRules`, `EpochRuns`, `EpochHistorySize`,
  `EpochTheorems`, `EpochFrozen`, `EpochCommands`): the chain, the sealed store, and the commands
  that keep two files in step across crashes.
- **Login challenges** (`Challenges`, `ChallengeRules`): the record of spent nonces over runs of
  answers.

`Bytes`, `Hashing`, `Results`, `Signing`, `Aead`, `Cbor`, `CborLists`, `WireForms`, `SortedKeys` and
`FiniteSets` hold what these share.

The modules named `Rules` and `Forms` say everything over again in plain bytes and numbers, with every
label, tag, key and limit written out: what is hashed, signed, sealed and written, and the exact
condition for each thing that is accepted. What the other modules prove about their own functions is
so tied to the wire.

How the primitives appear:

- A hash is any function from byte strings to 32 bytes. No such function is injective, so a theorem
  that rests on collision resistance says: the conclusion holds, or two *different* inputs that were
  really hashed, from a set the theorem names, have one digest.
- A verifying key is its encoding; whether a signature checks is an arbitrary predicate. What the
  holder of a key signs is a set of payloads: `Genuine` says that its signatures over these check,
  `Unforgeable` that nothing checks but these, and `Attests` that a message is among them. The two
  go together (`Signing.NotaryIsSound`), and where one theorem says that an honest message is accepted
  and another that only honest ones are, a third says both in one world and a fourth that such a
  world exists.
- A cipher is an arbitrary pair of functions. `Correct` says that opening undoes sealing, `Ideal`
  that exactly what was sealed under a key opens. Reading a container back needs only that what was
  sealed into it opens (`ContainerTheorems.OpensOwn`), which either gives.
- A mistyped passphrase is noticed: `Noticed` says that the one store a command seals opens under no
  other passphrase typed in the run, spellings of one normal form aside, and `RunNoticed` says it of
  each command of a run. It cannot be said of all stores at once, since there are more of them than
  tags.
- A reader is a script of what its reads return: short counts, interruptions, failures, and ends
  that need not be final.
- CBOR is modelled byte by byte: the writer uses shortest heads (section 4.2.1 of RFC 8949), the
  reader also takes wider ones, which is why the re-encode checks matter.
- Random values, the clock and the passphrase's Unicode normal form are parameters.

Where the code, taken literally, does something its own text does not say:

- A consistency proof in a log of more than 2^63 entries can need 65 hashes, and the limit is 64.
  `MerkleProofs.ConsistencyCompleteExactly` gives the exact condition, `ConsistencyTooLong` an
  example. A log that keeps 32 bytes an entry cannot grow so large; the limit can only be met by a
  verifier who is given another prover's proof.
- A witness is told from another, and from the log, by name and key id, and a key id is a hash of the
  name and the key. So one key under two names counts twice, and a log listed under another name is
  its own witness, though both are said not to count (`WitnessKeys.OneKeyTwice`, `LogAsWitness`).
  `WitnessKeys.EnoughKeysExactly` gives the exact condition on the list.
- A source that reports an end before its last byte, as a growing file or a terminal may, makes an
  encryption succeed whose result cannot be opened, or holds less than the input
  (`PayloadReaders.ShortFillRefused`). `PayloadReaders.WrittenOpensExactly` and
  `ContainerWriting.StreamedOpensExactly` give the exact condition. While reading, the first reported
  end is taken for the end of the container.
- A crash between the two writes of `epoch-init` leaves a store without a history, and one between
  those of `epoch-advance` a store one epoch ahead. Both are safe, and no epoch command changes the
  files again. The same holds of a history of more than 13347 epochs, which outgrows the 16 MiB that
  are read back long before the limit of a million records. These are all such states
  (`EpochFrozen.FrozenExactly`), and each is reached (`CutInitFreezes`, `CutAdvanceFreezes`,
  `GrowthFreezes`).
- Encrypting with metadata that already carries a signature succeeds and produces a container that
  every reader refuses, unless a new confidential signature replaces the old one
  (`ContainerWriting.SignedMetadataIsRefused`, with `ContainerTheorems.ContainerRoundTrip`).
- A challenge that has been accepted is accepted again, as the next answer to its nonce that is,
  exactly when it verifies unexpired although an answer in between came with a time past its expiry
  and made the record forget it (`Challenges.AcceptedTwiceExactly`; `ClockMustNotRunBack` is an
  example).

## Model

| member | source | states |
|---|---|---|
| MerkleTree.SplitUnique | crates/hide-transparency/src/lib.rs:199-207 | The split is the only power of two below n that is at least half of n, which is what makes a tree's shape depend on its size alone. |
| MerkleTree.SplitFitsU64 | crates/hide-transparency/src/lib.rs:199-207 | For every 64-bit size the shift amount stays below 64, so the split never wraps and the descents end. |
| MerkleTree.InclusionTurnsBound | crates/hide-transparency/src/lib.rs:357-373 | A descent in a tree of at most 2^k leaves takes at most k turns. |
| MerkleTree.FoldInjective | crates/hide-transparency/src/lib.rs:379-386 | Along one sequence of turns, equal folded roots mean equal starts and equal siblings, or two of the inputs hashed collide. |
| MerkleTree.HonestInclusion | crates/hide-transparency/src/lib.rs:311-323 | The recursive prover's siblings, folded up along the verifier's turns from the leaf, give the recursive root. |
| MerkleTree.ConsistencyPathShape | crates/hide-transparency/src/lib.rs:325-342 | What the recursive consistency prover pushes: a seed exactly when the old tree is not a complete left subtree, then one sibling for each turn. |
| MerkleTree.HonestConsistencyNew | crates/hide-transparency/src/lib.rs:327-342 | Folding the prover's consistency path along the turns gives the root of the whole list. |
| MerkleTree.HonestConsistencyOld | crates/hide-transparency/src/lib.rs:327-342 | Folding only the right turns gives the root of the first `prior` leaves, and an unsent seed is that root. |
| MerkleTree.RootBinding | crates/hide-transparency/src/lib.rs:169-197 | Two lists of entries of any lengths with one root are equal, or two different inputs hashed for them have one digest. |
| MerkleTree.RootLaw | crates/hide-transparency/src/lib.rs:169-207 | The root in plain bytes, as RFC 6962 (section 2.1) gives it: of nothing, the hash of nothing; of one entry, that of a zero byte and the entry; and for every power of two k below n and at least half of n, that of a one byte, the first k entries' root and the rest's. |
| MerkleTree.RootIsTreeHash | crates/hide-transparency/src/lib.rs:169-207 | The root kept over leaf hashes is that tree hash of the entries. |
| MerkleProofs.VerifyInclusion | crates/hide-transparency/src/lib.rs:346-392 | The iterative verifier answers exactly as the recursive specification: limit, range, path length, folded root. |
| MerkleProofs.DescendToLeaf | crates/hide-transparency/src/lib.rs:360-373 | The loop over index and size records the turns of the recursive descent and terminates. |
| MerkleProofs.FoldUp | crates/hide-transparency/src/lib.rs:379-386 | The loop that consumes the path deepest first computes the recursive fold. |
| MerkleProofs.VerifyConsistency | crates/hide-transparency/src/lib.rs:396-469 | The iterative verifier answers exactly as the recursive specification, including the equal-size and missing-seed cases. |
| MerkleProofs.Descend | crates/hide-transparency/src/lib.rs:423-438 | The loop over both sizes records the recursive turns; its flag says whether every turn went left. |
| MerkleProofs.FoldBoth | crates/hide-transparency/src/lib.rs:453-463 | One loop computes the old and the new root's folds together. |
| MerkleProofs.InclusionComplete | crates/hide-transparency/src/lib.rs:269-276 | For every log of any 64-bit size, the prover's inclusion proof fits 64 hashes and is accepted. |
| MerkleProofs.ConsistencyHonest | crates/hide-transparency/src/lib.rs:279-308 | The prover's consistency proof has the length the verifier expects and is accepted unless it exceeds 64 hashes. |
| MerkleProofs.DescentReachesLeaf | crates/hide-transparency/src/lib.rs:427-438 | A consistency descent goes all the way to a leaf exactly when the old size is odd. |
| MerkleProofs.ConsistencyCompleteExactly | crates/hide-transparency/src/lib.rs:401-403 | The exact failing family of the length limit: the proof is refused if and only if the old size is odd, above one, and its last leaf lies 64 levels deep. |
| MerkleProofs.ConsistencyComplete | crates/hide-transparency/src/lib.rs:279-308 | For every log of at most 2^63 entries the prover's consistency proof is accepted. |
| MerkleProofs.ConsistencyTooLong | crates/hide-transparency/src/lib.rs:401-403 | A concrete list of 2^63 + 1 leaves whose honest proof from size 3 needs 65 hashes and is refused. No log in memory is that long; only a verifier given another prover's proof can meet it. |
| MerkleProofs.InclusionUnique | crates/hide-transparency/src/lib.rs:346-392 | Two accepted inclusion proofs for one index, size and root have the same leaf and path, or a collision is exhibited. |
| MerkleProofs.InclusionSound | crates/hide-transparency/src/lib.rs:346-392 | An accepted inclusion proof against the root of a list proves that list's leaf at that index, by the prover's own path, or a collision is exhibited. |
| MerkleProofs.EntrySound | crates/hide-transparency/src/lib.rs:346-392 | The same for entry data: what is accepted is the entry at that index, or a collision is exhibited. |
| MerkleProofs.ConsistencyUnique | crates/hide-transparency/src/lib.rs:396-469 | Two accepted consistency proofs for one pair of sizes and one new root are the same proof of the same old root, or a collision is exhibited. |
| MerkleProofs.ConsistencySound | crates/hide-transparency/src/lib.rs:396-469 | An accepted consistency proof to the root of a list shows the old root to be that of the list's first `oldSize` leaves, or a collision is exhibited. |
| TransparencyLogs.TransparencyLog.Append | crates/hide-transparency/src/lib.rs:237-241 | Appending pushes the leaf hash and returns the old length. |
| TransparencyLogs.TransparencyLog.RootAt | crates/hide-transparency/src/lib.rs:258-266 | Every past root can be computed again from the log as it is now, sizes beyond it are refused, and what is computed is the RFC 6962 tree hash of the first entries. |
| TransparencyLogs.TransparencyLog.ProveInclusion | crates/hide-transparency/src/lib.rs:269-276 | The method gives the specified path for any index within a past size, or the range error. |
| TransparencyLogs.TransparencyLog.ProveConsistency | crates/hide-transparency/src/lib.rs:279-308 | The method gives the specified path between any two past sizes, or the range or prefix error. |
| TransparencyLogs.CollectInclusion | crates/hide-transparency/src/lib.rs:311-323 | The recursive method that pushes onto a path appends the specified siblings to what was there. |
| TransparencyLogs.CollectConsistency | crates/hide-transparency/src/lib.rs:327-342 | The recursive method that pushes onto a path appends the specified consistency hashes to what was there. |
| TransparencyLogs.RunSound | crates/hide-transparency/src/lib.rs:394-469 | After any run of accepted consistency steps, every root the client ever held is the root of a prefix of the last log, or a collision is exhibited. |
| TransparencyLogs.InclusionSurvives | crates/hide-transparency/src/lib.rs:346-469 | An entry proved against an earlier root of a run is at the same index in the last log, or a collision is exhibited. |
| ProofCodec.EncodeProof | crates/hide-transparency/src/lib.rs:103-116 | The encoder's loop writes the fixed layout, and refuses a path of more than 64 hashes. |
| ProofCodec.ProofRoundTrip | crates/hide-transparency/src/lib.rs:103-139 | Decoding undoes encoding, and no encoding of one kind of proof decodes as the other. |
| ProofCodec.InclusionBytesExactly | crates/hide-transparency/src/lib.rs:141-151 | Bytes are read as an inclusion proof if and only if they are its encoding, and then they are refused as a consistency proof. |
| ProofCodec.ConsistencyBytesExactly | crates/hide-transparency/src/lib.rs:153-166 | Bytes are read as a consistency proof if and only if they are its encoding, and then they are refused as an inclusion proof. |
| ProofCodec.ProofCanonical | crates/hide-transparency/src/lib.rs:118-139 | Whatever decodes is the one encoding of its result, without a re-encode check. |
| ProofRules.DecodedExactly | crates/hide-transparency/src/lib.rs:103-166 | Bytes are read as a proof if and only if they are a tag, 1 or 2, two big-endian numbers, a count of at most 64 and that many hashes. |
| SignedNotes.Encode | crates/hide-transparency/src/checkpoint.rs:72-87 | The loop over signature lines writes the text, a blank line and each line. |
| SignedNotes.Decode | crates/hide-transparency/src/checkpoint.rs:90-135 | The decoder's loop over lines gives the specified verdict: the split at the last blank line, the line limit, the re-encode check. |
| SignedNotes.NoteRoundTrip | crates/hide-transparency/src/checkpoint.rs:72-135 | Every well-formed note is read back as it was written. |
| SignedNotes.NoteCanonical | crates/hide-transparency/src/checkpoint.rs:129-133 | What is accepted is the one encoding of its result, and that result is well formed. |
| SignedNotes.SurvivesExactly | crates/hide-transparency/src/checkpoint.rs:72-135 | A note comes back from its own encoding if and only if it is well formed. |
| NoteRules.Utf8Exactly | crates/hide-transparency/src/checkpoint.rs:90-100 | Bytes pass for UTF-8 if and only if they are the bytes of a sequence of Unicode scalar values. |
| NoteRules.DecodedExactly | crates/hide-transparency/src/checkpoint.rs:72-135 | Bytes are read as a note if and only if its text, names and signatures are legal and they are its text, an empty line and one line each, spelled out byte by byte. |
| Base64.RoundTrip | crates/hide-transparency/src/checkpoint.rs:83-112 | Base64 with required padding decodes what it encodes, for every byte string. |
| Base64.DecimalRoundTrip | crates/hide-transparency/src/checkpoint.rs:175-191 | A printed 64-bit size is parsed back. |
| TextRules.DecodeExactly | crates/hide-transparency/src/checkpoint.rs:83-112 | Text decodes from base64 to bytes if and only if it is their one encoding, leftover bits and padding included. |
| TextRules.ThreeBytes | crates/hide-transparency/src/checkpoint.rs:83-86 | Three bytes, read as one 24-bit number, are written as its four digits to the base 64; the digits are RFC 4648's (`Capitals`, `SmallLetters`, `Figures`), and shorter ends are padded. |
| TextRules.DecimalExactly | crates/hide-transparency/src/checkpoint.rs:171-181 | A size is printed as decimal digits that stand for it, without a leading zero. |
| Checkpoints.TextRoundTrip | crates/hide-transparency/src/checkpoint.rs:171-207 | Every checkpoint with a valid origin is parsed back from its three lines. |
| Checkpoints.TextInjective | crates/hide-transparency/src/checkpoint.rs:171-181 | Different checkpoints have different texts, so a signature over a text is a signature over one checkpoint. |
| Checkpoints.CheckSignedBy | crates/hide-transparency/src/checkpoint.rs:140-158 | The loop over lines finds a claiming line, and any claiming line that does not verify is an error. |
| Checkpoints.CheckWitnesses | crates/hide-transparency/src/checkpoint.rs:257-282 | The loop with its list of counted names and ids gives the specified count and verdict. |
| Checkpoints.VerifyWitnessed | crates/hide-transparency/src/checkpoint.rs:248-283 | The whole verifier from bytes to checkpoint equals its specification, error by error. |
| Checkpoints.CountedAreIndependent | crates/hide-transparency/src/checkpoint.rs:265-278 | The positions counted are ascending, each has a verifying line, and no two of them, nor one and the log, share a name or a key id. This tells names apart, not keys. |
| Checkpoints.AcceptedMeans | crates/hide-transparency/src/checkpoint.rs:248-283 | An accepted note is a canonical note over the checkpoint's own text, signed by the log, and at least `threshold` positions of the list with different names and key ids, none of them the log's, have verifying lines. |
| CheckpointRules.NoFailingLine | crates/hide-transparency/src/checkpoint.rs:137-158 | If a note is accepted, every line that names the log is signed by it, and so is every line that names a listed witness who shares no name or key id with the log or an earlier one: a failing line is never skipped. |
| CheckpointRules.AcceptedExactly | crates/hide-transparency/src/checkpoint.rs:137-283 | Of a list told apart by name and key id: bytes are accepted for a checkpoint if and only if they are the one form of a well-formed note over its three lines, every line that names the log or a witness carries its signature over those bytes, the log has a line, and so have at least `threshold` witnesses. |
| CheckpointRules.VerdictExactly | crates/hide-transparency/src/checkpoint.rs:137-283 | And the reason for every refusal, in the order in which they count. |
| WitnessKeys.EnoughKeys | crates/hide-transparency/src/checkpoint.rs:246-283 | Where no key is listed under two names and the log's key is not listed under another, an accepted note has at least `threshold` different keys besides the log's behind it. |
| WitnessKeys.EnoughKeysExactly | crates/hide-transparency/src/checkpoint.rs:246-283 | For any list of up to 31 signers told apart by name and key id: every note accepted at any threshold has that many different keys besides the log's behind it if and only if no key is repeated and none is the log's. |
| WitnessKeys.LogAsWitness | crates/hide-transparency/src/checkpoint.rs:265-278 | For every checkpoint, an input on which the log, listed under a second name, is accepted as its own only witness. |
| WitnessKeys.OneKeyTwice | crates/hide-transparency/src/checkpoint.rs:265-278 | For every checkpoint, an input on which one witness key, listed under two names, meets a threshold of two. |
| Checkpoints.SharedWitness | crates/hide-transparency/src/checkpoint.rs:246-283 | When twice the threshold exceeds the witnesses plus the faulty ones, two accepted notes share a witness that is not faulty and whose key verified both texts; different checkpoints mean different texts. |
| Checkpoints.NoSplitView | crates/hide-transparency/src/checkpoint.rs:6-11 | If every witness outside a small enough faulty set signs at most one root for each size, and nothing verifies under its key but what it signed, two accepted notes of one size are the same checkpoint. |
| Cosigning.CosignedNote | crates/hide-transparency/src/checkpoint.rs:210-239 | Signing as the log and then cosigning one by one yields one line each, in order, over one text. |
| Cosigning.HonestNoteWellFormed | crates/hide-transparency/src/checkpoint.rs:30-33 | Every note of at most 32 genuine lines fits the size limit and is well formed. |
| Cosigning.HonestNoteAccepted | crates/hide-transparency/src/checkpoint.rs:210-283 | A note signed by the log and cosigned by distinct witnesses, who sign at least this text, is accepted exactly up to their number, and is Unsigned above it. |
| Cosigning.WitnessedLogsAgree | crates/hide-transparency/src/checkpoint.rs:6-11 | Two readers with the quorum who hold roots of real logs of one size hold the same entries, or two inputs hashed for those logs collide. |
| WitnessedLogs.WitnessedLogsExtend | crates/hide-transparency/src/checkpoint.rs:6-11 | Across sizes: a reader who goes by an accepted consistency proof from one witnessed checkpoint to a later one holds the first entries of whatever log anybody else has witnessed at the later size, or two inputs hashed on the way collide. |
| Cosigning.CosignedViewIsTheOnlyOne | crates/hide-transparency/src/checkpoint.rs:246-283 | Both at once: the note that honest witnesses cosign is accepted, and every accepted note of that size, whoever made it, is over the same checkpoint. |
| Cosigning.HonestWitnessExists | crates/hide-transparency/src/checkpoint.rs:210-239 | For every checkpoint there is a log and a witness that meet all of these assumptions together. |
| Signing.BindInjective | crates/hide-sign/src/lib.rs:297-306 | No two pairs of context and message give the same signed bytes. |
| Bytes.U64Digits | crates/hide-sign/src/lib.rs:297-306 | The lengths in front of signed fields are eight bytes, the most significant first. |
| IdentityEntries.SignedBytesInjective | crates/hide-identity/src/lib.rs:187-213 | Equal signed bytes mean equal previous link, sequence, event and signer, across all four event kinds. |
| IdentityEntries.EntryInputInjective | crates/hide-identity/src/lib.rs:215-223 | Equal link inputs mean equal entries with equal histories before them. |
| Memberships.Membership.Apply | crates/hide-identity/src/lib.rs:441-556 | The method that updates both maps in place does what the specification does, and leaves them alone when it fails. |
| Memberships.Membership.RevokeEveryone | crates/hide-identity/src/lib.rs:539-541 | The loop of a recovery marks every current device as revoked at that entry. |
| IdentityLogs.Replay | crates/hide-identity/src/lib.rs:565-590 | The replay loop, which keeps the previous link, agrees with the recursive specification on result and error. |
| IdentityLogs.PrefixAccepted | crates/hide-identity/src/lib.rs:565-590 | Every non-empty prefix of an accepted log is accepted. |
| IdentityLogs.StepFacts | crates/hide-identity/src/lib.rs:576-588 | In an accepted log each entry is numbered by its place, only the first creates, and each was authorised by the state before it. |
| IdentityLogs.IdentityLog.Create | crates/hide-identity/src/lib.rs:281-306 | A founder who signs its founding entry gets a log that verifies if the label is legal; a long label is refused. |
| IdentityLogs.IdentityLog.FromEntries | crates/hide-identity/src/lib.rs:388-394 | Rebuilding succeeds exactly when replay does, with replay's error otherwise. |
| IdentityLogs.IdentityLog.CurrentMembership | crates/hide-identity/src/lib.rs:418-421 | On any log object the replay succeeds, so the default fallback is never taken. |
| IdentityLogs.IdentityLog.Append | crates/hide-identity/src/lib.rs:308-341 | An entry is appended if and only if a stranger's replay of the longer log accepts it; otherwise nothing changes and the error is the stranger's. |
| IdentityLogs.FounderAccepted | crates/hide-identity/src/lib.rs:281-306 | The founding entry of a key that signs it is accepted by replay. |
| IdentityLogs.HonestAppendAccepted | crates/hide-identity/src/lib.rs:343-384 | Enrolment, revocation and recovery are accepted whenever their author signs them and the guards on author, label, target and device hold. |
| IdentityHistory.MembershipExplained | crates/hide-identity/src/lib.rs:441-590 | For every device, both maps say exactly what the history alone says: trusted since the entry named, revoked by the entry named, or unknown; ids match keys and the maps are disjoint. |
| IdentityHistory.StandingMeaning | crates/hide-identity/src/lib.rs:234-269 | What a standing means: the last enrolment with nothing ending it since, or the revocation or recovery that ended one, or no enrolment at all. |
| IdentityHistory.NeverEmpty | crates/hide-identity/src/lib.rs:524-535 | An accepted log always trusts at least one device. |
| IdentityHistory.AuthorityAtPosition | crates/hide-identity/src/lib.rs:463-491 | Each entry is signed by a key that had the authority at its own position: the founder, the recovery key, or a device trusted after the entries before it. |
| IdentityHistory.OutUntilReadmitted | crates/hide-identity/src/lib.rs:482-535 | A device that is not trusted signs an enrolment or revocation again only after a recovery naming it or an enrolment by a different, then trusted device. |
| IdentityHistory.HeadCommits | crates/hide-identity/src/lib.rs:400-403 | Two accepted logs with one head have identical entries and length, or two link inputs collide. |
| IdentityHistory.AppendExactly | crates/hide-identity/src/lib.rs:308-384 | Whoever signs the next entry, it is accepted if and only if the guards that can be checked first hold, or the author's device id is that of another key: a collision between the two keys' digests. |
| IdentityRules.AcceptedExactly | crates/hide-identity/src/lib.rs:441-590 | From the entries alone: a log is accepted if and only if it has 1 to 100000 entries, begins with a Create, and each entry is numbered by its place, links by the hash of the bytes spelled out, names its author's device id, carries the signature of the one party the history entitles to it, and does what its event may do there. |
| IdentityRules.RefusedExactly | crates/hide-identity/src/lib.rs:441-590 | And a log that is refused is refused for its first entry that does not, for the first reason its rule gives. |
| IdentityRules.TrustedExactly | crates/hide-identity/src/lib.rs:441-590 | A device is trusted by an accepted log if and only if an entry brought it in and none after that revoked it, recovered, or brought it in anew; its key, label and place are those of that entry. |
| IdentityRules.SignerNamed | crates/hide-identity/src/lib.rs:463-491 | Each entry names its author: the device id it carries is the hash of the key that signed it. |
| IdentityCodec.EncodeFramed | crates/hide-identity/src/lib.rs:597-632 | The encoder's loop writes the specified bytes in the framing asked for. |
| IdentityCodec.Decode | crates/hide-identity/src/lib.rs:636-739 | The decoder's loop over its cursor gives the specified verdict, including the framing it settles on. |
| IdentityCodec.IdentityRoundTrip | crates/hide-identity/src/lib.rs:592-739 | In either framing, decoding undoes encoding for every log within the limits. |
| IdentityCodec.MixedFramingsRefused | crates/hide-identity/src/lib.rs:661-663 | A log with two differently framed entries is refused, wherever they stand. |
| IdentityCodec.IdentityCanonical | crates/hide-identity/src/lib.rs:730-738 | Whatever is accepted is the encoding of its entries in one framing. |
| IdentityForms.DecodedExactly | crates/hide-identity/src/lib.rs:592-739 | Bytes are read as a log if and only if it has at most 100000 legal entries and they are its items one by one, under heads of seven throughout or of six throughout. |
| Bindings.VerifyPinned | crates/hide-identity/src/bindings.rs:99-124 | The object returned is a verified log of these entries, over the given primitives and under the bound recovery key, and each error is the specified one. |
| Bindings.CreatedRecoveryVerifies | crates/hide-identity/src/bindings.rs:56-73 | A binding the founder creates verifies against its own log and root. |
| Bindings.OneRecoveryKey | crates/hide-identity/src/bindings.rs:20-33 | If the founder signed one recovery binding for a root and nothing verifies but what it signed, all logs accepted for that root share one recovery key, or the founding entries collide. |
| BindingRules.RecoveryVerdictExactly | crates/hide-identity/src/bindings.rs:99-124 | The verdict against a pinned root, and the reason for every refusal, with the signed bytes spelled out. |
| BindingRules.RecoveryBindingSound | crates/hide-identity/src/bindings.rs:20-33 | A log accepted for a pinned root begins with the entry of that link, and its founder signed the bound recovery key for that root, unless something else verifies under the founder's key. |
| Bindings.PinnedKeyIsTheFounders | crates/hide-identity/src/bindings.rs:20-33 | Both at once: the binding an honest founder creates is accepted for its root, and any other log and binding accepted for that root bring the same recovery key, or the founding entries collide. |
| Bindings.HonestFounderExists | crates/hide-identity/src/bindings.rs:56-73 | For every hash, key, recovery key and label there is a founder that meets all of these assumptions together. |
| Bindings.RecoveryRoundTrip | crates/hide-identity/src/bindings.rs:75-95 | Bytes decode to a recovery binding if and only if they are its encoding and its parts have the right form. |
| Bindings.EpochMessageInjective | crates/hide-identity/src/bindings.rs:144-152 | Equal messages make equal statements. |
| Bindings.OneKeyPerId | crates/hide-identity/src/bindings.rs:245-258 | One device id stands for one key in any two accepted logs, or two key hashes collide. |
| Bindings.BindingOnExtension | crates/hide-identity/src/bindings.rs:212-242 | A binding that verified on a log verifies on an accepted extension exactly when its signer is still a member, or two key hashes collide. |
| Bindings.CreatedBindingVerifies | crates/hide-identity/src/bindings.rs:156-181 | A binding a trusted device creates over a verified chain verifies. |
| BindingRules.EpochVerdictExactly | crates/hide-identity/src/bindings.rs:212-258 | The verdict on an epoch binding, and the reason for every refusal, from log, membership and chain alone, with the signed bytes spelled out. |
| BindingRules.OneChainPerBinding | crates/hide-identity/src/bindings.rs:127-142 | One binding vouches for one chain: if it verifies with two, against whatever logs, they are equal, or two link inputs collide. |
| BindingRules.EpochBindingSound | crates/hide-identity/src/bindings.rs:127-142 | If a binding verifies on an accepted log and nothing verifies under its signer's key but what was signed, the signer is a current member and signed this chain's head and length for this log's root and a point of its history; and the chain verifies. |
| Bindings.EpochBindingRoundTrip | crates/hide-identity/src/bindings.rs:183-210 | Bytes decode to an epoch binding if and only if they are its encoding with a signature of the right length. |
| BindingRules.RecoveryBytesExactly | crates/hide-identity/src/bindings.rs:75-95 | Bytes are read as a recovery binding if and only if they are root, a key that parses and signature, of 32, 1984 and 3373 bytes. |
| BindingRules.EpochBytesExactly | crates/hide-identity/src/bindings.rs:183-210 | Bytes are read as an epoch binding if and only if they are its fields in order and a signature of 3373 bytes. |
| Challenges.ChallengeRoundTrip | crates/hide-sign/src/challenge.rs:62-77 | A challenge is read back from the bytes both sides sign. |
| Challenges.ChallengeCanonical | crates/hide-sign/src/challenge.rs:158-190 | What decodes is the one encoding of its result. |
| Challenges.SpentNonces.Accept | crates/hide-sign/src/challenge.rs:110-136 | The method with its search loop gives the specified outcome and record: expiry first, then signature, then replay. |
| Challenges.SpentNonces.ForgetExpired | crates/hide-sign/src/challenge.rs:138-140 | The loop keeps exactly the entries that have not expired, in order. |
| Challenges.RecordedUntilExpiry | crates/hide-sign/src/challenge.rs:95-136 | Over any run with a clock that does not run back, an accepted nonce stays on record until the clock passes its expiry. |
| Challenges.AcceptedAgainExactly | crates/hide-sign/src/challenge.rs:110-140 | For any clock: after one acceptance a later answer to the same nonce, with none accepted in between, is accepted if and only if it is unexpired and verifies and its own time, or that of an answer in between that got as far as the record, is past the first one's expiry. |
| Challenges.AcceptedTwiceExactly | crates/hide-sign/src/challenge.rs:110-140 | For any clock: with none accepted in between, the same challenge is accepted a second time if and only if it verifies unexpired and an answer in between came with a time past its expiry, so only if the clock ran back. |
| Challenges.SeparatedByExpiry | crates/hide-sign/src/challenge.rs:108-136 | If the clock does not run back, two acceptances of one nonce are separated by the first one's expiry. |
| Challenges.AcceptedOnce | crates/hide-sign/src/challenge.rs:108-136 | If the clock does not run back, no challenge is accepted twice, whatever happens in between. |
| Challenges.RecordWellKept | crates/hide-sign/src/challenge.rs:98-136 | After any run the nonces on record are pairwise distinct and each was written by an accepted attempt. |
| Challenges.AcceptanceLeavesLive | crates/hide-sign/src/challenge.rs:126-139 | Right after an acceptance nothing on record has expired. |
| Challenges.ReplayHasCause | crates/hide-sign/src/challenge.rs:126-133 | A refusal as a replay points at an earlier acceptance of the same nonce that has not expired. |
| Challenges.ClockMustNotRunBack | crates/hide-sign/src/challenge.rs:138-140 | An input on which one challenge is accepted twice, the clock having stepped back after another was accepted. |
| ChallengeRules.OutcomeExactly | crates/hide-sign/src/challenge.rs:110-136 | Over any run, in plain integers and bytes: an answer is Expired if and only if its time is beyond issuing time plus validity, NotSigned if and only if it is in time and not the prover's signature over the bytes spelled out, and judged by the record otherwise. |
| ChallengeRules.FreshAnswerAccepted | crates/hide-sign/src/challenge.rs:110-136 | A signed answer in time is accepted if no earlier attempt of the run carried its nonce, whatever the clock did. |
| ChallengeRules.AcceptedExactly | crates/hide-sign/src/challenge.rs:95-136 | With a clock that does not run back, an answer is accepted if and only if it is in time, signed, and no earlier acceptance of its nonce was for a challenge that still holds. |
| ChallengeRules.ReplayedIsHeld | crates/hide-sign/src/challenge.rs:126-133 | Nothing is refused as a replay but a nonce accepted earlier for a challenge that still holds. |
| ChallengeRules.RecordExactly | crates/hide-sign/src/challenge.rs:126-139 | What is on record after an attempt: only an answer that is in time and signed clears what has expired, and only an acceptance adds its nonce, until its expiry or the end of time. |
| ChallengeRules.AcceptedWasSigned | crates/hide-sign/src/challenge.rs:62-77 | An accepted answer is to a challenge the prover signed, unless something else verifies under its key. |
| EpochChains.ChainInputInjective | crates/hide-epoch/src/lib.rs:118-129 | Equal link inputs mean equal previous link, number and key. |
| EpochChains.Verify | crates/hide-epoch/src/lib.rs:287-317 | The loop with its previous link agrees with the recursive check, error by error. |
| EpochChains.ChainHeadCommits | crates/hide-epoch/src/lib.rs:228-233 | Two non-empty verified chains with one head are equal, or two link inputs collide. |
| EpochRules.VerifiedExactly | crates/hide-epoch/src/lib.rs:287-317 | A chain verifies if and only if it has at most a million records, each numbered by its place, with a key of 1216 bytes, and linked by the hash of the bytes spelled out. |
| EpochRules.RefusedExactly | crates/hide-epoch/src/lib.rs:287-317 | Otherwise it is refused for the first record that does not, for the first reason its rule gives. |
| EpochChains.PlaceMeaning | crates/hide-epoch/src/lib.rs:264-278 | Placing supplied secrets keeps every secret matching its published key, places each supplied one, adds none, and never replaces one. |
| EpochChains.EpochChain.Start | crates/hide-epoch/src/lib.rs:139-146 | A new chain is one verified record with its secret held. |
| EpochChains.EpochChain.Advance | crates/hide-epoch/src/lib.rs:150-170 | Advancing appends one linked record and its secret and keeps everything else; at the limit or without randomness nothing changes. |
| EpochChains.EpochChain.Erase | crates/hide-epoch/src/lib.rs:195-202 | Erasing clears exactly one slot, or refuses an unknown epoch. |
| EpochChains.EpochChain.EraseBefore | crates/hide-epoch/src/lib.rs:205-214 | The loop clears exactly the slots before the bound and returns how many secrets that removed. |
| EpochChains.EpochChain.Restore | crates/hide-epoch/src/lib.rs:249-283 | The object rebuilt from history and secrets is the specified one, or the specified error. |
| EpochRules.RestoredExactly | crates/hide-epoch/src/lib.rs:249-283 | A chain is restored if and only if it verifies, is not empty, and every supplied secret is for a record of its own whose key it has; each record then holds exactly the secret supplied for it. |
| EpochCodec.EncodeRecords | crates/hide-epoch/src/lib.rs:331-346 | The encoder's loop writes the specified bytes. |
| EpochCodec.DecodeRecords | crates/hide-epoch/src/lib.rs:348-392 | The decoder's loop gives the specified verdict. |
| EpochCodec.RecordsRoundTrip | crates/hide-epoch/src/lib.rs:331-392 | Decoding undoes encoding for every chain within the limit. |
| EpochCodec.RecordsCanonical | crates/hide-epoch/src/lib.rs:384-390 | Whatever is accepted is the one encoding of its records. |
| EpochRules.DecodedExactly | crates/hide-epoch/src/lib.rs:331-392 | Bytes are read as a history if and only if it has at most a million records and they are its items one by one. |
| EpochStoreFormat.ParamsRoundTrip | crates/hide-keyring/src/lib.rs:67-133 | Every reasonable set of stretching parameters is read back. |
| EpochStoreFormat.DecodeBody | crates/hide-keyring/src/epoch_store.rs:367-421 | The loop with its previous number gives the specified verdict on order, counts and canonical form. |
| EpochStoreFormat.BodyRoundTrip | crates/hide-keyring/src/epoch_store.rs:367-457 | Every ascending body within the limit is read back. |
| EpochStoreFormat.SizeDependsOnNumbers | crates/hide-keyring/src/epoch_store.rs:174-184 | A body's length depends on its numbers alone, so the length computed with placeholders is the final one. |
| EpochStoreFormat.FileRoundTrip | crates/hide-keyring/src/epoch_store.rs:313-365 | Every file of at most 65536 entries stays within the file limit and parses into its parts. |
| EpochStoreFormat.FileCanonical | crates/hide-keyring/src/epoch_store.rs:275-294 | Every file that parses is the re-encoding of its parts. |
| StoreRules.ParsedExactly | crates/hide-keyring/src/epoch_store.rs:275-365 | A file is taken apart if and only if it is a header spelled out byte by byte, with legal stretching parameters, a body of at most 65536 entries of rising numbers, and a nonce and tag. |
| EpochStores.SealedFileParts | crates/hide-keyring/src/epoch_store.rs:155-219 | What sealing returns is a well-formed file whose header already carried the length of the sealed body. |
| EpochStores.SealThenOpen | crates/hide-keyring/src/epoch_store.rs:150-268 | For every store of at most 65536 entries and an accepted passphrase, opening what was sealed returns the same head and secrets, under any spelling with one normal form. |
| StoreRules.SealedExactly | crates/hide-keyring/src/epoch_store.rs:155-219 | What is sealed, byte by byte: each secret under the key stretched from the passphrase's normal form, tied to the header and its number, and an empty trailer over the whole file; and the two refusals. |
| StoreRules.OpenedExactly | crates/hide-keyring/src/epoch_store.rs:223-268 | A file opens to a store if and only if it is a legal file whose trailer opens under the first of three spellings for which it does, and whose entries all open, each for this header and its number, to that store's secrets. |
| StoreExact.OpensExactly | crates/hide-keyring/src/epoch_store.rs:155-268 | Under an ideal cipher, bytes open to a store if and only if they are byte for byte the file that was sealed, and nothing else opens whatever is typed. |
| StoreExact.SettingExists | crates/hide-keyring/src/epoch_store.rs:155-219 | For every store, passphrase and key stretching there is a cipher that meets these assumptions. |
| EpochStores.EpochStore.Insert | crates/hide-keyring/src/epoch_store.rs:98-105 | Inserting replaces or adds, and refuses a new number at the limit. |
| EpochStores.EpochStore.Remove | crates/hide-keyring/src/epoch_store.rs:109-111 | Removing drops exactly that number and says whether it was there. |
| EpochStores.EpochStore.Seal | crates/hide-keyring/src/epoch_store.rs:155-219 | The method returns the specified file or error. |
| EpochStores.EpochStore.Open | crates/hide-keyring/src/epoch_store.rs:223-268 | The method with its loops over passphrases and entries returns the specified store or error. |
| EpochRuns.LoadExactly | apps/hide-cli/src/main.rs:1229-1249 | In every state that satisfies the invariant and for every passphrase typed, loading succeeds if and only if a look at the two files says so: both there, the history at most 16 MiB, the store open, and no secret in it beyond the history; it then yields what was sealed. |
| EpochRuns.LevelExactly | apps/hide-cli/src/main.rs:1226-1249 | Under the store's passphrase, that look tells exactly whether what was saved is what is published. |
| EpochRuns.AheadIsRefused | apps/hide-cli/src/main.rs:1231-1247 | The secrets of a store one epoch ahead cannot be restored onto the published history, even if the two heads collide. |
| EpochRuns.RestoredBack | crates/hide-epoch/src/lib.rs:249-283 | Secrets that match their chain are restored exactly from the store that holds them. |
| CommandRules.LoadedExactly | apps/hide-cli/src/main.rs:1229-1249 | Whatever the two files hold: a chain is loaded if and only if both are there, of the sizes that are read and in order, and the store belongs to the history: same head, and each secret that of its record. |
| CommandRules.InitExactly | apps/hide-cli/src/main.rs:1267-1283 | What init writes, and when: only where there is neither file; the store of one secret first, then the history of one record. |
| CommandRules.AdvanceExactly | apps/hide-cli/src/main.rs:1290-1298 | What advance writes onto files that hold a chain: the store with one secret more, under the new head, then the history with one record more; or the reason it writes nothing. |
| CommandRules.EraseExactly | apps/hide-cli/src/main.rs:1305-1332 | What erase writes onto files that hold a chain: the store without one secret, or the reason it writes nothing. |
| CommandRules.CutExactly | apps/hide-cli/src/main.rs:1267-1298 | What a crash leaves of two replacements: nothing new, or the new store with the old history, and never the other way round. |
| EpochRuns.CommandHolds | apps/hide-cli/src/main.rs:1267-1332 | Every command, given any passphrase and cut short after any number of file replacements, keeps the invariant on disk and never brings an erased secret back; the first store written fixes the passphrase. |
| EpochRuns.MistypingCanBeNoticed | crates/hide-keyring/src/epoch_store.rs:223-268 | For any two different passphrases there is a world in which no store at all sealed under one opens under the other. |
| EpochTheorems.SeparatesRuns | crates/hide-keyring/src/epoch_store.rs:223-268 | In such a world every run meets the assumption of the theorems on runs: what it seals opens under no other passphrase that is typed. |
| EpochTheorems.RunHolds | apps/hide-cli/src/main.rs:1267-1332 | The invariant holds after every run of commands, mistyped passphrases and crashes. |
| EpochTheorems.CrashSafe | apps/hide-cli/src/main.rs:1273-1276 | In every state reachable from nothing, mistyped passphrases included, a published history has its current epoch's matching secret in the store, and the store is level with it or exactly one epoch ahead. |
| EpochTheorems.ErasedForever | apps/hide-cli/src/main.rs:1322-1325 | Once an erase has replaced the store, that epoch's secret is in no later store, whatever follows and whatever is typed. |
| EpochTheorems.EraseExactly | apps/hide-cli/src/main.rs:1305-1332 | After any run, an erase goes ahead if and only if a look at the files says so: loadable under this passphrase, the epoch before the last, and its secret in the store. |
| EpochFrozen.EraseReached | apps/hide-cli/src/main.rs:1305-1332 | After an init and any number of advances up to 13346, every epoch before the last can be erased. |
| EpochTheorems.StuckStays | apps/hide-cli/src/main.rs:1229-1232 | Files that no single command changes are changed by no run of them. |
| EpochHistorySize.ReadBackExactly | apps/hide-cli/src/main.rs:1123-1126 | A verified history is within the 16 MiB that are read back if and only if it has at most 13347 epochs. |
| EpochFrozen.FrozenExactly | apps/hide-cli/src/main.rs:1225-1332 | After any run, no command changes the files again if and only if there is a store and a look at the files says they cannot be loaded: no history, a history too large, or a store one epoch ahead. |
| EpochFrozen.UncutStaysLevel | apps/hide-cli/src/main.rs:1259-1332 | Commands that are never cut short leave store and history level. |
| EpochFrozen.UncutFreezesExactly | apps/hide-cli/src/main.rs:1123-1332 | Without a crash the files freeze if and only if the history has more than 13347 epochs. |
| EpochFrozen.CutInitFreezes | apps/hide-cli/src/main.rs:1267-1283 | A run that reaches it: an init cut between its two writes leaves a store without a history, frozen. |
| EpochFrozen.CutAdvanceFreezes | apps/hide-cli/src/main.rs:1290-1298 | A run that reaches it: an advance cut between its two writes leaves a store one epoch ahead, frozen. |
| EpochFrozen.GrowthFreezes | apps/hide-cli/src/main.rs:1290-1298 | A run that reaches it: 13347 advances in a row, none cut short, publish a history that is never read again. |
| EpochCommands.Files.Replace | apps/hide-cli/src/main.rs:1129-1148 | A file is replaced whole or, when the machine stops first, not at all. |
| EpochCommands.SealHeld | apps/hide-cli/src/main.rs:1217-1223 | The method that fills a store and seals it returns the specified file or error. |
| EpochCommands.LoadEpochs | apps/hide-cli/src/main.rs:1233-1249 | The object loaded is the specified chain, or the specified error. |
| EpochCommands.EpochInit | apps/hide-cli/src/main.rs:1267-1283 | The disk afterwards and the report are those of the specification, for every crash point. |
| EpochCommands.EpochAdvance | apps/hide-cli/src/main.rs:1290-1298 | The disk afterwards and the report are those of the specification, store before history. |
| EpochCommands.EpochErase | apps/hide-cli/src/main.rs:1305-1332 | The disk afterwards and the report are those of the specification, including the three refusals. |
| Streams.ReadChunk | crates/hide-object/src/lib.rs:611-622 | However reads come up short or are interrupted, the buffer is filled with the next bytes of the input until it is full or a read reports an end, final or not; only a broken reader fails. |
| StreamRules.FilledExactly | crates/hide-object/src/lib.rs:611-622 | Event by event: a buffer is filled until it is full, a read gives nothing, the reader breaks or its events are used up, whichever comes first; interruptions only cost a call. |
| Payloads.WriteRecord | crates/hide-object/src/lib.rs:643-649 | A record sealed in place is written behind its head, whole or cut off where the output is full. |
| Payloads.EncryptRecords | crates/hide-object/src/lib.rs:624-658 | With two swapped buffers and any reader, the output is the records of the fills the reader gave, all but the last as data; it succeeds if and only if the reader did not break, the fills are at most 2^32 and the output has room, and otherwise leaves a prefix. |
| Payloads.ReadRecord | crates/hide-object/src/lib.rs:670-680 | The method reads and opens exactly the next record of the specification, leaving its chunk in the buffer; an error is that of the input as far as the reader showed it. |
| Payloads.DecryptRecords | crates/hide-object/src/lib.rs:660-694 | For any reader, verdict and staged plaintext are those of the input up to the first end it reports, which is all of it unless that end came early; on a failure of input or output only a prefix was staged, chunk-aligned unless the staging write itself failed. |
| PayloadTheorems.RecordRoundTrip | crates/hide-object/src/lib.rs:587-609 | A record is read back as it was written, and what follows is left alone. |
| PayloadTheorems.StreamRoundTrip | crates/hide-object/src/lib.rs:624-694 | Reading a written stream returns the plaintext if and only if it has at most 2^32 chunks; a longer one is refused. |
| PayloadTheorems.NoncesDiffer | crates/hide-object/src/lib.rs:587-592 | Two records of one object never share a nonce, and the final one is marked. |
| PayloadTheorems.OpenedIsSealed | crates/hide-object/src/lib.rs:594-609 | Under an ideal cipher, a record that opens is byte for byte the one written at its place. |
| PayloadTheorems.StreamExact | crates/hide-object/src/lib.rs:660-706 | Under an ideal cipher, a stream is accepted if and only if it is the one written, and a refused one has staged only whole leading chunks of the plaintext. |
| PayloadRules.StreamIsForm | crates/hide-object/src/lib.rs:587-658 | The written stream byte by byte: one record for each 65536 bytes begun, each with its kind, the length of its ciphertext, and that, under the nonce and associated data of its place. |
| PayloadRules.AcceptedExactly | crates/hide-object/src/lib.rs:660-706 | A stream is accepted as a plaintext if and only if it is a run of 1 to 2^32 records that open at their places to its chunks, all but the last holding 65536 bytes, and the last holding at least one unless it is the only record. |
| PayloadReaders.EmittedExactly | crates/hide-object/src/lib.rs:624-706 | What is written for some fills opens to them if and only if every buffer but the last was full; otherwise it is refused as an invalid record at the first short one, with the full ones before it staged. |
| PayloadReaders.CutExactly | crates/hide-object/src/lib.rs:611-622 | A reader gives full chunk after full chunk up to the end of its input if and only if it does not starve: no read reports an end while bytes are left. |
| PayloadReaders.PatientExactly | crates/hide-object/src/lib.rs:611-622 | The readers that never starve, whatever they read, are exactly those that never report an end with bytes to come. |
| PayloadReaders.WrittenOpensExactly | crates/hide-object/src/lib.rs:611-706 | What is written for a reader opens to all of its input if and only if the reader did not starve; if it did, the stream is refused when a buffer before the last was short, and accepted with less than the input when only the last was. |
| PayloadReaders.ShortFillRefused | crates/hide-object/src/lib.rs:641-650 | An input: three bytes, an early end, one more byte. Writing reports success, and every reader refuses the result. |
| PayloadReaders.EarlyEndIsTruncation | crates/hide-object/src/lib.rs:660-716 | An end reported early while a payload is read back is refused as truncation, wherever it comes, with only whole leading chunks staged. |
| Extensions.CheckExtensions | crates/hide-format/src/codec.rs:275-290 | The loop that compares neighbours decides the whole rule: few, ascending, in range, short. |
| Extensions.DecodeExtensions | crates/hide-format/src/codec.rs:295-322 | The loop with its previous key reads the specified extensions or error. |
| Extensions.ExtensionsRoundTrip | crates/hide-format/src/codec.rs:275-322 | A legal run of extensions is read back after any smaller core key. |
| Extensions.CriticalKeyRefused | crates/hide-format/src/codec.rs:292-309 | A key between the core keys and 64 is refused as an unsupported feature, whatever its value and whatever follows. |
| Extensions.SignatureRoundTrip | crates/hide-format/src/codec.rs:324-337 | A signature stanza of the right sizes is read back. |
| HeaderCodec.Encode | crates/hide-format/src/codec.rs:107-150 | The encoder with its three loops gives the specified bytes or error. |
| HeaderCodec.Decode | crates/hide-format/src/codec.rs:152-205 | The decoder with its loops gives the specified verdict. |
| HeaderCodec.HeaderRoundTrip | crates/hide-format/src/codec.rs:96-205 | Decoding undoes encoding for every header the encoder accepts, unknown stanzas and extensions included. |
| HeaderCodec.HeaderCanonical | crates/hide-format/src/codec.rs:518-523 | Whatever is accepted is exactly the encoding of its result. |
| HeaderCodec.OuterRoundTrip | crates/hide-format/src/codec.rs:339-361 | Bytes decode to protected header and MAC if and only if they are their encoding. |
| HeaderRules.EncodedExactly | crates/hide-format/src/codec.rs:107-150 | What is written for a header, byte by byte with every key, count and limit spelled out, and the reason for every refusal. |
| HeaderRules.DecodedExactly | crates/hide-format/src/codec.rs:152-205 | Bytes are read as a header if and only if it is legal and they are its one form. |
| HeaderRules.OuterExactly | crates/hide-format/src/codec.rs:339-361 | The outer header is two byte strings, a protected header of 1 to 1048576 bytes and a MAC of 32. |
| MetadataCodec.Encode | crates/hide-format/src/codec.rs:384-428 | The encoder, checking each item as it comes, gives the specified bytes or error. |
| MetadataCodec.Decode | crates/hide-format/src/codec.rs:430-478 | The loop over named fields and the run of extensions gives the specified verdict. |
| MetadataCodec.MetadataRoundTrip | crates/hide-format/src/codec.rs:374-478 | Every encodable metadata is read back if and only if it is at most 262144 bytes long. |
| MetadataCodec.MetadataCanonical | crates/hide-format/src/codec.rs:430-478 | Whatever is accepted is exactly the encoding of its result, and short enough. |
| MetadataCodec.SigningBaseInjective | crates/hide-format/src/codec.rs:379-382 | The signing base fixes everything but the signature. |
| MetadataRules.FilenameDecides | crates/hide-format/src/codec.rs:480-503 | Metadata with a filename is written just when it would be without one and the name is one path component that every common system takes: 1 to 255 bytes, not `.` or `..`, no slash, backslash, control character or other reserved character, no dot or space at its end, and no device name before its first dot in any letter case. |
| MetadataRules.ReadNameIsSafe | crates/hide-format/src/codec.rs:480-503 | No other name is ever read. |
| MetadataRules.EncodedExactly | crates/hide-format/src/codec.rs:384-428 | What is written for metadata, byte by byte with every key and limit spelled out, or InvalidMetadata. |
| MetadataRules.DecodedExactly | crates/hide-format/src/codec.rs:430-478 | Bytes are read as metadata if and only if it may be written, they are its one form, and there are at most 262144 of them. |
| Transcripts.PreambleRoundTrip | crates/hide-format/src/lib.rs:95-166 | Bytes decode to a preamble if and only if they are its encoding and its fields are admissible. |
| TranscriptRules.PreambleExactly | crates/hide-format/src/lib.rs:95-166 | Bytes decode to a preamble if and only if they are its 16 bytes spelled out and its minor, flags and header length are legal. |
| Transcripts.BuildTranscript | crates/hide-object/src/lib.rs:222-247 | The method that appends field by field builds the specified transcript. |
| Transcripts.CurrentInjective | crates/hide-object/src/lib.rs:199-248 | Equal transcripts mean equal version, flags, object id, stanza tags and fields, extensions, metadata base, plaintext hash and length. |
| Transcripts.LegacyInjective | crates/hide-object/src/lib.rs:250-272 | On headers with only X-Wing stanzas and no extensions, the legacy transcript fixes the same content. |
| Transcripts.LegacyNeedsGuard | crates/hide-object/src/lib.rs:423-430 | Every other header has a different twin with the same legacy transcript, so the reader's guard is exactly what is needed. |
| Transcripts.FormsDiffer | crates/hide-object/src/lib.rs:219-229 | No message is a transcript of both forms. |
| TranscriptRules.TranscriptIsForm | crates/hide-object/src/lib.rs:199-272 | The signed message byte by byte, in the current form and in that of minor 2. |
| Containers.RecoverCek | crates/hide-object/src/lib.rs:509-532 | The loop over known stanzas returns the first key whose MAC confirms the header. |
| Containers.DecryptToStaging | crates/hide-object/src/lib.rs:411-465 | For any reader, verdict and staged plaintext are those of the specification on the input up to the first end it reports; the signature is judged over exactly what was staged. |
| Containers.OpenedCountable | crates/hide-object/src/lib.rs:423-442 | Every header a reader gets past the front of a container has fitting stanzas, and under minor 2 only what the legacy transcript covers. |
| ContainerRules.OpenedExactly | crates/hide-object/src/lib.rs:411-442 | A container opens if and only if it is a legal preamble, a legal header in its one form, a salt and a payload, the MAC is right under the key of the first stanza that gives a right one, the metadata opens to legal metadata under its own key, and under minor 2 there are no extensions in header or metadata and only known stanzas. |
| ContainerRules.SignatureExactly | crates/hide-object/src/lib.rs:469-507 | The verdict on the signature, and the reason for every refusal, with the signed bytes spelled out. |
| ContainerRules.AcceptedExactly | crates/hide-object/src/lib.rs:411-507 | Bytes are accepted with a verdict and a plaintext if and only if they are all of this: preamble, header, salt and records in their one form, each right under the keys derived from the stanza's, and the signature as the preamble says. |
| ContainerTheorems.RecipientRecovers | crates/hide-object/src/lib.rs:509-532 | A recipient recovers the content key wherever its stanza stands; nobody else recovers one. |
| ContainerTheorems.ContainerRoundTrip | crates/hide-object/src/lib.rs:282-465 | If what was sealed into a container opens again, every recipient gets back plaintext, metadata and signer; others get NoMatchingRecipient and nothing staged; metadata that already carried a signature makes a container every reader refuses. |
| ContainerTheorems.WrittenSignerVerifies | crates/hide-object/src/lib.rs:348-372 | A signature made over the draft header verifies in the finished one, in either placement, for an author who signs at least this container. |
| ContainerTheorems.SignerExactlyWhenSaid | crates/hide-object/src/lib.rs:476-492 | A signer is reported if and only if the preamble says signed, and then exactly one of the two places holds a signature. |
| ContainerTheorems.AcceptedSignature | crates/hide-object/src/lib.rs:469-507 | An accepted signer's key verified the payload for exactly the header, metadata and plaintext that were read, so that payload is among those its holder signed. |
| ContainerTheorems.SignerMeantIt | crates/hide-object/src/lib.rs:199-211 | If a key signed only certain statements, an accepted container says what one of them says: version, flags, recipients, extensions, metadata and plaintext, or two plaintexts collide. |
| ContainerWriting.HeaderLength | crates/hide-format/src/codec.rs:107-150 | A header for up to 64 X-Wing recipients, with any metadata and signature that fit, stays under 350000 bytes, far from the limit of 1048576. |
| ContainerWriting.EncryptedExactly | crates/hide-object/src/lib.rs:282-406 | Writing to X-Wing recipients succeeds if and only if there are 1 to 64 of them with stanzas that fit, the metadata can be encoded in 262144 bytes once any new signature is in it, and the plaintext keeps to its limits; otherwise the error is the one named. HeaderTooLarge never occurs. |
| ContainerForms.EncryptedIsForm | crates/hide-object/src/lib.rs:282-406 | Whatever is written is this, byte by byte: preamble, header with the sealed metadata and any public signature, MAC over both, salt, and the plaintext's records. |
| ContainerForms.EncryptedWhen | crates/hide-object/src/lib.rs:282-406 | The exact condition with every limit spelled out, and the reason for every refusal. |
| ContainerWriting.SignedMetadataIsRefused | crates/hide-object/src/lib.rs:342-380 | Metadata that already carries a signature is written all the same, unsigned or publicly signed, and then every recipient refuses the container with the error named. |
| ContainerWriting.StreamedOpensExactly | crates/hide-object/src/lib.rs:282-465 | An unsigned container written from a reader without an error is opened by its recipients to all of the input if and only if the reader did not starve; they refuse it as an invalid record if and only if a buffer before the last was short. |
| ContainerTheorems.CorrectOpensOwn | crates/hide-object/src/lib.rs:376-406 | A cipher that undoes its own sealing meets the assumption of the round trip. |
| ContainerTheorems.IdealOpensOwn | crates/hide-object/src/lib.rs:376-406 | So do keys under which nothing opens but this container's metadata and records. |
| SignedContainers.AcceptedAndAlone | crates/hide-object/src/lib.rs:199-211 | Both at once, for an author who signs one container: it is accepted with plaintext, metadata and signer, and whatever else anybody accepts from that author says the same, or two plaintexts collide. |
| SignedContainers.SettingExists | crates/hide-object/src/lib.rs:282-406 | For every hash and every signed container that can be written to X-Wing recipients there are primitives that meet all of these assumptions together. |
| ContainerExact.AcceptedIsWritten | crates/hide-object/src/lib.rs:411-465 | If the payload key sealed one plaintext and nothing else, a container accepted under the content key of one that was written is that one byte for byte, or its header carries a forged MAC. |
| ContainerExact.AcceptedExactly | crates/hide-object/src/lib.rs:282-465 | So, short of a forged MAC, a recipient accepts a container under this content key if and only if it is byte for byte the one written. |
| ContainerExact.ExactSettingExists | crates/hide-object/src/lib.rs:282-406 | For every container that can be written to X-Wing recipients there are primitives that meet these assumptions together. |

## Left out

- The primitives: SHA-256, HKDF, HMAC, X-Wing and HPKE, ChaCha20-Poly1305, Ed25519, ML-DSA, Argon2id. They are functions with the properties named above; key generation is a parameter.
- Forging of the header MAC: `ContainerExact.AcceptedExactly` names a forged MAC as its one exception; what somebody who holds a content key can write is covered only through the signature.
- ContainerTheorems.ContainerRoundTrip: assumes that a stanza opens to the wrapped content key or not at all, since opening a wrapped key is a primitive here; the writer is a function of the whole plaintext, so reading the input of a signed container into memory, up to the first end that is reported, is not modelled step by step, and neither are the test-only shapes (unknown leading stanzas, legacy writing, stripped signatures).
- Cosigning.CosignedNote: signing and cosigning are functions on a note; the in-place push onto the note's vector is not modelled.
- Cosigning.WitnessedLogsAgree: relates two notes of one size; notes of different sizes are related in `WitnessedLogs.WitnessedLogsExtend`.
- Payloads.DecryptRecords: on a failing reader or a full output the contract says what was staged, but not how far the input was read.
- Integer widths: counts and sizes are 64-bit where the code relies on it; a byte string shorter than 2^61 is assumed to be all that one allocation can hold. A 32-bit `usize` is not modelled.
- Two encoders of the repository write nothing hard: the 40-byte checkpoint, and the identity and epoch leaves of the log.
- `ProtectedHeader::signing_base`, the length and emptiness getters, and the convenience calls that only forward.
- Zeroization, memory reservation, file permissions, directory syncing, prompts and messages; of the command line only the three epoch commands and their file replacement.
- The FFI and wasm wrappers, the SDKs, the desktop application, the agent's socket protocol and the MLS crate.
- The keyring's key files and its passphrase rules beyond what the epoch store uses.
