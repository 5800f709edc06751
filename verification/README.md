# CryptoFlex: authenticated streams, headers and key agreement

A Dafny model of the parts of CryptoFlex that decide what a recipient accepts: the
DATA/FINAL frame protocol with its three stream loops, the versioned header and its
parser, the hybrid combiner and the key agreement built on it, the policy engine, the
key store, and the atomic replacement of output files. `dafny verify dfyconfig.toml`
checks everything.

## How it is put together

| module | models |
|---|---|
| `Wrappers`, `Bytes`, `Json` | result types and exception classes, big-endian integers, exclusive or, JSON values |
| `Utf8` | strict UTF-8 (section 3 of RFC 3629), concrete |
| `Aead` | AES-256-GCM as counter mode plus a tag (sections 7.1 and 7.2 of NIST SP 800-38D), the `AESGCM` object, HKDF as an uninterpreted function (sections 2.2 and 2.3 of RFC 5869) |
| `Header` | the header printer and the offset-driven parser, versions 1 and 2 |
| `Combiner` | canonical HKDF info, input key material, both sides of the combiner |
| `Sources`, `Profiles` | KEM sources as records of functions with the KEM law, the mock source, the profile registry |
| `Policy` | risk table validation, acceptability, first-fit selection |
| `Api` | deriving and recovering the root key, downgrade gate, whole-message encryption |
| `Frames` | the encoding of a chunk list, the decoder's verdict, and their laws, on byte strings |
| `Streams`, `Streaming` | binary streams with short reads, `_StreamReader`, `encrypt_stream`, `decrypt_stream`, `migrate_stream` |
| `StreamLaws` | whole streams, header included: exactness, prefix-freeness, round trip, migration |
| `Integrity` | domain separation of associated data, integrity over any number of honest runs |
| `AtomicWrite` | the temp-file-and-rename writers over a file system whose every operation may fail, and over one that is reliable |
| `Keystore`, `KdfSemaphore` | export, import and their structural checks; threads interleaving over the KDF semaphore |
| `EndToEnd` | key generation, encryption and decryption in one run, as shipped |

A `Suite` fixes one keystream, one tag function and one HKDF; every theorem holds for all
of them. The laws of authenticated encryption are lemmas about these definitions, not
assumptions. The integrity theorems assume one thing of the one input they speak of: each
frame of it that opened was sealed by some honest run (`Integrity.NoForgery`). The runs are
those whose logs `EncryptStream`, `MigrateStream`, `Encrypt` and `Migrate` report, and
`Integrity.EncryptionRunIsValid`, `MigrationRunIsValid` and `BlobRunIsValid` make them so.

A stream decoder's result is a `Verdict`: the chunks verified, and whether decoding ended at a
verified FINAL with nothing behind it (`Complete`), at one with data behind it (`Trailing`), or
before any (`Broken`). Randomness from the operating system, the names `mkstemp` picks and the
password KDFs are parameters. How many bytes a read returns is left open, except of a full
stream, which like a buffered file returns all it has up to the number asked for. Over those the
contracts leave nothing open: `DecryptStream` succeeds exactly on the inputs that are streams
(`StreamLaws.IsStream`), `EncryptStream` exactly on those within capacity, and
`Streaming.EncryptThenDecrypt` and `MigrateThenDecrypt` run them one after the other.

## What the code does that a reader may not expect

- The header is fetched by one `read`. A read that returns fewer bytes than the header has
  rejects a good stream; past the header, no slicing matters. `FirstReadMustCoverHeader` is the
  exact condition, `TinyFirstReadRejects` an instance.
- That read is capped at 64 KiB, the printer is not. A longer header gives a stream that
  encrypts and never decrypts (`OversizedHeaderNeverDecrypts`); `OversizedSenderExists` is an
  installation with two sources where `encrypt_stream` makes one. The shipped profiles never
  reach the limit (`ShippedHeadersFit`).
- The documented 64 GiB a stream are out of reach at the default chunk size of 64 KiB: the frame
  limit stops encryption at 65,536,000,000 bytes (`EndToEnd.DefaultCapacity`).
- `migrate_stream` writes the new FINAL before it looks for trailing data, so a migration refused
  for trailing data has already written a complete stream the new recipient accepts
  (`MigratedStreamReads`). The documentation speaks of partially written output only.
- The module documentation of `streaming.py` sends legacy streams, whose frames had no type, to
  `migrate_stream`. Those that carry a version 2 header do open a session; the code then refuses
  them, there as in `decrypt_stream`, at the first byte behind the header, which is no frame type.
  `decrypt_stream` has written nothing by then, `migrate_stream` its new header and nothing more
  (`UntypedFrameIsRefused`, `LegacyStreamIsRefused`, `LegacyMarkerIsRefused`).
- `to_bytes` prints headers `from_bytes` refuses: an empty profile, no components, empty or repeated
  identifiers (`ParsePrinted` says which).
- Concatenating shared secrets is injective only while their lengths are fixed
  (`JoinIsNotInjective`, `JoinedSecretsAgreeIffLengthsDo`).
- Export does not compare the bundle's identifiers with the profile's; import does, so export can
  write a key store import refuses (`PayloadRoundTrip`).
- Import does not turn every fault of a file into `DecryptionError`. A payload that is no object
  raises `TypeError`, one without a bundle `KeyError`, an empty password `ValueError`.
  `Keystore.ImportErrors` has the exact condition of each, `ImportErrorsOccur` files at which
  they happen.
- If `mkstemp` picked the very name of a destination that does not exist yet, the destination would
  show unfinished content; `FreshTempIsAllOrNothingIff` is the exact condition.

## Model

| member | source | states |
|---|---|---|
| `Utf8.DecodesExactlyEncodings` | cryptoflex/header.py:148 | strict decoding gives a string exactly when the bytes are that string encoded, so identifiers have one spelling |
| `Utf8.EncodeAscii` | cryptoflex/header.py:72-83 | ASCII identifiers are their own bytes |
| `Aead.OpenIffSealed` | cryptoflex/streaming.py:379 | a ciphertext opens to a text exactly when it is that text sealed under the same key, nonce and associated data |
| `Aead.SealMasksEveryBit` | cryptoflex/streaming.py:224 | each bit of the ciphertext differs from the text's exactly where the keystream has one set; the tag over associated data and ciphertext stands behind |
| `Aead.OpensElsewhereIff` | cryptoflex/streaming.py:376-379 | a ciphertext opens under another key, nonce or associated data exactly when the two tags coincide |
| `Aead.OtherAadIsRefused` | cryptoflex/streaming.py:376-379 | other associated data gives the text or nothing, by the tags |
| `Aead.AesGcm.Encrypt` | cryptoflex/streaming.py:224 | seals, every bit of the result fixed by text, keystream and tag, and records the use of the key |
| `Aead.AesGcm.Decrypt` | cryptoflex/streaming.py:379 | opens or refuses, and records what opened |
| `Header.ParsePrinted` | cryptoflex/header.py:64-212 | for every printable header and whatever follows: the header and its length come back when it is well formed (non-empty profile, at least one component, non-empty distinct identifiers), else the parser refuses; version 1 drops the nonce |
| `Header.PrintParsed` | cryptoflex/header.py:128-212 | a parsed header is well formed and prints to exactly the bytes consumed, which lie within the input |
| `Header.RoundTripIffWellFormed` | cryptoflex/header.py:64-212 | the round trip is the identity exactly on well-formed headers |
| `Header.ParsesExactlyPrinted` | cryptoflex/header.py:104-212 | independent definition of the parser: it returns a header exactly when the input starts with that well-formed header printed |
| `Header.ParseIsLocal` | cryptoflex/header.py:104-126 | the result depends on nothing behind the consumed bytes |
| `Header.ParseOfCut` | cryptoflex/header.py:130-202 | every cut that leaves the consumed bytes gives the same result, every shorter one is refused |
| `Header.SerializedPrefixFree` | cryptoflex/header.py:64-102 | no well-formed header's bytes begin another's, and printing is injective |
| `Header.HeaderLayout` | cryptoflex/header.py:68-102 | where magic, version, profile, count, components and nonce stand, in literal bytes, both versions |
| `Header.ComponentFieldsLayout` | cryptoflex/header.py:82-91 | identifier, then ciphertext, each behind its length, most significant byte first |
| `Header.ToBytes` | cryptoflex/header.py:64-102 | prints every printable header to its wire format, ValueError for every other |
| `Header.FromBytes` | cryptoflex/header.py:104-212 | the parser over offsets: total, in bounds, only HeaderParseError |
| `Combiner.InfoInjective` | cryptoflex/combiner.py:70-113 | the info string determines spec version, context and component list |
| `Combiner.InfoLayout` | cryptoflex/combiner.py:93-103 | version 2, the context text behind its length, the count, in literal bytes |
| `Combiner.InfoFieldsLayout` | cryptoflex/combiner.py:105-111 | identifier, then ciphertext, each behind its 4-byte length, in order |
| `Combiner.JoinedSecretsAgreeIffLengthsDo` | cryptoflex/combiner.py:140 | equal key material means equal secrets exactly when the lengths agree position by position |
| `Combiner.JoinIsNotInjective` | cryptoflex/combiner.py:140 | two secret lists with one concatenation |
| `Combiner.HkdfInputsDetermineSecrets` | cryptoflex/combiner.py:140-151 | lengths fixed, two HKDF queries are equal exactly when components and secrets are |
| `Combiner.RootKeyTellsApart` | cryptoflex/combiner.py:140-152 | lengths fixed, some key derivation function tells two root keys apart exactly when a secret, identifier or ciphertext differs |
| `Combiner.EncodeInfo` | cryptoflex/combiner.py:70-113 | builds the canonical info, fails exactly when a length or count does not fit its field |
| `Combiner.Combine` | cryptoflex/combiner.py:125-154 | encapsulating side: refuses the empty list, derives from all secrets in order, binds all ciphertexts in order |
| `Combiner.CombineFromSecrets` | cryptoflex/combiner.py:157-190 | decapsulating side: refuses other identifiers or another order, else the same key function |
| `Combiner.CombineTellsApart` | cryptoflex/combiner.py:125-154 | the same of two runs of combine: inputs that differ anywhere give different keys under a suite made for them |
| `Combiner.CombineFromSecretsTellsApart` | cryptoflex/combiner.py:157-190 | and of two runs of combine_from_secrets |
| `Sources.MockSourceCorrect` | cryptoflex/sources.py:265-297 | the mock source meets the KEM law, so the law is satisfiable |
| `Sources.MockCiphertext` | cryptoflex/sources.py:282-287 | the mock ciphertext is the secret with the bits of the peer key flipped |
| `Profiles.ShippedRegistryKeyed` | cryptoflex/profiles.py:47-78 | every shipped profile is registered under its own identifier |
| `Policy.ValidateRiskTable` | cryptoflex/policy.py:73-108 | accepts exactly the tables of the schema |
| `Policy.ValidTableKnowsItsAlgorithms` | cryptoflex/policy.py:111-144 | under a validated table an algorithm fails closed exactly when it is not listed |
| `Policy.ListedAlgorithm` | cryptoflex/policy.py:134-148 | under a validated table: approved, deprecated, quantum safe exactly as the record's own fields say |
| `Policy.AnyAlgorithm` | cryptoflex/policy.py:128-150 | under any table: a malformed field makes an algorithm none of the three |
| `Policy.ShippedTableIsValid` | cryptoflex/algorithm_status.json:1-21 | the bundled table passes validation |
| `Policy.OneEntryTableIsValidIff` | cryptoflex/policy.py:93-106 | a record is valid exactly for the two statuses and a Boolean flag |
| `Policy.ShippedChoice` | cryptoflex/policy.py:172-206 | under the bundled table with all sources available the first candidate wins, but for FAST with a quantum-safe one required |
| `Policy.DecideAsShipped` | cryptoflex/policy.py:172-212 | so the engine decides: profile, sources in order, strength and degraded flag of each constraint |
| `Policy.PolicyEngine.Make` | cryptoflex/policy.py:69-71 | an engine exactly for tables of the schema |
| `Policy.PolicyEngine.IsProfileAcceptable` | cryptoflex/policy.py:111-159 | acceptable iff all components known, one approved, one quantum safe when required; degraded iff one is deprecated |
| `Policy.PolicyEngine.Decide` | cryptoflex/policy.py:172-219 | the decision is the first usable candidate, RuntimeError exactly when there is none |
| `Policy.DecisionHonoursRequirement` | cryptoflex/policy.py:188-212 | any decision is available, known, partly approved, quantum safe when required; undegraded exactly when ideal with all components approved |
| `Policy.ChoiceMonotone` | cryptoflex/policy.py:185-219 | deprecating algorithms or losing sources never moves the choice to an earlier candidate |
| `Policy.ChoiceIsPreferred` | cryptoflex/policy.py:161-170 | over the shipped profiles the choice is best in its constraint's ranking, for MAX_SECURITY the strongest usable |
| `Api.EstablishKeys` | cryptoflex/api.py:77-103 | the profile is the engine's first-fit choice; succeeds exactly when there is one and all its sources generate; key and handle k are source k's own pair; they match whenever the sources are correct KEMs |
| `Api.EstablishDefaultKeys` | cryptoflex/api.py:77-103 | as shipped: a key for x25519 and then one for mlkem768, exactly when both generate |
| `Api.DerivedFrom` | cryptoflex/api.py:129-148 | the sender's key is HKDF of the encapsulated secrets in order under the info of the header's components |
| `Api.EverySecretCounts` | cryptoflex/api.py:110-148 | lengths fixed, some key derivation function tells two derivations apart exactly when a secret, identifier or ciphertext differs |
| `Api.RecoveredFrom` | cryptoflex/api.py:208-235 | the recipient's key is that of the decapsulated secrets in order |
| `Api.DeriveRootKey` | cryptoflex/api.py:110-148 | succeeds exactly for a known profile, keys in its order, encapsulations that succeed and fields that fit |
| `Api.RecoverRootKeyInternal` | cryptoflex/api.py:200-235 | succeeds exactly when counts and identifiers match in order and all ciphertexts decapsulate |
| `Api.RecoverRootKey` | cryptoflex/api.py:151-197 | gate first, then recovery, one DecryptionError for every failure |
| `Api.OpenSession` | cryptoflex/api.py:291-326 | parse, gate, version 2 only, recover; every failure is DecryptionError or DowngradeError |
| `Api.SessionsAgree` | cryptoflex/api.py:110-235 | sender's header serialized, parsed and decapsulated gives the sender's key, nonce and header bytes, exactly when the profile's names can stand in a header and the gate passes |
| `Api.MockSessionExists` | cryptoflex/sources.py:265-297 | the premises of agreement hold together: with the mock source a sender session exists, handles match and names fit |
| `Api.ShippedNamesFit` | cryptoflex/profiles.py:47-75 | the three shipped profiles meet that condition |
| `Api.AcceptedHeaderMatchesProfile` | cryptoflex/api.py:208-227 | any successful recovery means version 2, header identifiers equal to the profile's in order and number, one handle each, strength at least the minimum |
| `Api.DowngradeIffWeaker` | cryptoflex/api.py:297-310 | DowngradeError exactly when both profiles are known and the header's is weaker, whatever the keys and primitives |
| `Api.ShippedGate` | cryptoflex/profiles.py:47-78 | the shipped profiles pass exactly minimums from classical_only over hybrid_standard to hybrid_high up to themselves |
| `Api.OwnDecisionNeverDowngrades` | cryptoflex/policy.py:207-212 | a message for a decision's profile decrypts under the decision's own minimum |
| `Api.DecryptsExactlyBlobs` | cryptoflex/api.py:316-332 | decryption gives a text exactly when the blob is that text sealed under the session its header opens |
| `Api.BlobLayout` | cryptoflex/api.py:265-271 | header, masked text and the tag under the whole header, byte by byte |
| `Api.BlobRoundTrip` | cryptoflex/api.py:242-339 | decrypt of encrypt is the text, up to the gate, exactly for profiles whose names fit |
| `Api.Encrypt` | cryptoflex/api.py:242-271 | header, then the text with every bit masked by the keystream, sealed with the whole header as associated data; one use of the key |
| `Api.Decrypt` | cryptoflex/api.py:274-339 | the outcome of decryption on every byte string |
| `Api.Migrate` | cryptoflex/api.py:346-361 | succeeds exactly when decryption and the new derivation do; the result is the same text sealed for the new bundle, which its recipient reads; one use of the new key |
| `Frames.NonceGuardsUnreachable` | cryptoflex/streaming.py:164-171 | within the frame limit neither the length nor the overflow guard fires |
| `Frames.ChunkNoncesDistinct` | cryptoflex/streaming.py:164-171 | distinct sequence numbers give distinct nonces |
| `Frames.NonceLayout` | cryptoflex/streaming.py:164-171 | base prefix and big-endian number, byte by byte |
| `Frames.NoncesOfARunDistinct` | cryptoflex/streaming.py:205-236 | in every run all nonces used under the output key, FINAL's included, are pairwise distinct (section 8 of NIST SP 800-38D) |
| `Frames.DataFrameLayout` | cryptoflex/streaming.py:221-229 | type byte, length, masked payload, and the literal associated data that opens it |
| `Frames.FinalFrameLayout` | cryptoflex/streaming.py:233-240 | the FINAL frame is 21 bytes: type 2, length 16, and the tag of the empty text under the FINAL associated data |
| `Frames.DataFramesLength` | cryptoflex/streaming.py:226-230 | framing costs 21 bytes a frame, whatever the session |
| `Frames.DataOpensIffWithinLimits` | cryptoflex/streaming.py:361-379 | a sealed text of any length opens as DATA exactly within the limits, in numbers: 1,000,000 frames, 1 byte to 9 MiB, 64 GiB in all |
| `Frames.FinalOpensIffEmpty` | cryptoflex/streaming.py:384-393 | a sealed text opens as FINAL exactly when it is empty |
| `Frames.FitsInNumbers` | cryptoflex/streaming.py:147-153 | what a sender may write, in numbers |
| `Frames.DecodeEncoded` | cryptoflex/streaming.py:345-403 | every chunk list within the limits decodes back from its encoding, and anything behind it is noticed |
| `Frames.DecodedIsEncoded` | cryptoflex/streaming.py:345-403 | on every input, what was verified is within the limits and stands at its start exactly as the encoder writes it; acceptance means it is all there is |
| `Frames.AcceptsExactlyEncodings` | cryptoflex/streaming.py:205-240 | the decoder accepts exactly the encoder's image, limits included, with one chunk list |
| `Frames.AcceptedPrefixFree` | cryptoflex/streaming.py:384-403 | no accepted frame sequence begins another |
| `Frames.MigrationRefinesDecoding` | cryptoflex/streaming.py:503-592 | migrated frames decode to the same chunk list, have the same length, and are complete exactly when the old FINAL verified |
| `Frames.FinalVerifiedIffPrefixAccepted` | cryptoflex/streaming.py:573-590 | a FINAL verified exactly when some beginning of the input is an acceptable stream |
| `Streams.StreamReader.ReadExact` | cryptoflex/streaming.py:251-263 | a plain cursor over buffer and stream for any slicing of reads; a short read loses nothing; the loop ends |
| `Streams.StreamReader.HasRemaining` | cryptoflex/streaming.py:265-273 | answers whether anything is left and keeps it |
| `Streaming.ReadData` | cryptoflex/streaming.py:361-382 | a DATA frame is read off the stream exactly as the verdict on the remaining bytes says, limits before the payload |
| `Streaming.ReadFinal` | cryptoflex/streaming.py:384-396 | the same for FINAL |
| `Streaming.EncryptStream` | cryptoflex/streaming.py:179-243 | writes header and encoding of the chunks read, for any short reads; fails exactly when the next chunk breaks a limit, leaving DATA frames and no FINAL; reports its uses of the key; on a full input succeeds exactly within capacity, with length over chunk size, rounded up, chunks |
| `Streaming.DecryptStream` | cryptoflex/streaming.py:276-416 | outcome, output and opened frames on every input and first read; output is the verified chunks, written one by one, also when it fails; on a full input succeeds exactly when that is a stream, and writes its text |
| `Streaming.MigrateStream` | cryptoflex/streaming.py:419-604 | succeeds exactly when decryption would and the new key derives; output is the new header and the verified chunks sealed anew, only ever appended to piece by piece; the counter checks are dead code; on a full input succeeds exactly when that is a stream |
| `Streaming.EncryptThenDecrypt` | cryptoflex/streaming.py:179-416 | both operations run over full streams: the text comes back exactly when it is within capacity, the header has at most 64 KiB, the names fit and the gate passes |
| `Streaming.MigrateThenDecrypt` | cryptoflex/streaming.py:419-604 | migration and then decryption run over full streams: the old text comes back exactly when the input was a stream |
| `StreamLaws.ChunkCount` | cryptoflex/streaming.py:207-230 | chunks of which all but the last are full number length over size, rounded up |
| `StreamLaws.FullInputRun` | cryptoflex/streaming.py:207-219 | over a full input no limit fires exactly when the length is at most 64 GiB and a million chunks |
| `StreamLaws.FirstReadMustCoverHeader` | cryptoflex/streaming.py:294-305 | the verdict is independent of the first read exactly when that covers the header, else a rejection |
| `StreamLaws.TinyFirstReadRejects` | cryptoflex/streaming.py:295 | every stream, however good, is refused when the first read returns fewer than 6 bytes |
| `StreamLaws.StreamAcceptsExactly` | cryptoflex/streaming.py:294-403 | acceptance with a chunk list means the input is the opened session's header and that list's encoding, and conversely |
| `StreamLaws.FullInputAcceptsExactly` | cryptoflex/streaming.py:294-403 | the same of a full input, with nothing left to the reads: a header of at most 65536 bytes that opens a session, then an encoding within the limits |
| `StreamLaws.StreamIsUnique` | cryptoflex/streaming.py:294-403 | session and chunk list of a stream are determined by its bytes |
| `StreamLaws.StreamsPrefixFree` | cryptoflex/streaming.py:294-403 | no proper prefix or extension of an accepted stream is accepted, wherever the cut falls |
| `StreamLaws.RecipientReadsSender` | cryptoflex/streaming.py:198-405 | what a recipient makes of anything a sender wrote, whole or broken off, case by case |
| `StreamLaws.StreamRoundTrip` | cryptoflex/streaming.py:179-403 | decrypting what encrypting a text wrote gives the text, for every chunking, exactly when the first read covers the header |
| `StreamLaws.OversizedHeaderNeverDecrypts` | cryptoflex/streaming.py:295 | a header over 64 KiB encrypts and never decrypts |
| `StreamLaws.OversizedHeaderExists` | cryptoflex/header.py:72-91 | the printer makes well-formed headers of that size |
| `StreamLaws.OversizedSenderExists` | cryptoflex/streaming.py:190-198 | an installation, bundle and handles at which encrypt_stream starts under such a header, with correct sources and names that fit |
| `StreamLaws.ShippedHeadersFit` | cryptoflex/profiles.py:47-75 | with ciphertexts of at most 1568 bytes no shipped profile makes one |
| `StreamLaws.UntypedFrameIsRefused` | cryptoflex/streaming.py:345-405 | a byte behind the header that is no frame type: nothing verified, nothing decrypted, and a migration has written its new header only |
| `StreamLaws.LegacyStreamIsRefused` | cryptoflex/streaming.py:26-28 | untyped length-prefixed frames are refused at the first one |
| `StreamLaws.LegacyMarkerIsRefused` | cryptoflex/streaming.py:26-28 | so is the bare end marker of four zero bytes |
| `StreamLaws.OnlyWholeOutputIsAccepted` | cryptoflex/streaming.py:491-592 | of all beginnings of what encryption or migration writes, exactly the whole is accepted, once it ends in FINAL and the first read covers the header |
| `StreamLaws.NoStepBeforeTheLastIsAccepted` | cryptoflex/streaming.py:533-588 | the same over the pieces written: no intermediate state of the output is acceptable |
| `StreamLaws.MigratedStreamReads` | cryptoflex/streaming.py:419-592 | end to end: the new recipient gets the same chunks, and accepts exactly when the old FINAL verified, trailing data or not |
| `Integrity.AadInjective` | cryptoflex/streaming.py:174-176 | message, DATA and FINAL associated data differ for different header, kind or sequence number |
| `Integrity.SenderOwnsHeader` | cryptoflex/api.py:140-148 | a sender's session has what an honest run needs: a header that parses as a whole and carries its nonce |
| `Integrity.RecipientOwnsHeader` | cryptoflex/streaming.py:299-304 | so has the session any input opens |
| `Integrity.EncryptionRunIsValid` | cryptoflex/streaming.py:205-240 | a run of encrypt_stream, finished or stopped by a limit, is an honest run with the log it reports |
| `Integrity.MigrationRunIsValid` | cryptoflex/streaming.py:503-592 | so is a run of migrate_stream, however it ended |
| `Integrity.BlobRunIsValid` | cryptoflex/api.py:242-271 | so is a run on a whole message |
| `Integrity.SealComesFromSameSession` | cryptoflex/streaming.py:376-393 | a frame that opened and was sealed honestly was sealed in the same session, position and kind |
| `Integrity.UnforgedInputIsHonest` | cryptoflex/streaming.py:345-405 | over any honest runs with distinct headers: released plaintext begins exactly one run's plaintext, and an accepted input is that run's whole stream byte for byte |
| `Integrity.HonestStreamIsUnforged` | cryptoflex/streaming.py:205-240 | every honest stream satisfies the assumption of the integrity theorems |
| `Integrity.AcceptedIsUnforgedIffHonest` | cryptoflex/streaming.py:345-405 | an accepted input holds no forged frame exactly when it is the stream of a completed honest run |
| `Integrity.UnforgedBlobIsHonest` | cryptoflex/api.py:326-332 | a decrypted message whose seal is honest is exactly one run's blob, never a stream frame |
| `AtomicWrite.AtomicStreamWrite` | cryptoflex/cli.py:123-146 | unless the names collide, the destination is old or complete in every state passed through, and failure leaves it old; success puts everything written there; where nothing fails it succeeds exactly when the callback returns; where unlink works a failure leaves every file as it was |
| `AtomicWrite.FreshTempIsAllOrNothingIff` | cryptoflex/cli.py:84-100 | creating the temporary file keeps all-or-nothing exactly when its name differs or nothing was to be written |
| `AtomicWrite.AtomicWriteBytes` | cryptoflex/cli.py:103-120 | the same for a byte string; where nothing fails it succeeds |
| `AtomicWrite.DecryptToFile` | cryptoflex/cli.py:276-283 | decrypt_stream run into the atomic writer: no state ever shows, at the destination, plaintext of a stream not accepted in the end; success means accepted and complete; with a reliable disk and a full input it succeeds exactly on streams |
| `Keystore.DeserializePublicBundle` | cryptoflex/keystore.py:106-135 | a bundle exactly when every part has its type and decodes |
| `Keystore.OneKeyBundle` | cryptoflex/keystore.py:113-133 | the field names of a bundle, on a literal object |
| `Keystore.BundleRoundTrip` | cryptoflex/keystore.py:94-135 | serialized bundles read back |
| `Keystore.ImportedIsAligned` | cryptoflex/keystore.py:230-295 | anything import accepts has sources, public keys, private entries and handles of one length, the keys and entries under the sources' identifiers |
| `Keystore.OneKeyPayload` | cryptoflex/keystore.py:230-309 | the field names of a payload, on a literal object: what import makes of it |
| `Keystore.PayloadRoundTrip` | cryptoflex/keystore.py:143-295 | export then import returns bundle and handles exactly when the bundle's identifiers match the profile, else import refuses |
| `Keystore.KeystoreRoundTrip` | cryptoflex/keystore.py:138-228 | the same through the wrapped file, up to the size limit |
| `Keystore.WrappedFields` | cryptoflex/keystore.py:169-187 | magic, salt, nonce and sealed text of an exported file, in literal bytes |
| `Keystore.EnvelopeInBytes` | cryptoflex/keystore.py:196-215 | "CFLA" goes with Argon2id, "CFLK" with scrypt, from 32 bytes to 16 MiB |
| `Keystore.PayloadErrors` | cryptoflex/keystore.py:230-295 | TypeError exactly for a payload that is no object, KeyError exactly for one that names a registered profile and has no bundle |
| `Keystore.ImportErrors` | cryptoflex/keystore.py:190-237 | every error of import other than DecryptionError, each with its exact condition over all files, passwords and semaphore states |
| `Keystore.ImportErrorsOccur` | cryptoflex/keystore.py:230-237 | files at which TypeError and KeyError happen |
| `Keystore.DeriveWrappingKey` | cryptoflex/keystore.py:54-91 | each path with its condition, a wait that is served or times out included; one release per acquire on every path |
| `Keystore.ReadPayload` | cryptoflex/keystore.py:230-309 | the structural checks of import, in their order, and their errors |
| `Keystore.ExportKeysetBytes` | cryptoflex/keystore.py:138-187 | the wrapped file, exactly for consistent key sets, and the error of every refusal |
| `Keystore.ImportKeysetBytes` | cryptoflex/keystore.py:190-309 | the outcome of import on every byte string; success only under the KDF its magic names |
| `KdfSemaphore.RunKeepsDiscipline` | cryptoflex/keystore.py:63-91 | every schedule keeps permits plus flights at two and one release per acquire |
| `KdfSemaphore.AtMostTwoDerivations` | cryptoflex/keystore.py:50-91 | over every interleaving: from a fresh semaphore, at most two derivations, a free permit exactly below two, and no thread blocked while nobody derives |
| `KdfSemaphore.TwoDeriveAThirdWaits` | cryptoflex/keystore.py:50-91 | two threads do derive side by side while a third waits, and it enters when one of them finishes |
| `EndToEnd.DefaultCapacity` | cryptoflex/streaming.py:146-153 | at the default chunk size the frame limit stops encryption at 65,536,000,000 bytes |
| `EndToEnd.MockSourceWorks` | cryptoflex/sources.py:265-297 | the premise on sources is satisfiable |
| `EndToEnd.TwoSourceSession` | cryptoflex/api.py:110-148 | two sources that encapsulate to a bundle's keys make a session whose header fits one read |
| `EndToEnd.KeygenEncryptDecrypt` | cryptoflex/api.py:77-103 | keys by the shipped policy, streaming encryption, decryption under the policy's own minimum: the text comes back exactly up to 65,536,000,000 bytes |

## Left out

- Internals of AES-GCM, HKDF, X25519, ML-KEM, Argon2id and Scrypt, and any secrecy or hybrid-security claim.
- Sources.Matches: the KEM law is exact, where ML-KEM decapsulation fails with negligible probability.
- Api.Encrypt: does not model the 2 GiB input limit of the AESGCM object, which raises OverflowError.
- Streaming.DecryptStream: reads and writes of the streams always succeed; the code turns their exceptions into DecryptionError.
- Streaming.EncryptStream: reads and writes of the streams always succeed; the code lets their exceptions through.
- AtomicWrite.AtomicStreamWrite: permissions, fsync, interrupts by KeyboardInterrupt and other processes are not modelled; the callback's writes reach the file in order, its reads in between do not matter to it.
- Keystore.DeriveWrappingKey: whether a permit comes free before the 30 second timeout is a parameter; KdfSemaphore has the interleavings, without the clock and without fairness.
- Keystore.ImportKeysetBytes: JSON and base64 text are abstract codecs, and the bundle's trip through JSON text inside import is taken as the identity.
- Header.ToBytes: strings are sequences of Unicode scalar values, so the encoding error Python raises for lone surrogates does not arise.
- Policy.PolicyEngine.Decide: reason texts are not modelled.
- Zeroing of buffers and `del`: effects on memory the model cannot observe.
- `cryptoflex/ephemeral.py`: the body of encrypt and decrypt again.
- `migrate_file`, argument parsing, prompts, path checks and the two-file order of keygen in `cryptoflex/cli.py`.
- Probing of `PQCSource` for liboqs: availability is an arbitrary Boolean per source.
- Message texts of exceptions, exception chaining, timing and side channels.
