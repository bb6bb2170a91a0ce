# WRAITH containers and what is built on them, in Dafny

MirageX encrypts byte streams into WRAITH v4 containers, and builds a folder watcher, backups, vaults and keyfiles on
top of them. This project models those parts and proves what they promise. To verify it, run
`dafny verify dfyconfig.toml`.

**The container.** `Container` defines the format as a grammar: which parts there are, how they are laid out in bytes,
and what it means for a password to open them. It mentions neither the writer nor the reader. `Encryptor` and
`Decryptor` are the two streaming loops, as methods on a `Reader` and a `Sink` that change in place. A `Reader`
delivers any positive number of bytes per call, so every statement about its callers holds for all patterns of short
reads. Each loop is proved against a function on values (`Encode`, `Decode`), and `Acceptance` and `RoundTrip` prove
that these two functions and the grammar agree: the reader accepts exactly the layouts of containers that the password
opens, and undoes the writer. `Header`, `ManifestTrailer` and `Inspect` are the header codec, the sealed trailer and
the second header parser.

**The library code below.** AES-GCM, Argon2id, HKDF, ML-KEM, SHA-256 and JSON are uninterpreted functions in one
record, `Primitives.Crypto`. The only laws used are: opening undoes sealing under the same key, nonce and associated
data; a tag adds 16 bytes; decapsulation recovers the shared secret and has the lengths of section 8 of FIPS 203; JSON
reads back. `Primitives.ToyIsLawful` gives an instance for which every law holds. Random bytes, the clock, and whether
Argon2 accepts its parameters are inputs.

`KeySchedule` says which keys a container is sealed under and what they depend on, and `Refusals` which error stops
the reader on which input. `FilterCases`, `WatcherCases`, `BackupCases`, `NameCases`, `KeyfileSums` and `Settings` do
the same for the parts below: they tell what the shared definitions mean on inputs taken apart, in plain numbers and
characters.

**The folder watcher.** `FolderWatcher` is the polling loop as a step machine over a file tree that others change
between steps. `WatcherWorker` is the imperative loop; it records the run it makes, so everything that `WatcherRuns`
proves about all runs holds of it, and so does what `WatcherContents` proves about the bytes in the containers and the
files they come from. `WatcherLifecycle` is starting, stopping and auto-locking under the manager lock, with worker
threads that run beside the call, and `WatcherLog` ties its audit log to the runs of the workers. `Csv` is the audit
export, with a reader for it that follows section 2 of RFC 4180 with LF line ends.

**The rest.** `Crc` and `Keyfile` are the table-driven checksum and the keyfile pool; `Backup` and `BackupRoundTrip`
are the two backup loops and what they do to a source tree, `RestorePaths` where restored files land; `Vault` is the
worklist that sizes the sources, and the bounded buffer; `OutputNames` is safe output naming.

## Where the code and its promises differ

- The header is said to be sealed as a whole, all 80 bytes. The parser drops bytes 76 to 79 and rebuilds them as
  zeros, so the seal covers the first 76 only, and changing the other four goes unnoticed
  (`Header.SealCoversMeaningfulBytes`, `Acceptance.ReservedBytesIgnored`).
- The reader refuses a sealed manifest over 64 KiB; the writer does not check. The round trip therefore holds if and
  only if the sealed manifest is within the bound (`RoundTrip.RoundTrips`). With any serialiser that does not shorten
  names it fails for every name of 64 KiB or more (`RoundTrip.LongNamesAreRefused`).
- A backup does not keep a tree that has a backslash in the path of a file, which Unix allows: the recorded path has a
  slash in its place. Restoring gives back the source tree if and only if no path of a file holds one
  (`BackupRoundTrip.BackupRestoresTree`). With the file `a\b` beside the file `b` in the folder `a`, both get the same
  container, and the restore fails unless their hashes agree (`BackupRoundTrip.BackslashClash`).
- A recorded path need not stay below the restore folder. It does if and only if it is relative and never goes up more
  often than down (`RestorePaths.StaysBelowExactly`), and it leads back to the file's own place if and only if that
  holds no backslash (`RestorePaths.LandsInPlaceExactly`). Files named `\etc\x` or `..\x` land elsewhere.
- A backup silently leaves out every file named `backup_manifest.wraith`, at any depth; the tree above is the one
  without them.
- `is_active` does not mean that a worker is alive: after a restart that cannot read its keyfiles the flag stays up
  (`WatcherLifecycle.ActiveFlagCanBeStale`). The flag is wrong exactly when it is up and the last call that ended was
  a start that failed, both of which a caller sees (`WatcherLifecycle.ActiveMeansAliveExactly`).
- The worker does not look at the result of renaming the temporary file. When it fails, the encryption counts as a
  success, but the destination is as it was, and with shredding on the source is gone (`WatcherRuns.RenamingDecides`).
- Nor does it look at the result of removing a shredded file. When the file stays, emptied, it is taken again, and the
  container of what is left replaces the good one (`WatcherRuns.LeftoverReplacesContainer`).
- Starting and stopping wait for the worker while they hold the lock that the worker may want. The watcher stands
  still for good exactly when the worker waited for has just encrypted a file or been idle for too long
  (`WatcherLifecycle.StandsStillExactly`), and a stop can lead there (`WatcherLifecycle.StopCanDeadlock`).
- A chunk size of 4096 megabytes or more does not become the largest one allowed, but the default of 16
  (`OutputNames.ChunkSizeIsAccepted`).
- Different keyfiles need not make different passwords. Single keyfiles that fit the pool in one round have the same
  effect exactly when one continues the other with bytes that leave the checksum register at zero
  (`Keyfile.KeyfilesDistinguishedExactly`), as FF FF FF FF and FF FF FF FF 00 do (`Keyfile.KeyfilesCanCollide`).
- The CSV export does not escape the hash column. The export reads back to the log if and only if no hash holds a
  quote (`Csv.ExportReadsExactly`); the watcher's hashes never do, so its own export always reads back
  (`WatcherLog.ExportedLogReads`).

## Model

| member | source | states |
|---|---|---|
| Header.ToBytes | src/wraith/header.rs:61-75 | filling slices of a zeroed buffer yields exactly the documented byte layout |
| Header.ReadFrom | src/wraith/header.rs:83-138 | on a reader with short reads: the same header or the same error as parsing the first 80 bytes, and exactly those are consumed |
| Header.ParseInvertsFields | src/wraith/header.rs:61-138 | parsing undoes serialising whatever the reserved bytes hold, and accepts exactly the headers within the documented bounds |
| Header.FieldsInvertParse | src/wraith/header.rs:61-138 | serialising an accepted header gives back its first 76 bytes and four zeros |
| Header.SealCoversMeaningfulBytes | src/wraith/header.rs:61-75 | the associated data of two accepted headers is equal if and only if their first 76 bytes are |
| ManifestTrailer.OpenInvertsSeal | src/wraith/manifest.rs:33-74 | opening undoes sealing a manifest, and how long the sealed form is |
| Container.GenerateChunkNonce | src/crypto/aead.rs:20-25 | the buffer filled in place is the prefix followed by the big-endian index |
| Container.ChunkNonceInjective | src/crypto/aead.rs:20-25 | under one prefix, nonces are equal if and only if the 64-bit indices are |
| Container.ChunkAadInjective | src/wraith/encryptor.rs:183-188 | the 29 bytes of associated data are equal if and only if uuid, index, final flag and length all are |
| Streams.Reader.Read | src/wraith/encryptor.rs:157-162 | any positive part of what was asked for, zero only at the end or without room; nothing is lost or reordered |
| Streams.Reader.ReadExact | src/wraith/decryptor.rs:56-57 | for every pattern of short reads: the next k bytes, or failure exactly when fewer remain |
| Streams.Reader.Probe | src/wraith/decryptor.rs:221-224 | a one-byte probe finds a byte exactly when one remains |
| Streams.Sink.WriteAll | src/vault/mod.rs:56-72 | a write is taken whole or not at all, within the ceiling, and the content is the concatenation of the writes taken |
| Primitives.ToyIsLawful | src/crypto/aead.rs:29-76 | the laws assumed of the primitives have a model |
| Primitives.Suite.FromId | src/crypto/mod.rs:34-47 | the parsed identifiers are exactly those of the two suites, and parsing undoes numbering |
| KeySchedule.SessionIs | src/wraith/encryptor.rs:88-118 | every part of a started session: header, envelope and both keys, from which stretched password, secret, salt and identifier, under which labels |
| KeySchedule.OpeningIs | src/wraith/decryptor.rs:82-116 | the keys that opening an envelope yields, or the error of the step that fails |
| KeySchedule.SessionKeysDetermined | src/crypto/kdf.rs:53-84 | for every key derivation that tells its inputs apart: the keys of two runs, or either key alone, are equal if and only if stretched password, shared secret, identifier and salt all are |
| KeySchedule.OpenedKeysDetermined | src/crypto/kdf.rs:53-84 | the same for the keys that the reader derives |
| KeySchedule.RunKeysDiffer | src/crypto/kdf.rs:35-84 | the data key, the manifest key and the wrap key of a run are pairwise different |
| KeySchedule.ToyTellsApart | src/crypto/kdf.rs:35-84 | a derivation that tells its inputs apart is possible together with all other laws |
| Refusals.SuiteSizes | src/crypto/mod.rs:34-59 | the identifiers and lengths of both suites, in numbers |
| Refusals.HeaderLayout | src/wraith/header.rs:61-75 | each field of a serialised header, by position and value |
| Refusals.HeaderRefusals | src/wraith/header.rs:83-138 | what any serialised header is read as: its own fields within the documented bounds, in numbers, or the error of the first check that fails |
| Refusals.NoHeader | src/wraith/header.rs:83-105 | the errors for input too short, with other letters in front, or with an unknown suite |
| Refusals.EnvelopeRefusals | src/wraith/decryptor.rs:56-80 | the errors for announced lengths out of bounds and for an envelope cut short |
| Refusals.RecordRefusals | src/wraith/decryptor.rs:124-152 | the errors for a wrong index, a flag that is no boolean, a length out of bounds and a record cut short, in this order |
| Refusals.AadLayout | src/wraith/encryptor.rs:183-188 | each field of the associated data, by position and value |
| Refusals.NonceLayout | src/crypto/aead.rs:20-25 | the prefix and the big-endian index in a chunk nonce |
| Refusals.TrailerRefusals | src/wraith/decryptor.rs:191-205 | the errors for a trailer cut short, with other letters or beyond 64 KiB |
| Refusals.ManifestRefusals | src/wraith/decryptor.rs:207-224 | another count, hash or size, and anything behind the trailer, are refused with their errors; else the manifest is returned |
| Refusals.ManifestIsBound | src/wraith/manifest.rs:33-74 | a sealed manifest under another key or identifier is refused wherever the cipher refuses it |
| Refusals.StopsWhereItFails | src/wraith/decryptor.rs:123-187 | at the first record that is malformed, missing or does not open, the reader stops with its error, having released exactly the texts of the chunks before |
| Refusals.WrongPasswordIsRefused | src/wraith/decryptor.rs:91-105 | a password, or a header, that does not unwrap the envelope is refused before anything is released |
| Refusals.EmptyPasswordIsRefused | src/wraith/decryptor.rs:46-48 | an empty password is refused by reader and writer |
| Refusals.WriterRefusals | src/wraith/encryptor.rs:50-71 | what the writer refuses, in numbers, with which error |
| Encryptor.FillChunk | src/wraith/encryptor.rs:150-178 | the held-back byte and any pattern of short reads give the next full chunk or the whole rest; the chunk is final exactly when nothing follows it; no byte is lost between chunks |
| Encryptor.WriteChunk | src/wraith/encryptor.rs:183-199 | exactly one record in the layout of the format is appended |
| Encryptor.WriteChunks | src/wraith/encryptor.rs:139-224 | the loop with lookahead writes the records of the source cut into equal chunks, whatever the reads, hashes every byte once, counts the chunks and exhausts the source |
| Encryptor.WriteBody | src/wraith/encryptor.rs:120-243 | envelope, records and trailer are appended in the order of the format, exactly when they fit, and a beginning of them otherwise |
| Encryptor.WriteContainer | src/wraith/encryptor.rs:76-245 | past the guard: which of the three outcomes occurs, and what has been written in each |
| Encryptor.EncryptStream | src/wraith/encryptor.rs:42-246 | the outcome is determined for every sink: a failed check before anything is written, the encoding's own error, or a refused write exactly when the container does not fit; success appends the container and returns the byte count, and a failed run has appended only a beginning of it |
| Decryptor.ParseEnvelope | src/wraith/decryptor.rs:55-80 | the step-by-step parser accepts, refuses and consumes exactly as the envelope grammar does |
| Decryptor.ParseRecord | src/wraith/decryptor.rs:124-152 | the same for a chunk record, with its order of errors |
| Decryptor.ParseTrailer | src/wraith/decryptor.rs:191-205 | the same for the trailer |
| Decryptor.DecryptChunks | src/wraith/decryptor.rs:119-187 | the loop releases, counts and hashes what reading the records as values yields, error cases and a refusing sink included |
| Decryptor.VerifyTrailer | src/wraith/decryptor.rs:191-224 | manifest, count, hash, size and end of input are checked in the source's order, with its errors |
| Decryptor.DecryptStream | src/wraith/decryptor.rs:39-226 | result and released text are those of decoding the input, for every pattern of short reads; on success the input is exhausted |
| Acceptance.EnvelopeReads | src/wraith/decryptor.rs:55-80 | every envelope within bounds reads back from its layout |
| Acceptance.ReadsEnvelope | src/wraith/decryptor.rs:55-80 | whatever reads as an envelope is within bounds and laid out so |
| Acceptance.RecordReads | src/wraith/decryptor.rs:124-152 | every record within bounds reads back from its layout |
| Acceptance.ReadsRecord | src/wraith/decryptor.rs:124-152 | whatever reads as a record has the expected index and is laid out so |
| Acceptance.TrailerReads | src/wraith/decryptor.rs:191-205 | a trailer reads back if it is at most 64 KiB and is refused otherwise |
| Acceptance.ReadsTrailer | src/wraith/decryptor.rs:191-205 | whatever reads as a trailer is within the bound and laid out so |
| Acceptance.RunReads | src/wraith/decryptor.rs:119-187 | records numbered in order, the last one marked, are all read and their texts concatenated |
| Acceptance.ReadsRun | src/wraith/decryptor.rs:119-187 | whatever the loop accepts splits into records numbered in order with the mark on the last only |
| Acceptance.RunOverflows | src/wraith/decryptor.rs:164-166 | with too small a sink the loop stops there, and what it released is a beginning of the text |
| Acceptance.OpenedIsAccepted | src/wraith/decryptor.rs:46-226 | completeness: the layout of every container that the password opens is accepted and its text released |
| Acceptance.AcceptedIsOpened | src/wraith/decryptor.rs:46-226 | soundness: every accepted input is such a layout with nothing left over, and count, hash and size match the text released |
| Acceptance.AcceptsExactly | src/wraith/decryptor.rs:46-226 | both together: accepted with this text and manifest if and only if readable in the grammar and within the sink's room |
| Acceptance.ReadingIsUnique | src/wraith/decryptor.rs:46-226 | no input is readable under one password in two ways |
| Acceptance.TrailingBytesRefused | src/wraith/decryptor.rs:220-224 | an accepted input with anything appended is refused |
| Acceptance.PrefixFree | src/wraith/decryptor.rs:39-226 | under one password, no accepted input is a proper beginning of another |
| Acceptance.ReservedBytesIgnored | src/wraith/header.rs:83-138 | inputs that differ only in header bytes 76 to 79 have the same outcome |
| RoundTrip.LastChunk | src/wraith/encryptor.rs:164-178 | the last chunk is empty only for empty input, and never longer than a chunk |
| RoundTrip.FullChunk | src/wraith/encryptor.rs:156-178 | every other chunk is exactly full and holds the bytes at its offset |
| RoundTrip.ChunksConcatenate | src/wraith/encryptor.rs:149-224 | the chunks concatenate to the source |
| RoundTrip.ChunkCount | src/wraith/encryptor.rs:131-137 | the number of chunks written is the number predicted from the true size |
| RoundTrip.SealedChunkOpens | src/wraith/encryptor.rs:183-199 | each sealed chunk opens under the associated data that the reader rebuilds, with its own number and the mark on the last only |
| RoundTrip.NoncesDistinct | src/wraith/encryptor.rs:146-192 | within one run no nonce is used twice under the data key |
| RoundTrip.GuardsAgree | src/wraith/encryptor.rs:50-71 | the writer's guard accepts exactly the settings whose header the reader accepts |
| RoundTrip.SessionUnlocks | src/wraith/encryptor.rs:88-118 | the reader derives the writer's keys from the password, the header and the envelope |
| RoundTrip.RoundTrips | src/wraith/decryptor.rs:39-226 | for every input, option and sink with room the reader releases exactly the data; it returns the manifest with the original name, size and chunk count if and only if the sealed manifest is within 64 KiB |
| RoundTrip.TooLittleRoom | src/wraith/decryptor.rs:164-166 | otherwise the write is refused and only a beginning of the data was released |
| RoundTrip.TrailerSettles | src/wraith/decryptor.rs:191-226 | a trailer that matches is accepted if and only if it is within the bound |
| RoundTrip.LongNamesAreRefused | src/wraith/encryptor.rs:229-243 | for all primitives whose serialiser does not shorten names: every container with a name of 64 KiB or more is written without complaint and refused by the reader |
| RoundTrip.LongNameIsRefused | src/wraith/encryptor.rs:229-243 | such a container exists |
| Settings.DefaultSealing | src/wraith/encryptor.rs:76-86 | the header of a container with default settings, in numbers, and the name, time and hash in its manifest; only an empty password or the password hash can make it fail |
| Settings.WatcherSeals | src/watcher/mod.rs:364-369 | the watcher seals under its own suite, key and the file's name |
| Settings.BackupSeals | src/backup/mod.rs:139-153 | a backup seals each file under its blinded name |
| Settings.VaultSeals | src/vault/mod.rs:289-303 | a vault is sealed under the payload name |
| Inspect.InspectContainer | src/wraith/inspect.rs:29-170 | for every pattern of short reads, result or error is that of inspecting the input as a value, for all three formats |
| Inspect.InspectionIsTheCodecs | src/wraith/inspect.rs:33-81 | a WRAITH header is reported exactly when the header codec accepts it and a length field follows, and then with the codec's own fields |
| Inspect.Shown | src/wraith/inspect.rs:57-80 | which field of the report shows which field of the header |
| Inspect.MirgIsShown | src/wraith/inspect.rs:81-113 | what is read of an input in the format that begins with MIRG |
| Inspect.MiraIsShown | src/wraith/inspect.rs:137-166 | what is read of an input in the format that begins with MIRA |
| Inspect.OtherLetters | src/wraith/inspect.rs:30-33 | the errors for input too short and with other letters in front |
| Inspect.CutShort | src/wraith/inspect.rs:83-146 | the error for an older format cut short |
| Inspect.BadHeader | src/wraith/inspect.rs:33-54 | the error for a header that the codec refuses, or that nothing follows |
| Inspect.InspectionAgrees | src/wraith/inspect.rs:33-81 | on whatever the reader accepts it succeeds, with the fields of the header that opening uses and the suite's ciphertext length |
| Crc.BuildTable | src/crypto/keyfile.rs:20-38 | every entry filled in place is eight bit steps of its index |
| Crc.LookUp | src/crypto/keyfile.rs:41-44 | a step through the table is a step of the specification |
| Crc.ShiftsAreLinear | src/crypto/keyfile.rs:20-38 | bit steps distribute over exclusive or |
| Crc.StepIsShifts | src/crypto/keyfile.rs:41-44 | the table step is eight bit steps of the register with the byte mixed in, for all states and bytes |
| Crc.StepIsSerial | src/crypto/keyfile.rs:41-44 | and equals feeding the byte bit by bit to the polynomial 0xEDB88320 |
| Crc.RunningIsSerial | src/crypto/keyfile.rs:41-44 | the same for byte strings of any length |
| Crc.StepInjective | src/crypto/keyfile.rs:41-44 | from one state, different bytes lead to different states |
| Crc.StepKeepsStatesApart | src/crypto/keyfile.rs:41-44 | under one byte, different states stay different |
| Crc.CheckValue | src/crypto/keyfile.rs:223-233 | the published check value of the checksum, for the digits 1 to 9 |
| Keyfile.ProcessKeyfileBuf | src/crypto/keyfile.rs:57-78 | stepping through the lookup table, each pool byte grows by the wrapping sum of the checksum bytes over the positions that reach its slot; input beyond 1 MiB is ignored and the rest of the buffer untouched |
| Keyfile.AddRegister | src/crypto/keyfile.rs:66-72 | four bytes of the register are added in place, most significant first, and nothing else changes |
| Keyfile.ApplyKeyfiles | src/crypto/keyfile.rs:80-114 | the loops over keyfiles and buffers compute the effective password, with the error for an empty keyfile |
| KeyfileSums.PlusWraps | src/crypto/keyfile.rs:66-72 | the addition of the mixing is addition of numbers modulo 256 |
| KeyfileSums.RegisterInOrder | src/crypto/keyfile.rs:66-72 | the four bytes that are added are the register, most significant first |
| KeyfileSums.EffectiveInNumbers | src/crypto/keyfile.rs:85-114 | the closed form in integers: byte i is the password byte or 0, plus the sum over all keyfiles of the bytes of the bit-serial checksum that reach slot i, modulo 256, below a pool of 64 or 128; and the password byte behind it |
| KeyfileSums.OtherwiseUnmixed | src/crypto/keyfile.rs:86-95 | no keyfile leaves the password as it is, and an empty one is an error |
| Keyfile.PoolIgnoresOrder | src/crypto/keyfile.rs:97-105 | the pool depends on the multiset of keyfiles only |
| Keyfile.EffectiveIgnoresOrder | src/crypto/keyfile.rs:80-114 | so does the effective password, its error included |
| Keyfile.OnlyUsedPartMatters | src/crypto/keyfile.rs:59-64 | keyfiles that agree on their first MiB have the same effect |
| Keyfile.EffectiveIsLong | src/crypto/keyfile.rs:85-114 | with keyfiles, the result is at least 64 bytes and never shorter than the password; it fails exactly on an empty keyfile |
| Keyfile.PasswordsDistinguished | src/crypto/keyfile.rs:97-113 | under fixed keyfiles two passwords have the same effect if and only if they agree after zero padding to equal length |
| Keyfile.KeyfilesDistinguished | src/crypto/keyfile.rs:57-78 | two single keyfiles of one length that fit the pool in one round have the same effect if and only if they are equal |
| Keyfile.KeyfilesDistinguishedExactly | src/crypto/keyfile.rs:57-78 | of any two lengths that fit: the same effect if and only if one continues the other with bytes that each leave the register at zero |
| Keyfile.AppendedZeroIsLost | src/crypto/keyfile.rs:57-78 | for keyfiles of any size below 1 MiB: once the register is zero, an appended zero byte has no effect |
| Keyfile.KeyfilesCanCollide | src/crypto/keyfile.rs:57-78 | two keyfiles of different lengths with the same effect under every password |
| Keyfile.GuardSeesCredentials | src/wraith/encryptor.rs:50-53 | the codec refuses mixed credentials as empty if and only if there is neither a password nor a keyfile |
| Keyfile.GenerateKeyfile | src/crypto/keyfile.rs:171-213 | refuses exactly the sizes outside 1 byte to 1 MiB; otherwise byte i is the random byte with byte i mod 32 of the hash of the digest and counter i / 32 folded in |
| Keyfile.CounterShifts | src/crypto/keyfile.rs:195-208 | the block counter is big-endian |
| Keyfile.FoldingIsReversible | src/crypto/keyfile.rs:190-208 | folding the same entropy in twice gives the random bytes back, so none of their randomness is lost |
| Csv.ExportCsv | src/watcher/mod.rs:527-542 | the loop's output is the heading and one line per entry, in order |
| Csv.QuotedReads | src/watcher/mod.rs:530-535 | doubling quotes is undone by an RFC 4180 field reader for arbitrary text |
| Csv.LineReads | src/watcher/mod.rs:530-539 | a line reads back to its entry's fields when the hash holds no quote, whatever commas, quotes and newlines the names hold |
| Csv.ExportReads | src/watcher/mod.rs:527-542 | then the whole export reads back to the log |
| Csv.ExportReadsExactly | src/watcher/mod.rs:527-542 | the export reads back to the log if and only if no hash holds a quote |
| Csv.HeadingIs | src/watcher/mod.rs:528 | the column titles, in order |
| Csv.LineIs | src/watcher/mod.rs:530-539 | the line of an entry without quotes, column by column |
| Csv.QuotesAreDoubled | src/watcher/mod.rs:532-535 | a quote is doubled and all other text is kept |
| Text.DecimalParses | src/watcher/mod.rs:536 | printing a number in decimal is undone by parsing |
| Text.DecimalEnds | src/watcher/mod.rs:536 | a decimal numeral, digit by digit |
| Text.HexAt | src/watcher/mod.rs:173 | each byte of a hash is written as its two lower-case digits, the higher one first |
| Text.HexInjective | src/watcher/mod.rs:173 | different bytes have different texts |
| WatchFilter.ContainersRejected | src/watcher/mod.rs:176-206 | every name ending in `.wraith` is rejected under every filter setting |
| WatchFilter.TempsRejected | src/watcher/mod.rs:176-206 | so is every temporary name |
| WatchFilter.ShreddedRejected | src/watcher/mod.rs:176-206 | so is every name the shredder gives |
| FilterCases.JunkExactly | src/watcher/mod.rs:177-191 | which lowered names are passed over in every mode |
| FilterCases.LowersEach | src/watcher/mod.rs:177 | lowering goes character by character, in order |
| FilterCases.WhitelistExactly | src/watcher/mod.rs:193-201 | under a whitelist a name with an extension is taken if and only if some entry, cleaned and lowered, is the lowered extension |
| FilterCases.CleanedIs | src/watcher/mod.rs:198 | cleaning an entry drops the white space around it and the dots in front |
| FilterCases.WhitespaceExactly | src/watcher/mod.rs:198 | which characters are white space |
| FilterCases.NoExtensionIsRefused | src/watcher/mod.rs:202 | under a whitelist a name without an extension is refused |
| FilterCases.OtherwiseTaken | src/watcher/mod.rs:193-205 | in every other mode, and with an empty list, exactly the names that are not passed over are taken |
| FilterCases.TakesExactlyWanted | src/watcher/mod.rs:176-206 | all of it as one condition on the name |
| FileNames.TempIsNoContainer | src/watcher/mod.rs:371 | a temporary name is never that of a container |
| FileNames.ShreddedIsNoContainer | src/storage/local.rs:167-175 | nor is a shredder's name |
| FileNames.PlainNameInjective | src/watcher/mod.rs:345 | different names have different containers |
| WatcherWorker.CollectWatchFiles | src/watcher/mod.rs:208-241 | the recursive walk lists exactly the files below the folder that are reached through visible folders, are no containers and do not lie in the output folder, each once, for any order of entries |
| WatcherWorker.FoldersLeftOut | src/watcher/mod.rs:215-233 | nothing is listed behind a hidden or system folder, nor at or behind the output folder |
| WatcherWorker.FoldersEntered | src/watcher/mod.rs:215-233 | every file that is no container is listed through folders of any other names |
| WatcherWorker.Worker.EncryptTo | src/watcher/mod.rs:371-390 | reports success whether or not the renaming works; if it does, the temporary path is gone and the destination holds the encoded container, else the temporary file stays; a failed encryption removes it |
| WatcherWorker.Worker.TryFile | src/watcher/mod.rs:342-438 | disk, both maps and the history after an attempt are those of the machine's step |
| WatcherWorker.Worker.VisitFile | src/watcher/mod.rs:325-445 | the three branches for a file together make one step of the machine, and extend the recorded run by it |
| WatcherWorker.Worker.ForgetMissing | src/watcher/mod.rs:448-450 | both maps keep exactly what still exists, unchanged, as one step of the machine |
| WatcherWorker.Worker.Poll | src/watcher/mod.rs:316-450 | a poll is a run of steps, with others changing the disk before each visit: every listed file whose name is wanted and whose metadata can be read is visited, once, nothing else is, and a clean-up ends it |
| WatcherCases.GoesWhere | src/watcher/mod.rs:342-371 | where the container and the temporary file of a file go, by the folders above it and its name, in all four modes |
| WatcherCases.NoTraceLeft | src/watcher/mod.rs:363-390 | an attempt that cannot begin changes nothing, one whose encryption fails leaves no temporary file, nor, without shredding, does one whose renaming works |
| WatcherCases.ShreddedIsGone | src/storage/local.rs:162-180 | a file that is shredded is gone, and so is everything under the shredder's names |
| WatcherCases.EntryIs | src/watcher/mod.rs:407-415 | every field of a log entry |
| WatcherCases.SuccessIs | src/watcher/mod.rs:392-415 | what the history keeps of a success |
| WatcherCases.FirstVisitNotes | src/watcher/mod.rs:442-444 | a path that is neither remembered nor done is noted at its first visit |
| WatcherCases.SettledIsTried | src/watcher/mod.rs:336-340 | a visit at least 500 ms after the last sighting, with the same size, tries the file unless it is unchanged since its last encryption |
| WatcherCases.ChangedIsNoted | src/watcher/mod.rs:439-441 | one that comes earlier, or sees another size, notes it anew |
| WatcherCases.CleanUpForgets | src/watcher/mod.rs:448-450 | a clean-up forgets what is gone and nothing else |
| WatcherRuns.CreatedIsRejected | src/watcher/mod.rs:176-206 | in every run, every path the worker has ever made is one the filter rejects |
| WatcherRuns.NoFeedback | src/watcher/mod.rs:176-241 | hence no run visits a path the worker makes at any time, wherever the output folder lies |
| WatcherRuns.DestinationsApart | src/watcher/mod.rs:342-358 | different watched files have different destinations, recursive or flat, with names kept or hidden (unless the hash collides on their names) |
| WatcherRuns.AttemptKeepsOthers | src/watcher/mod.rs:363-405 | an attempt changes no other file's destination; on success, if the renaming works, it puts the container at its own |
| WatcherRuns.RenamingDecides | src/watcher/mod.rs:381-401 | after a success the container is in place if and only if the renaming worked or it was there before; with shredding on the source is there if and only if it could not be removed |
| WatcherRuns.LeftoverReplacesContainer | src/watcher/mod.rs:394-401 | a shredded file that could not be removed is encrypted again after two sightings, and what was left of it replaces the good container |
| WatcherRuns.FilesAreLeftAlone | src/watcher/mod.rs:316-450 | a step changes no file that the filter takes, in any folder, but for the one it encrypts and shreds |
| WatcherRuns.UsersFilesStay | src/watcher/mod.rs:316-450 | so over any part of a run such a file stays as it is unless others change it or the worker shreds it |
| WatcherRuns.LatestInPlace | src/watcher/mod.rs:318-446 | invariant of every run in which renaming works: each encrypted path has the container of its latest encryption at its destination |
| WatcherRuns.LatestOpens | src/watcher/mod.rs:342-384 | and that container opens, under the watcher's key, to the bytes read by that encryption and the file's name |
| WatcherContents.UnchangedIsHeld | src/watcher/mod.rs:329-404 | if nobody writes to files while they are encrypted, a file that holds what it held at its last encryption has a container that opens to exactly its bytes and name |
| WatcherContents.FingerprintIsLast | src/watcher/mod.rs:402-404 | every fingerprint is what the last encryption of its path saw |
| WatcherContents.SkippedIsHeld | src/watcher/mod.rs:329-334 | skipping is safe: a file passed over as done has at that moment a container that opens to the bytes it holds, if size and time tell its contents apart |
| WatcherRuns.FingerprintStays | src/watcher/mod.rs:402-404 | a fingerprint stays until the next encryption, or until a clean-up finds the path gone |
| WatcherRuns.ReEncryptedOnlyWhenChanged | src/watcher/mod.rs:329-334 | with shredding off, two successive encryptions of a path saw different sizes or times unless the path vanished in between |
| WatcherRuns.UnchangingEncryptedOnce | src/watcher/mod.rs:329-334 | so a file that neither changes nor vanishes is encrypted at most once in any run |
| WatcherRuns.CandidateWasNoted | src/watcher/mod.rs:438-444 | every remembered sighting comes from an earlier visit, with nothing for that path since |
| WatcherRuns.AttemptsAreDebounced | src/watcher/mod.rs:336-340 | every attempt follows a sighting of the same size at least 500 ms older, and uses it up |
| WatcherContents.EntriesAreFaithful | src/watcher/mod.rs:360-415 | every entry names the file and its container, its hash needs no escaping, and if nobody disturbs the attempt its size and hash are those of the bytes in the container |
| WatcherContents.EntriesRead | src/watcher/mod.rs:524-542 | any selection of a run's entries reads back from its export |
| WatcherLifecycle.StepIsSafe | src/watcher/mod.rs:243-500 | every action of a call or a worker keeps the safety invariant |
| WatcherLifecycle.RunIsSafe | src/watcher/mod.rs:243-500 | so it holds in every reachable state |
| WatcherLifecycle.AtMostOneWorker | src/watcher/mod.rs:257-265 | whenever the lock is free at most one worker is alive, its handle is stored, and auto-locked implies not active |
| WatcherLifecycle.NeverTwoWorkers | src/watcher/mod.rs:260-265 | not even in the middle of a restart are two workers alive |
| WatcherLifecycle.ActiveFlagCanBeStale | src/watcher/mod.rs:260-273 | a run after which the flag says active and no worker is alive |
| WatcherLifecycle.ActiveMeansAliveExactly | src/watcher/mod.rs:257-273 | whenever the lock is free, an active flag means a live worker if and only if it is not the case that the flag is up and the last finished call was a failed start |
| WatcherLifecycle.AutoLockedExactly | src/watcher/mod.rs:299-306 | in every reachable state the watcher says that it has locked itself if and only if the last start or auto-lock was an auto-lock |
| WatcherLifecycle.ActiveExactly | src/watcher/mod.rs:299-497 | the active flag is up if and only if the last start, stop or auto-lock was a start that succeeded |
| WatcherLifecycle.SignalsAreRight | src/watcher/mod.rs:260-265 | the worker a call waits for has been told to stop and can exit when it polls; the one whose handle is stored has not |
| WatcherLifecycle.StandsStillExactly | src/watcher/mod.rs:257-306 | in every reachable state, nothing can happen any more if and only if a call waits for a worker that wants the lock to log or to lock |
| WatcherLifecycle.StopCanDeadlock | src/watcher/mod.rs:417-494 | a run that gets there by stopping a started watcher between an encryption and its log entry |
| WatcherLifecycle.LogIsLatest | src/watcher/mod.rs:417-427 | of what the worker of the last successful start has encrypted, all is counted but at most one entry that waits for the lock, and the log is the last min(count, 1000) of it, in order; nothing older is left |
| WatcherLog.LogShowsSuccesses | src/watcher/mod.rs:392-427 | hence the log is the latest successes of that worker's run of the machine |
| WatcherLog.ExportedLogReads | src/watcher/mod.rs:524-542 | at every point the exported log reads back to exactly the log, with no assumption on its entries |
| WatcherLog.ExportLog | src/watcher/mod.rs:524-542 | what the manager exports reads back to exactly its log |
| WatcherLifecycle.Manager.StopExisting | src/watcher/mod.rs:260-265 | taking the handle, raising the signal and joining are one path of the machine, whatever the workers do meanwhile |
| WatcherLifecycle.Manager.Start | src/watcher/mod.rs:257-480 | a start is a path of the machine that ends with the lock free: on success with the new handle and a reset status, on unreadable keyfiles with no handle and the status as it was |
| WatcherLifecycle.Manager.Stop | src/watcher/mod.rs:485-500 | a stop is a path of the machine that ends with no worker alive, no handle and the flag down; log and counter stay |
| WatcherLifecycle.Manager.LogSuccess | src/watcher/mod.rs:417-427 | counting, appending and dropping the oldest of more than 1000 entries are the machine's pushing action; the rest of the status stays |
| WatcherLifecycle.Manager.LockIdle | src/watcher/mod.rs:299-306 | auto-locking raises its flag, lowers the active one and ends the worker; handle, log and counter stay |
| Backup.CollectFilesRecursive | src/backup/mod.rs:72-88 | the recursive walk with its shared list appends the files of the tree in order, without those named like the manifest, and fails exactly when some folder cannot be listed |
| Backup.StoreFile | src/backup/mod.rs:115-163 | one file adds its container under its blinded name, and its entry |
| Backup.StoreFiles | src/backup/mod.rs:115-163 | the loop's archive, entries and byte total are those of the list, and it stops at the first failure |
| Backup.CreateBackupArchive | src/backup/mod.rs:90-211 | the archive holds every file's container and the sealed manifest that lists them |
| Backup.RestoreEntries | src/backup/mod.rs:254-285 | the loop restores the entries in order and stops at the first missing, unreadable or altered one, with its error |
| Backup.RestoreBackupArchive | src/backup/mod.rs:213-293 | the outcome is that of opening the manifest and restoring its entries |
| BackupCases.BlindedNameIs | src/backup/mod.rs:65-70 | the name of a container, from the recorded path |
| BackupCases.EntryIs | src/backup/mod.rs:156-162 | every field of an entry |
| BackupCases.ManifestIs | src/backup/mod.rs:170-177 | every field of the manifest, with one entry for each file in order |
| BackupCases.ManifestRefused | src/backup/mod.rs:232-249 | the errors for a manifest that is missing, does not open or does not parse |
| BackupCases.EntryRefused | src/backup/mod.rs:254-281 | the errors for a container that is missing, does not open or holds other bytes than recorded |
| BackupCases.FirstRefusalDecides | src/backup/mod.rs:254-285 | the first entry that is refused decides the outcome of a restore |
| BackupCases.TotalsAreRecorded | src/backup/mod.rs:283-284 | the totals of a restore count the entries and add up the sizes they record |
| BackupCases.FirstFailureDecides | src/backup/mod.rs:115-163 | the first file that cannot be sealed decides the outcome of a backup |
| BackupRoundTrip.StoredOpens | src/backup/mod.rs:115-163 | in the finished archive every file's container is intact and opens to its bytes, when blinded names do not collide |
| BackupRoundTrip.EntriesRestore | src/backup/mod.rs:254-285 | restoring the entries of a list of files gives those files, their number and their total |
| BackupRoundTrip.BackupRoundTrips | src/backup/mod.rs:90-293 | create then restore succeeds and gives the collected files back with equal totals, when their blinded names are apart |
| BackupRoundTrip.CollectedIsTree | src/backup/mod.rs:72-88 | a file is collected if and only if the tree has it at that path and it is not named like the manifest |
| BackupRoundTrip.SlashedInjective | src/backup/mod.rs:116-120 | joined with slashes, paths are equal only if they are the same path |
| BackupRoundTrip.BackupHoldsTree | src/backup/mod.rs:72-120 | the recorded names lead to exactly the tree's files if and only if no path of a file holds a backslash |
| BackupRoundTrip.BackupRestoresTree | src/backup/mod.rs:90-293 | restoring a backup of a folder gives exactly its files at their relative paths with their bytes, except those named like the manifest, if and only if no path of a file holds a backslash; then with equal totals |
| BackupRoundTrip.SharedNameIsRefused | src/backup/mod.rs:116-136 | two files recorded under one name with different hashes: the backup is made and never restores |
| BackupRoundTrip.BackslashClash | src/backup/mod.rs:116-136 | the concrete tree with `a\b` beside `a/b` is such a case |
| RestorePaths.StaysBelowExactly | src/backup/mod.rs:260 | a recorded path joined to the restore folder stays below it if and only if it is relative and no beginning of it goes up more often than down |
| RestorePaths.LandsInPlaceExactly | src/backup/mod.rs:116-260 | a listed file lands at its own relative path if and only if that path holds no backslash |
| RestorePaths.RestoresInPlace | src/backup/mod.rs:116-260 | every file of a backup lands in its place if and only if no path of a file holds a backslash |
| RestorePaths.AbsoluteNameLeaves | src/backup/mod.rs:116-260 | the file name `\etc\x` is recorded as an absolute path, which replaces the restore folder |
| RestorePaths.ClimbingNameLeaves | src/backup/mod.rs:116-260 | the file name `..\x` is recorded as a path that goes up |
| Vault.ValidateSourcePaths | src/vault/mod.rs:139-190 | the worklist ends on every tree, succeeds if and only if all nodes are regular files or folders and the sizes sum to at most 2 GiB less 64 MiB, and returns the sum; each error has its cause in some node |
| Vault.CreateVault | src/vault/mod.rs:192-338 | the outcome is determined, in the source's order of checks: credentials, sources, their sizes, the packed size, keyfiles, and then only a failing password hash; success is the container of the archive under the effective password, and opens under the same credentials to the full archive if its sealed manifest is within 64 KiB |
| Vault.OpenVault | src/vault/mod.rs:340-376 | the outcome is that of decoding under the effective password into a buffer of at most 2 GiB, and what is returned is within the limit |
| Vault.KeysDetermined | src/vault/mod.rs:255-256 | two credentials make the same vault key if and only if they have the same effective password |
| Vault.OtherKeyfileOtherKey | src/vault/mod.rs:255-256 | another keyfile of the same length, where both fit the pool in one round, makes another key |
| Vault.KeyfileMatters | src/vault/mod.rs:255-256 | with and without keyfiles the key differs, for every password shorter than the pool |
| Vault.OpensExactly | src/vault/mod.rs:340-376 | a container that the writer made opens as a vault if and only if it fits the limit, its sealed manifest is within 64 KiB and it carries the payload name; it then opens to all its data |
| OutputNames.SanitizedIsSafe | src/commands/mod.rs:100-152 | for every string the result is one non-empty component without separators, forbidden or control characters, edge dots or spaces, or a reserved stem |
| OutputNames.SanitizeKeepsExactlySafe | src/commands/mod.rs:100-152 | exactly the safe names come through unchanged, so sanitising is idempotent |
| OutputNames.DirectoriesAreDropped | src/commands/mod.rs:100-152 | any directories before a safe name are dropped, whichever slash is used |
| NameCases.SanitizeIsPortable | src/commands/mod.rs:100-152 | the two statements above with the characters and device names written out |
| NameCases.LastComponentIs | src/commands/mod.rs:109-114 | the last component of a path behind any folders, with slashes and dots behind it |
| NameCases.ControlsAreDropped | src/commands/mod.rs:102-106 | a control character anywhere makes no difference |
| NameCases.EdgesAreDropped | src/commands/mod.rs:116-117 | spaces and dots around a portable name are dropped |
| NameCases.ForbiddenFallsBack | src/commands/mod.rs:119-134 | a name with a forbidden character other than a separator becomes the fallback |
| NameCases.DevicesAreReserved | src/commands/mod.rs:136-149 | the device names are reserved in any case and with any last extension, and no others are |
| OutputNames.UniqueOutputName | src/commands/mod.rs:427-453 | the desired name if it is free, else the free candidate with the least number, else the random form |
| NameCases.CandidateIs | src/commands/mod.rs:430-446 | the number goes in front of the extension |
| OutputNames.CandidatesDiffer | src/commands/mod.rs:440-446 | candidates with different numbers are different names |
| OutputNames.FreeCandidateExists | src/commands/mod.rs:440-446 | in a folder with fewer than 9999 entries some candidate is free |
| OutputNames.ChunkSizeIsAccepted | src/commands/mod.rs:544-548 | the chunk size used, in numbers, for every size asked for; it is never one the encryptor refuses |

## Left out

- Strength and internals of the primitives; AES-GCM's own limit on the length of one message (sealing is total here).
  That a hash does not collide is assumed only for the names that occur, where a statement needs it.
- Wrap-around of the 64-bit counters: counters are unbounded numbers, and the round trip is stated for fewer than 2^64
  bytes of data.
- I/O errors other than the end of a source and a sink that is full.
- Zeroization, file modes, fsync and progress reports, which have no effect on the bytes.
- Tauri commands, the user interface, the command line, the updater, desktop notifications and benchmarks.
- WatcherRuns.LatestOpens: assumes that renaming works throughout the run (without it the claim is false, see above)
  and that nobody else changes the containers; the file must be below 2^64 bytes and its sealed manifest within 64
  KiB. Creating folders below the output folder, and what a failed shredding leaves under the shredder's names, count
  as changes by somebody else. Removing the temporary file of a failed encryption works.
- WatcherContents.UnchangedIsHeld: reading a file is one step; a file that is written to while it is being encrypted
  is excluded by the hypothesis.
- Symbolic links and names that are not UTF-8, in watched folders and elsewhere.
- Lower-casing is done character by character, through a parameter of which only its effect on ASCII is assumed; the
  rule for a final sigma depends on context and is left out.
- The inactivity clock: a watcher may expire at any time here. The checks on the arguments of a start, before the lock
  is taken, are left out too.
- Fairness: that a call ends when it does not stand still for good.
- The JSON Lines export.
- The passes of the shredder over a file's contents: only the names it gives are modelled.
- Backup.RestoreEntries: restored files are kept by their recorded paths; where those land is stated apart, and
  file-system errors while restoring, such as a folder to be made where a file is, and files left by a restore that
  fails half-way are not modelled.
- Backup: symbolic links; folders that overlap.
- BackupRoundTrip.BackupRestoresTree: for files below 2^64 bytes with sealed manifests within 64 KiB, and hashes that
  do not collide on the relative names.
- WatcherLifecycle.Manager.Start: the status fields that only repeat the configuration, and the text of the last
  event, in this and the other methods of the manager.
- Vault.CreateVault: errors while packing, reading the keyfiles from disk, writing the temporary file and moving it
  into place. Packing and unpacking the TAR archive, which is a byte string here, and the map of open sessions are
  left out too.
- OutputNames.SanitizedIsSafe: paths are taken apart by the Unix rules, without Windows drive prefixes.
- The wording of inspection reports on the older MIRG and MIRA formats.
