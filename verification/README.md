# Verified models of the messaging stack

Dafny models of the parts of this chat system where state, arithmetic or ordering
decide correctness, with proofs of what they promise:

- **Double ratchet** (`Ratchet`, `RatchetSession`): one party's state and the
  two-party protocol over a channel that reorders, delays and loses messages, after
  "The Double Ratchet Algorithm", sections 2.6 and 3.3 to 3.5. Keys are terms over free
  constructors, a Diffie-Hellman output is the unordered pair of two secrets, and every
  new secret is fresh.
- **Wire format** (`Crc32`, `Varint`, `Frame`, `Codec`, `Payload`): printer, resumable
  parser and table-driven checksum (the frame check sequence of IEEE 802.3, section
  3.2.9), and the message payloads.
- **Log-structured storage** (`Records`, `Merge`, `Directory`, `SegmentFiles`, `Compaction`,
  `Engine`, `Lifetimes`, `SegmentNames`, `PrefixScan`, `ByteOrder`, `Decimal`): files are byte strings, a
  directory maps segment ids to files, a crash cuts a file at a byte, and
  `RecoversTo(directory, map)` says what the next opening answers.
- **Message store and resend mailbox** (`StoreKeys`, `Store`, `StoreRuns`, `Outbox`,
  `OutboxRuns`) on that engine.
- **Mounted file view** (`Lru`, `Paths`, `MemFileSystem`, `DirCache`): the slab cache, the
  inode tree and the listings cached from it.
- **Duplicate filter** (`Dedup`, `Session`) and **latency histogram** (`Histogram`).

Where the source updates objects in place the model is a class whose methods equate the
new state with a function of the old one; the laws are lemmas about those functions.
`Wrappers` and `Arith` hold shared types and arithmetic. `dafny verify dfyconfig.toml`
checks everything.

Some properties fail in the code. Each has its exact condition proved in both directions
and an input that fails it:

| fails | exactly when | input |
|---|---|---|
| the session filter hands a number on once | `DropsExactly`, `ForgetsExactly` | `LargestHandedTwice`, `SmallHandedTwice` |
| the window rejects a number fed twice in a row | `SecondTimeIsDuplicateIff` | `LargestRepeated` |
| a message delivered again changes nothing | `ReplayIsNeverAccepted` | `ReplayLosesAMessage` |
| a seal after a compaction keeps writes | `SealAfterCompactIff` | `CompactThenSeal` |
| a reopen after a compaction keeps writes | `ReopenAfterCompactIff` | `CompactThenReopen` |
| a seal keeps every record written | `SealKeepsLegible` | `OversizedIsLost` |
| a reopen finds every segment | `ReopensTo`, `ReopensIff` | `PastEightDigits` |
| a local id is never handed out twice | `HandedOutAgainIff` | `IdHandedOutAgain` |
| a crash leaves a message in one of its tables | `CrashLosesIff` | `ConfirmCutShort` |
| a failed deletion is harmless | `AnyDeletionIff` | `DeletedKeyReturns` |
| a cached listing is right | `InvalidationIff` | `StaleAlias` |

Others hold within a limit that is proved exact: the last byte of a scanned prefix
(`RangeIsExactIff`, `ScanIsExactIff`), the size of records (`FrameReadsBack`), the digits
of segment names (`NameParses`) and percentage 0 (`ZeroPercentIff`).

Code and comments disagree in these places; the model follows the code:

- `crates/im-bench/src/histogram.rs:98-100` promises a rank of at least 1; for percentage
  0 the rank is 0 (`ZeroPercentIff`).
- `crates/im-transport/src/dedup.rs:101` calls the wrap at the largest number safe; it
  makes the window forget (`SecondTimeIsDuplicateIff`). `dedup.rs:141-144` says frames of
  a skipped range are taken for new; they are dropped (`NewWindow`, `DropsExactly`).
- `crates/im-storage/src/engine.rs:388` calls a failed deletion harmless; it can revive a
  deleted key (`AnyDeletionIff`, `DeletedKeyReturns`).
- `crates/im-storage/src/store.rs:121` says that an id is never used again after a restart;
  after a crash that cuts the record of the counter it is (`HandedOutAgainIff`).
- `crates/im-storage/src/store.rs:231` calls the cursor monotone; any value is stored
  (`SetSyncCursor`).

## Model

| member | source | states |
|---|---|---|
| RatchetSession.DeliveryIsExact | crates/im-crypto/src/e2ee/ratchet.rs:230-388 | In every reachable world a message in flight was sent by the peer, its delivery never panics, and it opens to exactly the plaintext of its `encrypt` call if and only if the skip limits let it; a refusal is always `TooManySkipped`, with the gap of the chain that exceeds the limit |
| RatchetSession.EncryptPanicsExactlyWhen | crates/im-crypto/src/e2ee/ratchet.rs:230-256 | In every reachable world `encrypt` panics exactly for a responder that has received nothing yet, or when a chain has used all its 32-bit numbers |
| RatchetSession.KeysNeverRepeat | crates/im-crypto/src/e2ee/ratchet.rs:235-256 | No two successful `encrypt` calls of a session, on either side, seal with the same message key |
| RatchetSession.CacheIsExact | crates/im-crypto/src/e2ee/ratchet.rs:270-301 | In every reachable world `skipped` holds exactly the undelivered messages addressed to that side that lie in an older chain or below `n_recv`, each under the key it was sealed with |
| RatchetSession.ReplayIsNeverAccepted | crates/im-crypto/src/e2ee/ratchet.rs:273-287 | A message delivered before is never accepted again, with the error of each case; delivering it again leaves the state unchanged if and only if it is of the chain being read or draining that chain is refused; otherwise its key is taken for a new DH key |
| RatchetSession.ReplayLosesAMessage | crates/im-crypto/src/e2ee/ratchet.rs:270-301 | A reachable world in which a message of an older chain, delivered again, changes the state and makes a message in flight unreadable that could be read before |
| RatchetSession.StepKeeps | crates/im-crypto/src/e2ee/ratchet.rs:230-388 | Sending, delivering in any order and losing keep an invariant by which each side mirrors one shared history of chains |
| RatchetSession.ReachableHolds | crates/im-crypto/src/e2ee/ratchet.rs:186-226 | Every world reachable from the two initial states satisfies that invariant |
| RatchetSession.DecryptNewChain | crates/im-crypto/src/e2ee/ratchet.rs:274-301 | A message of the peer's next chain: the old chain is drained, both chains turn, and the receiver mirrors the longer history; refusals leave it at the old or the turned state |
| RatchetSession.DecryptOldOrCurrent | crates/im-crypto/src/e2ee/ratchet.rs:270-301 | A message of a known chain opens to its plaintext and only its own key leaves the cache or the chain moves past it; a refused one changes nothing |
| RatchetSession.KnownChainIsRead | crates/im-crypto/src/e2ee/ratchet.rs:290-388 | In any state, for any message on the chain being read, forged or not: within the skip limit exactly the keys passed over are cached and the chain moves past the message, whether or not it opens; beyond it nothing changes; it opens if and only if it was sealed with the chain's key under its own header |
| RatchetSession.CachedKeyIsTaken | crates/im-crypto/src/e2ee/ratchet.rs:270-274 | A cached key is used up by the first message that claims it, and opens it if and only if it was sealed with it under its own header |
| Ratchet.OpenedIsAuthentic | crates/im-crypto/src/e2ee/ratchet.rs:270-301 | Whatever opens, in any state, was sealed under the header it comes with and gives the plaintext sealed |
| RatchetSession.TamperedIsRefused | crates/im-crypto/src/e2ee/ratchet.rs:270-301 | In every reachable world a ciphertext of the session under an altered header is never opened |
| Ratchet.DecryptCachesBoundedly | crates/im-crypto/src/e2ee/ratchet.rs:270-301 | Whatever message arrives in whatever state, one `decrypt` adds at most 2 * MAX_SKIP keys |
| Ratchet.RatchetState.EncryptMessage | crates/im-crypto/src/e2ee/ratchet.rs:230-256 | The imperative `encrypt` refines the specification, panics included |
| Ratchet.RatchetState.DecryptMessage | crates/im-crypto/src/e2ee/ratchet.rs:270-301 | The imperative `decrypt` refines the specification: result, panic and whole new state |
| Ratchet.RatchetState.SkipForward | crates/im-crypto/src/e2ee/ratchet.rs:360-388 | The skip loop caches exactly the keys from `n_recv` up to the target, or refuses without a change |
| Ratchet.RatchetState.DhRatchetSendSide | crates/im-crypto/src/e2ee/ratchet.rs:305-317 | A fresh key pair opens the sending chain and remembers the length of the previous one |
| Ratchet.RatchetState.DhRatchetRecvSide | crates/im-crypto/src/e2ee/ratchet.rs:320-343 | The receiving chain is agreed with the old key pair, then a new sending chain is opened |
| Crc32.MakeTable | crates/im-protocol/src/crc32.rs:25-45 | Every table entry is eight rounds of reflected polynomial division of its index |
| Crc32.UpdateState | crates/im-protocol/src/crc32.rs:65-71 | The table-driven loop equals bit-by-bit division, from any start state |
| Crc32.ChecksumOf | crates/im-protocol/src/crc32.rs:92-96 | The one-shot checksum is the bit-by-bit one |
| Crc32.DivideConcat | crates/im-protocol/src/crc32.rs:65-78 | Feeding two chunks equals feeding their concatenation, for every split |
| Crc32.BurstIsDetected | crates/im-protocol/src/crc32.rs:25-96 | Two inputs of equal length that differ only within four consecutive bytes always have different checksums |
| Crc32.KnownAnswer | crates/im-protocol/src/crc32.rs:103-112 | The checksums of nothing and of `abc` are the published ones |
| Crc32.BytesOfRegister | crates/im-storage/src/engine.rs:125-134 | Which byte of the register stands where when it is written |
| Crc32.LittleEndianRoundTrip | crates/im-storage/src/engine.rs:125-134 | A checksum written little-endian reads back |
| Crc32.BigEndianRoundTrip | crates/im-protocol/src/frame.rs:160-169 | A checksum written big-endian reads back |
| Varint.EncodeU64 | crates/im-protocol/src/varint.rs:50-66 | The writing loop produces the varint and reports its length |
| Varint.EncodedLenIsExact | crates/im-protocol/src/varint.rs:68-76 | The length computed from the leading zeros is the length written, for every value |
| Varint.EncodingIsShort | crates/im-protocol/src/varint.rs:28-66 | Every u64 takes between one and ten bytes |
| Varint.VarIntDecoder.Push | crates/im-protocol/src/varint.rs:146-158 | One byte pushed into the resumable decoder: value, more, or too long, and the whole new state in each case |
| Varint.DecodeU64 | crates/im-protocol/src/varint.rs:109-118 | The one-shot decoder equals pushing byte by byte |
| Varint.RoundTrip | crates/im-protocol/src/varint.rs:50-118 | Decoding an encoding, whatever follows it, gives the number back and takes exactly its bytes |
| Varint.CutNeverDecodes | crates/im-protocol/src/varint.rs:109-118 | A proper prefix of an encoding never decodes |
| Varint.DecodesIff | crates/im-protocol/src/varint.rs:109-158 | Bytes decode if and only if they start with at most ten bytes of which all but the last have the high bit, to the number of their low groups modulo 2^64; longer encodings than needed are taken |
| Varint.DecodedIsNoShorter | crates/im-protocol/src/varint.rs:109-158 | Whatever decodes, also a non-canonical varint, took at least as many bytes as its value needs |
| Frame.CommandBytes | crates/im-protocol/src/frame.rs:52-83 | A command byte is accepted exactly when it is the byte of the command returned; the bytes 1 to 8 are, any other is reported |
| Frame.PingLayout | crates/im-protocol/src/frame.rs:140-170 | A heartbeat frame, byte for byte, with its checksum over the first eight bytes |
| Frame.EncodedLenIsExact | crates/im-protocol/src/frame.rs:127-137 | `encoded_len` is the number of bytes of the encoding, for all 64-bit fields |
| Frame.EncodeInto | crates/im-protocol/src/frame.rs:140-170 | The buffer-and-checksum loop appends exactly the frame's encoding |
| Codec.FeedConcat | crates/im-protocol/src/codec.rs:123-273 | The byte machine fed with two chunks equals fed with their concatenation, errors included |
| Codec.ChunkingIsInvisible | crates/im-protocol/src/codec.rs:123-273 | For every split into chunks, one call decodes exactly when all chunk calls do, with the same frames and the same final state |
| Codec.FrameDecoder.Decode | crates/im-protocol/src/codec.rs:123-131 | One call returns the frames the byte machine completes, or its error, and leaves the state it leaves |
| Codec.FrameDecoder.NextFrame | crates/im-protocol/src/codec.rs:133-177 | The loop over stages consumes the buffer exactly as the byte machine would up to the next frame, error or end |
| Codec.FrameDecoder.Advance | crates/im-protocol/src/codec.rs:189-273 | One stage on the buffered bytes equals running the byte machine over them |
| Codec.FrameDecoder.FeedVarint | crates/im-protocol/src/codec.rs:283-296 | Feeding a varint field consumes its bytes, keeps a partial one, or fails |
| Codec.FrameDecodes | crates/im-protocol/src/codec.rs:133-273 | The encoding of a frame followed by anything decodes to that frame and leaves the rest if and only if its payload is within `max_frame_len`; otherwise it is `FrameTooLarge` |
| Codec.WireDecodes | crates/im-protocol/src/codec.rs:133-273 | Any frame on the wire, also with longer varints than needed, followed by any four bytes: handed out if and only if its payload is within the limit and the four bytes are its checksum; the error otherwise |
| Codec.HandsOutIff | crates/im-protocol/src/codec.rs:133-273 | For all bytes: a frame is handed out if and only if the stream starts with all of its bytes and their right checksum, and its payload is within the limit |
| Codec.RefusedIff | crates/im-protocol/src/codec.rs:133-296 | For all bytes: each refusal and what it reports is characterised by the bytes: magic, version, command, overlong varint, length, checksum |
| Codec.HandedOutIsSound | crates/im-protocol/src/codec.rs:133-273 | What is handed out came behind magic, version, its command byte and flags, and before the big-endian checksum of all bytes up to it |
| Codec.StreamIsFrames | crates/im-protocol/src/codec.rs:123-131 | For every stream that decodes, the frames returned are exactly those its bytes consist of, one after the other, each with its right checksum; the rest is an unfinished frame |
| Codec.DamagedIsNoFrame | crates/im-protocol/src/codec.rs:250-261 | A frame damaged within four consecutive bytes, of what the checksum covers or of the checksum, is never a frame of that length |
| Codec.DamageIsReported | crates/im-protocol/src/codec.rs:250-261 | Such damage to the payload or the checksum always gives `CrcMismatch`, whatever follows |
| Codec.StreamRoundTrip | crates/im-protocol/src/codec.rs:123-273 | The concatenated encodings of any frames within the limit decode to exactly those frames and end between frames |
| Codec.ChunkedRoundTrip | crates/im-protocol/src/codec.rs:123-273 | The same in chunks, however the stream is split |
| Codec.CutFrameWaits | crates/im-protocol/src/codec.rs:133-177 | No frame appears, and no error, before its last byte |
| Payload.Reader.NextVarint | crates/im-protocol/src/payload.rs:96-101 | Reading a varint moves the cursor past it, or fails |
| Payload.Reader.NextBytes | crates/im-protocol/src/payload.rs:104-119 | Reading length-prefixed bytes moves the cursor past them, or reports how much is missing and leaves the cursor where the length ended |
| Payload.Decode | crates/im-protocol/src/payload.rs:272-283 | The cursor program computes the specification of message decoding |
| Payload.DecodeBatch | crates/im-protocol/src/payload.rs:366-378 | The counting loop computes the specification of batch decoding |
| Payload.MsgRoundTrip | crates/im-protocol/src/payload.rs:264-283 | A message decodes to itself, and bytes after it are reported as trailing with their number |
| Payload.MsgLayout | crates/im-protocol/src/payload.rs:264-270 | A small message and a small batch, byte for byte |
| Payload.MsgDecodesIff | crates/im-protocol/src/payload.rs:264-283 | Bytes decode to a message if and only if they are its four numbers, its length and its content; trailing bytes and missing bytes are reported with their numbers |
| Payload.SyncRespDecodesIff | crates/im-protocol/src/payload.rs:357-378 | Bytes decode to a batch if and only if they are its count and that many messages, each behind its length |
| Payload.SyncRespFails | crates/im-protocol/src/payload.rs:366-378 | Otherwise the error is that of the first message that fails, or counts the bytes after the last |
| Payload.CutMsgFails | crates/im-protocol/src/payload.rs:264-283 | A message cut anywhere is reported too short |
| Payload.SyncRespRoundTrip | crates/im-protocol/src/payload.rs:357-378 | A batch of messages decodes to itself |
| Records.RecordRoundTrip | crates/im-storage/src/engine.rs:76-121 | A record decodes to itself, whatever the lengths of key and value |
| Records.DecodedIsNoLonger | crates/im-storage/src/engine.rs:96-121 | Whatever bytes decode to a record are at least as long as its encoding |
| Records.RecordLayout | crates/im-storage/src/engine.rs:76-93 | A small put and a small delete, byte for byte |
| Records.RecordDecodesIff | crates/im-storage/src/engine.rs:96-121 | Exactly which bytes decode to which record, lengths not in the shortest form, other kinds and trailing bytes included; all others are corrupted, and none at all panics |
| Records.ReadsIff | crates/im-storage/src/engine.rs:485-511 | The reader accepts a frame if and only if it is the length, the right checksum and a body within MAX_RECORD_LEN |
| Records.DamagedFrameIsNothing | crates/im-storage/src/engine.rs:485-511 | A frame whose body or checksum is damaged within four consecutive bytes is not read |
| Records.DamageEndsTheFile | crates/im-storage/src/engine.rs:452-511 | Such damage to any record of a file leaves exactly the records before it |
| Records.BadBodyIsUnreadable | crates/im-storage/src/engine.rs:470-483 | A good frame whose body is no record makes its file unreadable, whatever stands around it |
| Records.FrameReadsBack | crates/im-storage/src/engine.rs:125-134 | A record's frame, anywhere in a file, reads back if and only if its body is within MAX_RECORD_LEN; the reader ends the file at a longer one |
| Records.OversizedEndsTheFile | crates/im-storage/src/engine.rs:498-500 | A record beyond the limit ends its file for every reader: it is lost together with everything written after it in that segment |
| Records.CutFrameIsNothing | crates/im-storage/src/engine.rs:485-511 | A frame cut anywhere reads as the end of the file |
| Records.ScanHolds | crates/im-storage/src/engine.rs:470-483 | Scanning a file of whole frames and whatever the reader stops at finds exactly the records, at their offsets |
| Records.WholeWithinIsLongest | crates/im-storage/src/engine.rs:470-483 | The number of records kept by a cut is the largest whose frames end before it |
| Records.CutKeepsWholeFrames | crates/im-storage/src/engine.rs:452-511 | A file cut at any byte holds exactly the records whose frames lie wholly before the cut |
| Merge.FileIndexDecides | crates/im-storage/src/engine.rs:470-483 | The index has exactly the keys of the file, each pointing at a record that reads back with the key's latest value or tombstone |
| Merge.LiveSnoc | crates/im-storage/src/engine.rs:242-257 | A put or delete record at the end of a log does to the map what its name says |
| Merge.LastWins | crates/im-storage/src/engine.rs:288-308 | The last record of a key decides it |
| PrefixScan.UpperBound | crates/im-storage/src/engine.rs:309-323 | The carry loop computes the specified bound |
| PrefixScan.RangeIsPrefixOrStray | crates/im-storage/src/engine.rs:309-335 | A key is in the scanned range exactly when it has the prefix or lies in the gap a zeroing carry opens |
| PrefixScan.RangeIsExactIff | crates/im-storage/src/engine.rs:309-335 | The range is the prefix for all keys if and only if the prefix is empty, all 0xFF, or does not end in 0xFF |
| SegmentNames.NameParses | crates/im-storage/src/engine.rs:429-441 | A segment's file name parses back to its id if and only if the id has at most eight digits |
| SegmentNames.ParsesIff | crates/im-storage/src/engine.rs:429-441 | A file name parses to an id if and only if it is the name of that id and the id has at most eight digits |
| SegmentNames.NamesDiffer | crates/im-storage/src/engine.rs:429-431 | No two segments share a file name |
| Directory.ReadableIsSound | crates/im-storage/src/engine.rs:470-511 | Every file the reader accepts holds only records the reader would accept again |
| Directory.RecoveryIsUnique | crates/im-storage/src/engine.rs:182-230 | A directory recovers to one map only |
| Directory.CutParts | crates/im-storage/src/engine.rs:182-230 | Cutting the last written segment at any byte and reopening yields the map of the records before it and the longest prefix of its own whose frames lie wholly before the cut |
| Compaction.WritingIsSafe | crates/im-storage/src/engine.rs:364-379 | Stopping after any byte of the new segment and reopening gives the same map |
| Compaction.DeletingIsSafe | crates/im-storage/src/engine.rs:381-391 | Stopping after any number of the ascending deletions and reopening gives the same map |
| Compaction.NoResurrection | crates/im-storage/src/engine.rs:381-391 | Dropping the oldest logs after the live keys are rewritten revives no deleted key |
| Compaction.AnyDeletionIff | crates/im-storage/src/engine.rs:387-389 | With any other set of old segments left behind, a reopen gives the same map if and only if these segments, replayed together, have no key alive that is deleted by now |
| Compaction.DeletedKeyReturns | crates/im-storage/src/engine.rs:387-389 | A directory in which a deleted key is back because only the deletion of the older segment failed |
| Compaction.WriteLive | crates/im-storage/src/engine.rs:364-379 | The new file holds each live key once, in key order, and is reached byte by byte |
| Compaction.RemoveAll | crates/im-storage/src/engine.rs:387-389 | The deletions pass through exactly the directories with the first files gone |
| Compaction.CompactionIsSafe | crates/im-storage/src/engine.rs:345-391 | Every directory on the way of a compaction recovers to the map before it |
| Engine.BuildIndex | crates/im-storage/src/engine.rs:470-483 | Indexing succeeds exactly for readable files and gives the specified index; an error is that of a body in the file |
| Engine.Engine.Open | crates/im-storage/src/engine.rs:182-230 | Any directory: opening succeeds exactly when every file whose name parses, and the one after the last of them if it is there, is readable; the engine then answers with the map the directory recovers to and writes to that file, cut after its last good record, or to a new one |
| SegmentFiles.Replay | crates/im-storage/src/engine.rs:443-468 | The replay loop gives the map of the records it can read and the offset where they end, and fails on a body that is no record |
| SegmentFiles.CutToEnd | crates/im-storage/src/engine.rs:205-218 | A file cut where its replay ended holds the same records and ends between frames |
| SegmentFiles.WholeThen | crates/im-storage/src/engine.rs:205-230 | What is read after such a cut, with frames appended, is the old records and then the new ones up to the first the reader refuses |
| Engine.Engine.Append | crates/im-storage/src/engine.rs:394-408 | Any record whose body length fits 32 bits goes to the end of the log, the file and the memtable; nothing else changes |
| Engine.Engine.Seal | crates/im-storage/src/engine.rs:411-425 | The segment numbered `next_segment - 1` is sealed and the next one opened; from an aligned state the log stays the same |
| Engine.Engine.SealKeepsLegible | crates/im-storage/src/engine.rs:411-425 | A seal of the writer's own segment keeps the records before the first one beyond MAX_RECORD_LEN, so it keeps the log if and only if there is none |
| Engine.OversizedIsLost | crates/im-storage/src/engine.rs:394-425 | A run that loses writes: a record beyond the limit is put, another after it is found before the seal and gone after it |
| Engine.Engine.Put | crates/im-storage/src/engine.rs:242-248 | Any record the writer takes: without a seal the map gains exactly this entry; with one the log is what the seal keeps, and from an aligned state with a record within the limit the map gains the entry across the seal too |
| Engine.Engine.Delete | crates/im-storage/src/engine.rs:255-257 | The map loses exactly this key, whatever its length, also before a compaction's next seal |
| Engine.Engine.Perform | crates/im-storage/src/engine.rs:242-257 | Any run of puts and deletes, with its seals, appends exactly these records to the log, and the segment written last holds exactly those since the last seal |
| Engine.Engine.Get | crates/im-storage/src/engine.rs:264-280 | Get is lookup in the abstract map, in every valid state |
| Engine.Engine.Collect | crates/im-storage/src/engine.rs:290-305 | Pouring the segments oldest first, each in any order, gives the replay of their log |
| Engine.Engine.ScanPrefix | crates/im-storage/src/engine.rs:288-335 | A scan returns the live keys from the prefix up to the bound, once each, in ascending byte order |
| Engine.ScanIsExactIff | crates/im-storage/src/engine.rs:309-335 | A scan is exactly the live keys with the prefix if and only if no live key lies in the gap; always for prefixes that do not end in 0xFF |
| Engine.Engine.CutAfterWrite | crates/im-storage/src/engine.rs:182-230 | After any write, cutting the last written segment anywhere and reopening gives the map of exactly the operations whose frames lie wholly before the cut |
| Engine.Engine.ReopensTheSame | crates/im-storage/src/engine.rs:182-230 | From every aligned state whose newest segment has at most eight digits, or directly follows one that has, a reopen gives the same map |
| Engine.Engine.ReopensTo | crates/im-storage/src/engine.rs:182-230 | From every aligned state, with any ids: a reopen finds exactly the records of the segments whose names have at most eight digits and of the one directly after them |
| Engine.Engine.ReopensIff | crates/im-storage/src/engine.rs:182-230 | From every aligned state, with any ids: a reopen gives the same map if and only if those segments say all of it |
| Engine.PastEightDigits | crates/im-storage/src/engine.rs:182-230 | A run that loses a write: a value put into segment 100000000 and one put after the next seal; the reopen finds the first |
| Engine.Engine.Compact | crates/im-storage/src/engine.rs:345-391 | From any valid state one segment of live keys in key order without tombstones remains, and the map is the one a seal would leave; from an aligned one the map stays and every directory on the byte-by-byte path recovers to it; directly after a compaction and writes every such directory recovers to what a reopen gave before |
| Engine.Engine.SealAfterCompactIff | crates/im-storage/src/engine.rs:411-425 | The seal after a compaction keeps the map if and only if nothing was written meanwhile that the compacted segment does not already say |
| Engine.Engine.ReopenAfterCompactIff | crates/im-storage/src/engine.rs:182-230 | A reopen after a compaction and writes gives the same map if and only if no compacted key was overwritten or deleted |
| Engine.CompactThenSeal | crates/im-storage/src/engine.rs:366-425 | A run that loses a write: open, put, compact, put again, seal, get finds the first value |
| Engine.CompactThenReopen | crates/im-storage/src/engine.rs:182-230 | A run that loses a write: open, put, compact, put again, open again, get finds the first value |
| Lifetimes.LiveOnce | crates/im-storage/src/engine.rs:182-425 | Open any directory, write, and close, compact, or crash cutting the file written last at any byte: the directory left recovers to the map after exactly the operations whose frames outlive the cut |
| Lifetimes.LiveOn | crates/im-storage/src/engine.rs:182-425 | The same for any number of such lives, one after the other |
| StoreKeys.KeysDiffer | crates/im-storage/src/store.rs:259-278 | Distinct keys of all tables have distinct bytes |
| StoreKeys.KeyLayout | crates/im-storage/src/store.rs:259-278 | The keys of messages and pending messages, byte for byte |
| StoreKeys.PrefixCaptures | crates/im-storage/src/store.rs:259-271 | A conversation's prefix captures exactly that peer's message keys |
| StoreKeys.KeysKeepOrder | crates/im-storage/src/store.rs:259-278 | Twenty-digit keys order bytewise exactly as their ids order numerically |
| StoreKeys.PrefixesAreExact | crates/im-storage/src/store.rs:37-40 | Every prefix the store scans is one whose scan is exact |
| StoreKeys.U64ValueRoundTrip | crates/im-storage/src/store.rs:281-284 | A stored 64-bit number reads back |
| Store.PendingRoundTrip | crates/im-storage/src/store.rs:60-87 | A pending message decodes to itself |
| Store.PendingDecodesIff | crates/im-storage/src/store.rs:60-87 | Bytes decode to a pending message if and only if they are its four numbers and exactly its content |
| Store.LocalStore.NextClientMsgId | crates/im-storage/src/store.rs:250-255 | Ids count up by one and the counter is persisted before the id is used |
| Store.LocalStore.EnqueueOutgoing | crates/im-storage/src/store.rs:126-133 | A new pending message under a fresh id; nothing else changes |
| Store.LocalStore.AckOutgoing | crates/im-storage/src/store.rs:142-160 | The message leaves the pending table and enters the conversation |
| Store.LocalStore.AppendIncoming | crates/im-storage/src/store.rs:115-118 | An incoming message is filed under its sender and id |
| Store.LocalStore.PendingAll | crates/im-storage/src/store.rs:167-173 | Exactly the pending table, by ascending id |
| Store.LocalStore.PendingSetAttempts | crates/im-storage/src/store.rs:180-192 | Only the attempts of one pending message change; an absent one is left alone |
| Store.LocalStore.DropOutgoing | crates/im-storage/src/store.rs:200-202 | Exactly this message leaves the pending table |
| Store.LocalStore.History | crates/im-storage/src/store.rs:212-220 | Exactly the last `limit` messages stored for the peer, unchanged and by ascending id |
| Store.LocalStore.SyncCursor | crates/im-storage/src/store.rs:227-229 | The stored cursor, or 0 |
| Store.LocalStore.SetSyncCursor | crates/im-storage/src/store.rs:236-238 | Any cursor is stored, also a smaller one |
| Store.LocalStore.Open | crates/im-storage/src/store.rs:104-106 | A directory that recovers to the tables opens to the same tables |
| Store.LocalStore.Reopens | crates/im-storage/src/store.rs:104-106 | Closing at any time, while a reopen lists the newest segment, leaves such a directory |
| Store.LocalStore.Cuts | crates/im-storage/src/store.rs:104-255 | Cutting the segment written last at any byte leaves a directory that recovers to the tables after exactly the records whose frames lie wholly before the cut |
| StoreRuns.Run | crates/im-storage/src/store.rs:115-255 | A run of store operations passes through exactly the specified tables, record by record, and hands out the specified ids |
| StoreRuns.RunThenCrash | crates/im-storage/src/store.rs:104-255 | Open any directory, run any store operations, cut the segment written last at any byte, open again: the tables are those after some record of the run, all of them when nothing is lost |
| StoreRuns.Crash | crates/im-storage/src/store.rs:104-106 | Exactly the records whose frames are left whole count |
| StoreRuns.MissingIff | crates/im-storage/src/store.rs:115-202 | For every run: a message handed out is in neither table if and only if it was so before, or some operation gave it up or wrote over its only copy, and none has filed it since |
| StoreRuns.CrashLosesIff | crates/im-storage/src/store.rs:126-160 | For every run and every cut: a message is in neither table if and only if it was so after the last whole operation, or the cut falls between the two records of the operation that hands out its id or acknowledges it |
| StoreRuns.ConfirmCutShort | crates/im-storage/src/store.rs:142-160 | A run that loses a message: sent, acknowledged, one byte lost, opened again: it is in neither table |
| StoreRuns.HandedOutAgainIff | crates/im-storage/src/store.rs:126-133 | For every run and every cut: an id of the run will be handed out again if and only if the cut falls before the record of its counter |
| StoreRuns.IdHandedOutAgain | crates/im-storage/src/store.rs:126-133 | A run in which the id 1 is handed out, a crash takes the file, and the next message gets the id 1 |
| StoreRuns.NextIdIsNew | crates/im-storage/src/store.rs:250-255 | For every run that acknowledges only ids handed out, and every cut: the next id is above that of every message still pending or filed |
| Outbox.Outbox.Load | crates/im-client/src/outbox.rs:88-107 | After a restart the list is the persisted table, everything due at once, also under a lower limit than before |
| Outbox.Outbox.Enqueue | crates/im-client/src/outbox.rs:113-130 | The next id, persisted and in flight with one attempt and one timeout; all else in list and tables stays |
| Outbox.Outbox.Ack | crates/im-client/src/outbox.rs:137-149 | An acknowledged message moves from both lists to its conversation with its own content; a late acknowledgement changes nothing |
| Outbox.Outbox.Resends | crates/im-client/src/outbox.rs:155-161 | Every message in flight once, all clocks restarted |
| Outbox.Outbox.Due | crates/im-client/src/outbox.rs:171-200 | For every entry, in its own fields: before its deadline it is kept and in no answer; after it and below the limit it is returned once, with one attempt more and the next deadline; at the limit it is reported and gone; answers in the order of the list, table and account likewise |
| Outbox.EachTreatedOnce | crates/im-client/src/outbox.rs:171-200 | The same for the functions of the list that specify a check |
| Outbox.Restart | crates/im-client/src/outbox.rs:88-107 | Stopping and loading again, perhaps with another limit, keeps the messages in flight with their persisted attempts, all due at once, and the tables and the account |
| OutboxRuns.Run | crates/im-client/src/outbox.rs:88-200 | For every run from an empty store, with restarts: answers and list are those of the specified mailbox, event by event; each id handed out is in exactly one of the list in flight, the ids acknowledged in time and the ids reported as failed, ids count up from 1, and a check returned each at most `retry_max_attempts` times |
| OutboxRuns.FailsAfterAll | crates/im-client/src/outbox.rs:88-200 | In every run without a restart: a message in flight has been sent as often as its count says, and one is reported as failed only after it was sent `retry_max_attempts` times in all, the first sending included, at least once |
| OutboxRuns.Handle | crates/im-client/src/outbox.rs:88-200 | Each event gives the answer and the mailbox of the specified step, and keeps the account equal to what an observer of the answers can tell |
| Outbox.BackoffDoubles | crates/im-client/src/outbox.rs:221-225 | The delay starts at the timeout, doubles up to the seventeenth attempt and never passes the cap |
| Lru.LruCache.Unlink | crates/im-mount/src/lru.rs:208-226 | Unlinking removes one entry from a doubly linked list and keeps its links consistent in both directions |
| Lru.LruCache.PushFront | crates/im-mount/src/lru.rs:229-240 | Pushing puts one entry in front and keeps the links consistent |
| Lru.LruCache.MoveToFront | crates/im-mount/src/lru.rs:243-249 | A hit moves its entry to the front of the sequence |
| Lru.LruCache.Get | crates/im-mount/src/lru.rs:113-117 | Get returns what the sequence has and moves a hit to the front |
| Lru.LruCache.Put | crates/im-mount/src/lru.rs:147-172 | Put refines the bounded most-recent-first sequence: the new entry in front, the last one evicted and returned when full, links, index, free list and slab bound kept |
| Lru.LruCache.Remove | crates/im-mount/src/lru.rs:175-181 | Remove takes out exactly this key and returns its value |
| Lru.LruCache.EvictTail | crates/im-mount/src/lru.rs:252-259 | Eviction takes the last entry and returns it |
| Lru.LruCache.Clear | crates/im-mount/src/lru.rs:184-190 | Clear leaves an empty cache and slab |
| Lru.LruCache.MruOrder | crates/im-mount/src/lru.rs:194-203 | The walk along the links ends and lists the keys of the sequence in order |
| Lru.ModelKeeps | crates/im-mount/src/lru.rs:113-172 | Looks and puts keep keys distinct and the length within capacity; a put evicts exactly when the key is new and the cache full |
| Lru.NothingIsLost | crates/im-mount/src/lru.rs:147-172 | A put gives back exactly the last of the entries with the new one in front, if it pushes one out, and keeps all others in their order |
| Lru.EvictedIsOldest | crates/im-mount/src/lru.rs:147-172 | In every run what a put gives back is the key used longest ago of all held, with its last value; without capacity, the entry just put |
| Lru.RunKeepsTheLatest | crates/im-mount/src/lru.rs:113-172 | After any looks and puts the cache holds exactly the `capacity` keys used most recently, latest first; a look that finds its key is a use |
| Lru.HeldIff | crates/im-mount/src/lru.rs:113-172 | A key is held, with the value of its last use, if and only if fewer than `capacity` other keys were used since; a key never used is not |
| Lru.HeldIsLastStored | crates/im-mount/src/lru.rs:113-172 | The value held for a key is the one put last, however often it was looked up since |
| Paths.ComponentsOfCanonical | crates/im-mount/src/memfs.rs:326-328 | Names written as a canonical path split into the same names |
| Paths.ComponentsSplit | crates/im-mount/src/memfs.rs:326-328 | For all paths: a slash separates the parts before and behind it, a text without slash is one part, nothing is none |
| Paths.ParentOfCanonical | crates/im-mount/src/dir_cache.rs:183-192 | On canonical paths the text before the last slash names the parent directory |
| Paths.ParentStringIs | crates/im-mount/src/dir_cache.rs:183-192 | For all paths: the textual parent is what stands before the last slash, or the root |
| MemFileSystem.WalkStaysInside | crates/im-mount/src/memfs.rs:112-125 | In a tree no walk meets a missing inode |
| MemFileSystem.PathsAreDistinct | crates/im-mount/src/memfs.rs:112-125 | Distinct paths resolve to distinct inodes |
| MemFileSystem.EveryNodeHasPath | crates/im-mount/src/memfs.rs:112-125 | Every inode is reached by a path of proper names |
| MemFileSystem.AddKeepsTree | crates/im-mount/src/memfs.rs:192-236 | Adding a child keeps the tree: one parent, one name, no orphan, no cycle |
| MemFileSystem.AddView | crates/im-mount/src/memfs.rs:192-236 | Adding a child puts its path on the view and changes the resolution of no other path |
| MemFileSystem.RemoveKeepsTree | crates/im-mount/src/memfs.rs:243-261 | Removing a file keeps the tree |
| MemFileSystem.RemoveView | crates/im-mount/src/memfs.rs:243-261 | Removing a file takes its path off the view and changes the resolution of no other path |
| MemFileSystem.OverwriteView | crates/im-mount/src/memfs.rs:222-231 | Overwriting changes one file's content and no resolution |
| MemFileSystem.ListingShowsView | crates/im-mount/src/memfs.rs:150-166 | A listing shows every child once, with its inode and kind |
| MemFileSystem.WalkFailsIff | crates/im-mount/src/memfs.rs:112-125 | In every tree, on the view alone: a path is `NotADirectory` if and only if a proper prefix is a file, and `NotFound` if and only if it is not there and no proper prefix is a file |
| MemFileSystem.ParentFailsIff | crates/im-mount/src/memfs.rs:298-315 | The error of a failed walk to the parent, on the view alone |
| MemFileSystem.MemFs.Descend | crates/im-mount/src/memfs.rs:298-315 | The component loop resolves like the recursive walk, with its errors, and never meets a missing inode |
| MemFileSystem.MemFs.Resolve | crates/im-mount/src/memfs.rs:112-125 | Resolution of a path string, with its error on the view |
| MemFileSystem.MemFs.ReadDir | crates/im-mount/src/memfs.rs:150-166 | Succeeds exactly for directories and lists them by ascending name; the panic is unreachable |
| MemFileSystem.MemFs.Read | crates/im-mount/src/memfs.rs:174-185 | Returns the content exactly for files |
| MemFileSystem.MemFs.Mkdir | crates/im-mount/src/memfs.rs:192-208 | Errors in the order of the code; on success the view gains exactly this directory under a fresh inode |
| MemFileSystem.MemFs.WriteFile | crates/im-mount/src/memfs.rs:216-236 | Errors in the order of the code; on success the view has this content at the path, under the old inode or a fresh one |
| MemFileSystem.MemFs.RemoveFile | crates/im-mount/src/memfs.rs:243-261 | Errors in the order of the code; on success the view loses exactly this file |
| DirCache.ListingIsUnique | crates/im-mount/src/memfs.rs:150-166 | A directory has one listing |
| DirCache.ReadIsUnique | crates/im-mount/src/memfs.rs:150-166 | On one tree a read of a path has one answer, errors included |
| DirCache.InvalidationIff | crates/im-mount/src/dir_cache.rs:183-193 | After an entry comes or goes, dropping the textual parent leaves the cache right if and only if no other cached string names the same directory |
| DirCache.CanonicalHasNoAlias | crates/im-mount/src/dir_cache.rs:183-193 | Among canonical paths there is no such string |
| DirCache.CachedFs.ReadDir | crates/im-mount/src/dir_cache.rs:76-85 | While the cache is coherent a read answers exactly as the tree would, hit or miss, and it stays coherent |
| DirCache.CachedFs.Mkdir | crates/im-mount/src/dir_cache.rs:154-158 | Tree and answer as without a cache; coherence survives exactly without an alias; errors leave the cache alone; canonical use keeps it |
| DirCache.CachedFs.WriteFile | crates/im-mount/src/dir_cache.rs:165-169 | The same, with the errors of the tree, for a created file; an overwrite shows in no listing |
| DirCache.CachedFs.RemoveFile | crates/im-mount/src/dir_cache.rs:176-180 | The same, with the errors of the tree, for a removed file |
| DirCache.CachedFs.Run | crates/im-mount/src/dir_cache.rs:124-193 | Any run of operations on canonical paths, for any capacity: every answer, listings and errors alike, and every change of the tree is the one without a cache, and the cache stays coherent |
| DirCache.StaleAlias | crates/im-mount/src/dir_cache.rs:183-193 | Reading the root as an empty string, then creating a directory, leaves a wrong listing in the cache |
| Dedup.LandingStops | crates/im-transport/src/dedup.rs:96-111 | Absorbing stops at the first number not recorded and moves the other bits along |
| Dedup.FedRecords | crates/im-transport/src/dedup.rs:91-123 | Feeding records the number fed and no other; the verdict is `Duplicate` exactly for recorded numbers |
| Dedup.VerdictIff | crates/im-transport/src/dedup.rs:91-123 | The verdict by position: recorded, next, up to 64 ahead, or further, which is reported with the number expected and changes nothing |
| Dedup.AckIsLeastMissing | crates/im-transport/src/dedup.rs:91-130 | Between resyncs the acknowledgement is the least number not received |
| Dedup.SecondTimeIsDuplicateIff | crates/im-transport/src/dedup.rs:96-111 | A number fed twice in a row is a duplicate the second time if and only if it was not the last one missing up to 2^64 - 1 |
| Dedup.LargestRepeated | crates/im-transport/src/dedup.rs:96-111 | 2^64 - 1, awaited and fed twice in a row, is too far ahead of 0 the second time |
| Dedup.DedupWindow.Feed | crates/im-transport/src/dedup.rs:91-123 | The bitmap loop computes the specified verdict and window, and ends |
| Dedup.DedupWindow.Backlog | crates/im-transport/src/dedup.rs:134-136 | The count of ones is the number of numbers recorded ahead of the base |
| Dedup.DedupWindow.Resync | crates/im-transport/src/dedup.rs:145-148 | The window starts again right after the given number |
| Session.SessionState.FeedSeq | crates/im-server/src/session.rs:508-517 | The first frame opens a window at its own number; later ones are judged by it |
| Session.SessionState.Receive | crates/im-server/src/session.rs:587-603 | The verdict match: duplicates are dropped, too distant frames move the window and are handed on |
| Session.Serve | crates/im-server/src/session.rs:587-603 | The receive loop hands on exactly the frames the filter lets through |
| Session.DropsExactly | crates/im-server/src/session.rs:508-603 | For every stream: a frame is dropped if and only if, since the filter last forgot, a frame with its number was handed on or one at least as large opened or moved the window |
| Session.ForgetsExactly | crates/im-server/src/session.rs:508-603 | The filter forgets all that came if and only if 2^64 - 1 opens or moves the window, or the only number not covered so far comes |
| Session.BoundedIsHandedOn | crates/im-server/src/session.rs:508-603 | In a stream below 2^64 - 1 without repeats, with none before the first in value and none more than 64 ahead of the least number missing when it comes, every frame is handed on and the window waits for the least number missing |
| Session.AckIsLeastWanted | crates/im-server/src/session.rs:508-603 | The acknowledgement is always the least number that would be handed on |
| Session.FilterIsExact | crates/im-server/src/session.rs:508-603 | For every stream: a number comes through again only after the filter forgot, every number above all earlier ones is handed on, and a dropped one is not above some earlier handed one |
| Session.BelowMaxIsRemembered | crates/im-server/src/session.rs:508-603 | A stream below 2^64 - 1 is never forgotten |
| Session.LargestTwice | crates/im-server/src/session.rs:508-603 | The number 2^64 - 1 is handed on if and only if it has not come since the filter last forgot |
| Session.LargestHandedTwice | crates/im-server/src/session.rs:587-603 | A stream in which 2^64 - 1 waits out of order, a hole closes, and 2^64 - 1 is handed on twice |
| Session.SmallHandedTwice | crates/im-server/src/session.rs:587-603 | A stream in which 5 is handed on twice because 2^64 - 1 moved the window in between |
| Histogram.Locate | crates/im-bench/src/histogram.rs:169-180 | Every value lies in its slot's interval, within the table |
| Histogram.LowerIsClose | crates/im-bench/src/histogram.rs:183-188 | A slot's lower edge is at most one part in 256 below the value, and 0 only for 0 |
| Histogram.IndexKeepsOrder | crates/im-bench/src/histogram.rs:169-180 | Larger values never lie in earlier slots |
| Histogram.RankFalls | crates/im-bench/src/histogram.rs:107-119 | The running count passes a rank in the slot of the sample with that rank |
| Histogram.LatencyHist.RecordNs | crates/im-bench/src/histogram.rs:79-86 | Recording inserts one sample: counts, total, minimum, maximum and sum follow the sorted samples |
| Histogram.LatencyHist.PercentileNs | crates/im-bench/src/histogram.rs:101-119 | The result is the lower edge of the slot of the ceil(pct * n / 100)-th smallest sample |
| Histogram.PercentileIsClose | crates/im-bench/src/histogram.rs:101-119 | It never exceeds the true quantile q, and 256 * (q - result) <= q |
| Histogram.SlotsAddUp | crates/im-bench/src/histogram.rs:49-55 | The slot counts add up to the number of samples |
| Histogram.ZeroPercentIff | crates/im-bench/src/histogram.rs:97-106 | For percentage 0 the code answers as the documented rank clamp would if and only if the least sample is 0 |

## Left out

- Ratchet.Open: authenticated encryption is symbolic; X25519, HKDF, HMAC, AES-GCM, the byte form of headers and messages, zeroization and randomness are not part of this model.
- RatchetSession.Step: a message leaves the channel when it is delivered, so a run delivers each at most once; `ReplayIsNeverAccepted` says what a later copy does and `ReplayLosesAMessage` shows a harm, not how every session goes on after it.
- Ratchet.Encrypt and Ratchet.Decrypt: running a 32-bit message counter over is a panic, as in a build that checks overflow.
- Both parties start with the same secret; X3DH is not part of this model.
- Engine.Engine.Perform: runs of records within MAX_RECORD_LEN, as in `Lifetimes`; what a longer one costs is stated for one segment by `SealKeepsLegible` and `OversizedEndsTheFile`.
- Engine.Engine.Append: requires a body whose length fits 32 bits; the writer panics at a longer one (engine.rs:128-129).
- Store.LocalStore.EnqueueOutgoing: contents are at most MAX_RECORD_LEN - 128 bytes, which keeps every record within that limit; likewise `AckOutgoing`, `AppendIncoming` and the mailbox.
- Engine.Engine.Open: files that an opening does not list, such as 100000002.log, are dropped from the model's directory, so what a counter past eight digits would find under such a name is not captured.
- Engine.Engine.Compact: from a state that is neither aligned nor directly after a compaction, the path of directories is given, but not what they recover to.
- Lifetimes.LiveOn: a compaction ends before the next opening; one cut short leaves a directory of its path, which `Engine.Engine.Compact` shows to recover to the same map, so a run may start from it.
- OutboxRuns.Run: starts from an empty store; a restart needs a newest segment that the next opening lists, and without one the run ends there. Crashes are stated for the store's runs, not for the mailbox's.
- Store.LocalStore: its `compact` is not among the store's operations; what holds after a compaction is stated for the engine.
- Store.LocalStore.NextClientMsgId: the counter stays below 2^64 - 1.
- Outbox.Outbox.Due: `retry_max_attempts` is below 2^32 - 1, so the attempt counter does not overflow; `next_deadline` is not modelled.
- I/O errors, flushing and the order in which an operating system persists files are not modelled; a crash cuts the file written last.
- Damage to files is a cut at a byte, or a change within four consecutive bytes of one record's body or checksum; a wider one may meet the same checksum.
- MemFileSystem: errors carry no path and inode numbers are unbounded; `lookup` and attributes are not modelled.
- DirCache: hit and miss counters.
- Lru.LruCache: `get_mut`, `peek` and `contains_key`.
- Histogram.LatencyHist: counters are unbounded; `mean` and durations are not modelled.
- Payload: handshakes, acknowledgements and sync requests, which are shorter instances of the same reader; UTF-8 is not checked because strings are bytes.
- StoreRuns.RunThenCrash: contents as for `EnqueueOutgoing`, and segment ids have at most eight digits.
- Varint: zigzag numbers.
- Session: authentication, routing, replies and offline delivery; sockets, TLS, tasks and timers.
- Machine integers of 64-bit lengths and offsets are unbounded where no bound is named; every 32-bit and 64-bit field that can wrap or be truncated is bounded explicitly.
