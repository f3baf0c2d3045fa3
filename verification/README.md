# A verified model of the audit trail and its supporting algorithms

This project models, in Dafny, the parts of the repository whose correctness rests on an argument
rather than on a glance at the code: the audit cross-checker, the proxy that writes the log it checks,
the crash-safe artifact writer with its CRC32C, the HTTP/1.1 framing of the proxy, canonical JSON and
the per-line seal, and three small algebraic cores (catalogue, JSON merge, cache-key join). Loops and
state changes of the source are Dafny methods and classes proved against specification functions; the
lemmas are about those functions.

`dafny verify dfyconfig.toml` checks everything.

## How it fits together

| module | what it models |
|---|---|
| `Order`, `Json` | string order, JSON values with ordered fields, canonical form |
| `AuditFormat`, `Sealing` | audit records as JSON, the seal of a line, the log on disk, writing, cutting and checking it |
| `Types`, `Gzip` | shared plain types; files that are a sequence of gzip members |
| `FaithfulCodec` | codecs that meet the assumptions about the JSON library and gzip |
| `Matching` | the two greedy scans that match external with internal calls |
| `RecordPairing`, `Verify` | pairing records by id, reading both logs, the database mirror, the verdict |
| `Proxy` | interleaved connection handlers appending to shared logs, and the verdict on what they wrote |
| `Serving` | the sink with its buffered writers, and what handlers driving it leave in the files |
| `Text`, `Framing` | UTF-8 and number text, the bounded line reader and the body readers |
| `Chunking`, `ChunkGrammar` | the chunked round trip, and the grammar of the streams that are accepted |
| `Crc32c`, `Artifact` | table-driven and bit-serial CRC32C, the integrity sidecar, the paths of a write |
| `AtomicWriter`, `AtomicWrite` | the write/rename protocol as a state machine, and the write and read methods |
| `Catalog`, `Merge`, `Splitting`, `Ids`, `UrlJoin`, `Poll` | placement of theses, recursive merge, joined keys, upstream addresses, the poll loop |

The main results, in the system's terms:

- The first scan of the matcher is a maximum matching, although it is greedy: windows have one width and
  both lists are sorted by time, so crossing pairs can be exchanged. Hence the report is clean exactly
  when a hash-preserving one-to-one correspondence within the window exists, and the whole check says
  "ok" exactly when both logs tell the same story.
- A log of sealed records has no bad line and reads back as the records. Cut between gzip members it is the log
  of the records before the cut; cut anywhere else the whole file is unreadable, and the check says "invalid"
  without looking at a record. Written to after such a cut it stays so, unless gzip takes torn bytes for a member.
- Whatever the interleaving of handlers, the log they leave has no duplicates and no orphan responses;
  orphan requests are the handlers that logged a request and nothing after it. The check of that log
  against the internal calls succeeds exactly when every handler that logged completed and the
  completed handlers correspond one to one to the internal calls.
- At every point of every run of interleaved writers the destination holds one complete payload. A lone
  writer breaks verified reads only between its two renames, and a power loss before the directory is
  synchronised only if one rename survives without the other.
- The table-driven CRC32C is the bit-serial one, and no change within 32 consecutive bits survives the
  check of the sidecar, whatever BLAKE3 does.
- What the readers of the proxy return depends on the bytes and not on how the buffer segments them. A chunked
  body is accepted exactly if the stream starts with a message of the chunked grammar within the reader's limits,
  and decoding an encoding gives the body back.
- A valid line of the audit log that is edited, its checksum left alone, passes the check only if the CRC-32 of two
  different texts collides; two records get one seal only if they agree in all else or there is such a collision.
- Canonical JSON is a complete normal form for equality up to field order.

## Where comments and code differ

The model follows the code.

- `src/atomic/writer.rs:59-63` says that data and sidecar appear together. They are renamed one after the
  other (`src/atomic/writer.rs:248-258`): `AtomicWriter.PairIsBrokenBetweenRenames` and
  `AtomicWriter.InterleavedRenames` give runs in which the pair does not match, in the second case for good.
- `src/ids.rs:88-89` says that the separator is a zero byte that cannot occur in UTF-8 text. It is 0x1f,
  which can: `Ids.SeparatorInText` gives two lists with one joined string, and `Ids.JoinedCollision` says
  exactly which lists share one.
- `src/audit/proxy.rs:1025-1027` gives a schedule 5, 10, 20, 50, ...; the loop doubles (5, 10, 20, 40, ...).
- `src/audit/format.rs:5-9` and `163-166` say that a crash costs only the torn trailing member and that every
  prior line stays recoverable, and `src/storage/compression.rs:33-35` that reading stops at a truncated member.
  The file is read whole (`src/storage/compression.rs:73-97`), so a cut inside a member is an error and the check
  counts one invalid line and nothing else (`src/audit/verify.rs:174-183`). `Verify.LastByteLost` is such an
  input for every log, `Verify.CutIsReadableIff` the exact condition, and `Verify.TornStaysInvalid` says what
  becomes of a log that is appended to after the cut.
- `src/audit/proxy.rs:1200` stores the joined path through `Url::set_path`, which removes dot segments, so the
  result need not start with the base: `UrlJoin.DotsLeaveBase` gives a target that leaves it, and
  `UrlJoin.JoinedPathKeepsTarget` says exactly which targets are stored behind the base.
- `merge_value` is not associative (`Merge.MergeIsNotAssociative`); `Merge.PatchesInTurn` says when two
  patches can be merged first.

## Assumptions

- `serde_json` (`AuditFormat.Faithful`): a printed value is one non-empty line; it parses back to the value
  if nesting stays within the library's limit of 127 and floats are whole microseconds below 2^32 seconds,
  as `unix_now` makes them (`src/audit/proxy.rs:1213-1219`); an object that is cut short does not parse. For
  other floats reading back is not claimed, as the library's exact float parsing is not enabled.
  `FaithfulCodec.FaithfulCodecExists` shows that the assumption can be met. The crate is built with
  `preserve_order`, so objects keep insertion order and `remove` moves the last field into the gap.
- gzip (`Gzip.Unzips`): a member has at least the 18 bytes of header and trailer (section 2.3 of RFC 1952), it
  is read back whatever follows it, and a proper part of it at the end of a file is an error.
  `FaithfulCodec.GzipExists` shows that this can be met. Nothing is assumed of a torn member with other bytes
  behind it: where gzip would take them for a member, the results say so.
- The JSON form of the sidecar can be read back (`Artifact.RoundTrips`), which
  `FaithfulCodec.SidecarCodecExists` shows can be met.
- The URL library (`UrlJoin.StoresPaths`): percent-encoding leaves a character alone or replaces it by a
  percent sign and hexadecimal digits that spell no dot, and the paths of parsed addresses are stored paths.
  `UrlJoin.StoringLibraryExists` shows that this can be met.
- Connection ids and write nonces are distinct (`Proxy.Connections`, `AtomicWriter.DistinctNonces`).
- BLAKE3, the CRC-32 of `flate2` and URL parsing are arbitrary functions; every result holds whatever they are.

## Model

| member | source | states |
|---|---|---|
| Matching.FirstScanIsMaximum | src/audit/verify.rs:415-426 | no injective, hash-equal, within-window pairing of two time-sorted lists is larger than the one the first scan finds |
| Matching.ScanIsExtendable | src/audit/verify.rs:415-426 | after any number of turns of the scan, every pairing can be rerouted into one at least as large that begins as the scan did |
| Matching.ExchangeFits | src/audit/verify.rs:453-455 | two crossing pairs within the window can swap partners and stay within it |
| Matching.CleanIffExplainable | src/audit/verify.rs:44-63 | no mismatch and nothing unmatched on either side if and only if a hash-preserving bijection within the window exists |
| Matching.ScansExtend | src/audit/verify.rs:412-442 | both scans only add pairs, each eligible for its scan, and no index is used twice |
| Matching.FinalIsMaximal | src/audit/verify.rs:428-442 | after both scans no two unused calls lie within the window, whatever their hashes |
| Matching.FinalIsHalfOfBest | src/audit/verify.rs:412-445 | the final pairing is at least half as large as any pairing within the window |
| Verify.MatchCalls | src/audit/verify.rs:402-451 | the four counters: matches, mismatches and the unused calls of each side, which together conserve both lists |
| Verify.Scan | src/audit/verify.rs:415-442 | one scan sets the used-flags to those of the pairing it specifies and counts the pairs it added |
| RecordPairing.PairExternalRecords | src/audit/verify.rs:242-312 | the result is the ascending list of complete calls; the counters grow by the numbers of rejected ids, orphan requests and orphan responses, as `OutcomeMeaning` tells them apart |
| RecordPairing.OutcomeMeaning | src/audit/verify.rs:254-306 | an id yields the call with its request's fingerprint and whole seconds if and only if its records are one "request" with a fingerprint and one "response" or "upstream_error"; it is an orphan if and only if it has just one of the two; all else is rejected |
| RecordPairing.SecondsOfStamp | src/audit/verify.rs:284-290 | the time of a call is the number of whole seconds of the time stamp |
| RecordPairing.CollectPairs | src/audit/verify.rs:250-276 | every id of the records gets one entry that sums up the records under that id |
| RecordPairing.PairingIgnoresOrder | src/audit/verify.rs:242-312 | the list of calls and all counters are the same for every order of the same records |
| RecordPairing.SortCallsSorts | src/audit/verify.rs:309-310 | sorting permutes the calls into ascending time and id |
| RecordPairing.SortedCallsAre | src/audit/verify.rs:309-310 | of two calls the one that stands first is earlier or has the lesser id, and calls of one time and id keep their order |
| Order.LessAtDifference | src/audit/verify.rs:309-310 | the first character in which two strings differ decides, and a string comes after its proper prefixes |
| Verify.ParseInternalCalls | src/audit/verify.rs:314-362 | the kept calls in sorted order, and the invalid flag exactly when some line is invalid, as `CallsOfLines` describes both |
| Verify.CallsOfLines | src/audit/verify.rs:317-349 | each call occurs as often as non-empty lines parse to an uncached event with its id, non-empty fingerprint and start; a line is invalid if and only if it does not parse, or is uncached with an empty fingerprint, or is uncached without one from "minimax" |
| Verify.PassedOver | src/audit/verify.rs:317-341 | a line with a cache hit, or of a call without fingerprint from another provider, may be inserted anywhere without changing the calls or the flag |
| Verify.CacheHitsChangeNothing | src/audit/verify.rs:150-223 | nor does such a line change the summary |
| Verify.CompareSqlite | src/audit/verify.rs:364-400 | returns the number of uncached rows that lack the hash of the last call under their id plus the number of calls without an uncached row; zero exactly when rows and calls mirror each other |
| Verify.VerifyInner | src/audit/verify.rs:150-223 | the summary is "ok" if and only if both files are readable and the logs agree, and "invalid" if and only if a file is missing or unreadable or a log is not sound; of a readable log every counter is given, of an unreadable one one invalid line is counted and nothing else |
| Verify.SummaryOfReport | src/audit/verify.rs:44-63 | the counters of a report determine the summary as the two logs do |
| Verify.CutIsReadableIff | src/storage/compression.rs:73-97 | a log cut at any byte is readable if and only if the cut falls between members, and then it holds the records before the cut |
| Verify.CutIsInvalid | src/audit/verify.rs:174-183 | the check of a log cut inside a member says "invalid" |
| Verify.LastByteLost | src/audit/verify.rs:174-183 | every non-empty log that loses its last byte is such a log |
| Verify.TornStaysInvalid | src/audit/format.rs:184-194 | whatever is written behind a torn member, the check says "invalid", unless gzip takes the torn part and what follows it for a member |
| Verify.ExplainedIffClean | src/audit/verify.rs:44-63 | complete external calls correspond one to one to the internal calls exactly when the matcher leaves nothing over and sees no mismatch |
| Proxy.StepKeepsInvariant | src/audit/proxy.rs:371-516 | every step of every handler, failing writes included, keeps what a log holds under each id |
| Proxy.RequestWrite | src/audit/proxy.rs:392-407 | the write of the request adds the record to the log of the handler if it is taken, touches nothing else, and lets the handler go on only if it succeeds |
| Proxy.TerminalWrite | src/audit/proxy.rs:420-566 | likewise the write of the terminal record, which ends the handler |
| Proxy.HandlerLife | src/audit/proxy.rs:334-566 | a handler that is not disturbed logs its request and then its terminal record and completes |
| Proxy.LogOfRun | src/audit/proxy.rs:371-516 | after any interleaving, a log holds for each handler a complete call, an orphan request or nothing, and leaves all other ids as they were |
| Proxy.ReportOfRun | src/audit/proxy.rs:371-566 | over what the log had before, a run adds no duplicates, no orphan responses, and as many orphan requests as handlers that logged a request and no terminal record |
| Proxy.CallsOfRun | src/audit/proxy.rs:371-516 | the external calls of that log are exactly those it had before and those of the completed handlers |
| Proxy.RunIsVerified | src/audit/proxy.rs:334-566 | the check of the log on disk that a run leaves says "ok" if and only if the log was complete before, no handler is pending, and earlier calls and completed handlers together correspond one to one to the internal calls |
| Matching.ReorderedBijection | src/audit/verify.rs:402-451 | whether a bijection exists does not depend on the order in which the external calls are listed |
| Serving.AuditSink.Ensure | src/audit/proxy.rs:140-153 | installs at most one writer per path, unless the file cannot be opened, and changes no file |
| Serving.AuditSink.Write | src/audit/proxy.rs:155-175 | adds to the bytes in or waiting for the file at the path what the write yields, reports any failure, and leaves all other files alone |
| Serving.AuditSink.FlushAll | src/audit/proxy.rs:177-189 | loses no byte; if it succeeds, nothing waits any more |
| Serving.Perform | src/audit/proxy.rs:371-516 | a step of a handler carried out on the sink adds to each file just the piece its write yields |
| Serving.Serve | src/audit/proxy.rs:129-175 | handlers driving one sink, in any order and with any failing writes, put into every file or have waiting for it exactly what their run emits |
| Serving.EmittedIsArchive | src/audit/format.rs:197-223 | unless a member is torn, a run emits the members of the records it logs |
| Serving.TornRunIsInvalid | src/audit/format.rs:197-223 | the file of a run in which a member was torn stays invalid, unless gzip takes the torn part and what follows it for a member |
| Serving.StoppedRun | src/audit/verify.rs:174-183 | the file of a proxy that stopped anywhere is a part of the log on disk, and invalid unless it ends between members |
| Serving.ServeAndVerify | src/audit/verify.rs:150-223 | serving, flushing and checking, in one: the report says "ok" if and only if the file exists and the run is explained |
| Proxy.RunKeepsStamps | src/audit/proxy.rs:371-566 | every record that a run logs carries the time of day |
| Json.CanonIsComplete | src/audit/format.rs:86-101 | two values have equal canonical forms if and only if they differ only in the order of object fields, at any depth |
| Json.CanonIsIdempotent | src/audit/format.rs:86-101 | the canonical form is its own canonical form and the same value up to field order |
| Json.CanonIsSorted | src/audit/format.rs:86-101 | the canonical form has its fields in ascending order at every depth |
| Json.DropCommutes | src/audit/format.rs:147-153 | dropping a key before or after taking the canonical form gives the same canonical value, although removal reorders fields |
| Json.SwapRemovePlaces | src/audit/format.rs:147-153 | removal puts the last field in the place of the removed one |
| Json.SameDroppedIff | src/audit/format.rs:147-153 | two objects are equal without a key, up to order, if and only if they agree in all other fields |
| AuditFormat.RecordRoundTrip | src/audit/format.rs:27-64 | a record turned into its canonical value reads back unchanged |
| AuditFormat.ReadIffDescribes | src/audit/format.rs:27-64 | a JSON value is read as a record if and only if it is an object that has the required fields with their types, and the optional ones, if at all, with theirs or null |
| Sealing.SealIgnoresEarlierCrc | src/audit/format.rs:147-161 | the seal does not depend on the checksum the record carried before |
| Sealing.SealDetectsEdits | src/audit/format.rs:239-290 | with the checksum left alone, an edited line is valid if and only if the checksums of the two texts agree, and the texts agree if and only if no other field was changed |
| Sealing.SealsCollideIff | src/audit/format.rs:147-161 | two records get one seal if and only if the checksums of their texts agree, and the texts agree if and only if the records agree in every other field |
| Sealing.SealedLineIsValid | src/audit/format.rs:197-223 | a sealed line passes the check and reads back as the sealed record |
| Sealing.AuditWriter.WriteRecord | src/audit/format.rs:197-223 | seals the record and adds its member to the file; a failure may leave bytes in the buffer, which a later write emits first, or drop the member, or tear it, and no byte that was already there is lost |
| Sealing.AuditWriter.FlushGz | src/audit/format.rs:226-233 | loses no byte; if it succeeds, nothing waits any more |
| FaithfulCodec.FaithfulCodecExists | src/audit/format.rs:147-223 | for every CRC function there is a codec that meets what is assumed of the JSON library, so that the results about sealed logs are not empty |
| AuditFormat.ToValueIsPrintable | src/audit/format.rs:27-64 | the canonical value of a record stamped with the time of day is within what is assumed to be read back |
| Json.StampsAre | src/audit/proxy.rs:1213-1219 | every number of whole microseconds below 2^32 seconds is in the range of time stamps that is assumed to be read back |
| Sealing.CutArchive | src/audit/format.rs:163-223 | a log on disk cut at any byte reads back as the text of the records whose members are whole if the cut ends the last of them, and is unreadable otherwise |
| Gzip.CutMembers | src/storage/compression.rs:73-97 | the same of any file of gzip members |
| FaithfulCodec.GzipExists | src/storage/compression.rs:73-97 | the assumption about gzip can be met |
| Sealing.SealedLogIsValid | src/audit/format.rs:197-290 | a log of any sequence of records has no bad line and reads back as the sealed records |
| Sealing.CountInvalidCrcs | src/audit/format.rs:239-290 | returns the bad non-empty lines in order, and their number |
| Sealing.OneMoreLine | src/audit/format.rs:246-283 | a line is good if and only if it is empty or an object whose `crc32` text is the checksum of its other fields; it adds a record if and only if it reads as one |
| Sealing.LineEndings | src/audit/format.rs:246-249 | a line feed ends a line, and neither it nor a carriage return before it is part of the line |
| Sealing.CheckIsAdditive | src/audit/format.rs:239-290 | over newline-terminated logs the bad lines, and the records, of a concatenation are those of its parts |
| Sealing.ParseAuditRecords | src/audit/verify.rs:225-240 | returns the records of the log in order, skipping lines that are none |
| Framing.ReadBoundedLine | src/audit/proxy.rs:703-734 | the result is a function of the byte stream: the text whose UTF-8 form is the bytes through the first newline, 431 exactly over 8 KiB in the line or 64 KiB in all, 400 if not UTF-8; exactly the line is consumed and added to the total, except that of a line that is too long only a part within the limit is consumed |
| Framing.ReadNBody | src/audit/proxy.rs:736-753 | exactly the requested bytes, 413 over the cap with nothing consumed, 400 at an early end of input |
| Framing.ReadTrailerLines | src/audit/proxy.rs:769-779 | reads through the empty line that ends the trailer, or refuses as the trailer grammar demands |
| Framing.ReadChunkedBody | src/audit/proxy.rs:755-804 | the result is a function of the byte stream, described by `AcceptedIff`, and for accepted input so are the bytes consumed and the header total; whatever the input and the outcome, the body buffer never exceeds the cap |
| ChunkGrammar.AcceptedIff | src/audit/proxy.rs:755-804 | a stream is accepted if and only if it starts with size lines, each followed by as many bytes and CR LF, a size line of zero, and trailer lines with a colon up to an empty line, within the limits; then the body is the concatenation of the data |
| ChunkGrammar.Refusals | src/audit/proxy.rs:763-801 | behind any number of good chunks: 400 for a line without a size, 413 for a chunk over the cap, 400 for one that is cut short or not followed by CR LF |
| Chunking.ChunkedRoundTrip | src/audit/proxy.rs:755-804 | for all chunks, extensions and trailers, decoding the encoding returns the payload and leaves the following bytes unread exactly when line, header and body limits are kept |
| Chunking.SizeReadsBack | src/audit/proxy.rs:763-768 | a hexadecimal size line with any extension is read as its size, or refused when it overflows the machine word |
| Chunking.SizeOfLine | src/audit/proxy.rs:763-768 | the size is what stands before the first semicolon without the white space around it |
| Text.ParsesIff | src/audit/proxy.rs:763-768 | a number is read from hexadecimal digits, perhaps after a plus sign, if and only if it fits the machine word |
| Text.DecodesIffEncoded | src/audit/proxy.rs:733 | bytes decode to a text if and only if they are its UTF-8 form |
| Chunking.TrailerReadsBack | src/audit/proxy.rs:769-779 | a written trailer is consumed entirely, or refused with 431 exactly over the limits |
| Crc32c.BuildTable | src/atomic/writer.rs:477-495 | the nested loops fill the table with eight turns of each byte value |
| Crc32c.LookupIsFeedByte | src/atomic/writer.rs:499-502 | one table step is eight bit-serial steps |
| Crc32c.Checksum | src/atomic/writer.rs:497-504 | the table-driven loop computes the bit-serial reflected Castagnoli CRC of section 12.1 of RFC 3720 on every byte string |
| Crc32c.CheckValue | src/atomic/writer.rs:477-504 | the checksum of the text "123456789" is 0xe3069283, the published check value |
| Crc32c.BurstChangesChecksum | src/atomic/writer.rs:497-504 | any change confined to 32 consecutive bits, in the order in which they are fed, changes the checksum |
| Crc32c.FourBytesChangeChecksum | src/atomic/writer.rs:497-504 | any same-length change within four consecutive bytes changes the checksum |
| Artifact.DataFingerprintMatches | src/atomic/writer.rs:436-464 | compares size, BLAKE3 and CRC32C and nothing else, as the next two rows say |
| Artifact.MatchesIff | src/atomic/writer.rs:412-464 | data matches a sidecar if and only if the sidecar computed of it differs at most in time and version |
| Artifact.SharedSidecar | src/atomic/writer.rs:436-464 | two payloads that match one sidecar have one size, one BLAKE3 and one CRC32C |
| Artifact.TamperingIsDetected | src/atomic/writer.rs:436-464 | data changed within 32 consecutive bits never matches its old sidecar, with no assumption on BLAKE3 |
| Artifact.FourBytesAreDetected | src/atomic/writer.rs:436-464 | the same of a change within four consecutive bytes |
| FaithfulCodec.SidecarCodecExists | src/atomic/writer.rs:38-55 | for every BLAKE3 there is a JSON form of the sidecar that can be read back |
| Artifact.Hex8IsInjective | src/atomic/writer.rs:469-472 | the hexadecimal form of a checksum determines it |
| Artifact.HexSpells | src/atomic/writer.rs:469-472 | the digits, read as a hexadecimal number, give the checksum or the nonce back |
| Artifact.PathsAreDistinct | src/atomic/writer.rs:359-375 | the four paths of a write differ and different nonces share no temporary path |
| Artifact.PathsAre | src/atomic/writer.rs:359-375 | the names of the sidecar and of the two temporary files, with sixteen digits that spell the nonce |
| AtomicWriter.RunKeepsInv | src/atomic/writer.rs:151-258 | every interleaving of writers with distinct nonces, stopped anywhere, keeps the protocol invariant |
| AtomicWriter.StopIsFinal | src/atomic/writer.rs:151-268 | a writer that has stopped takes no further step, and once all have stopped nothing changes |
| AtomicWriter.FinishingSyncs | src/atomic/writer.rs:265-268 | with fsync on, a writer that finishes between two points of a run has forced the directory to disk between them |
| AtomicWriter.WithoutFsyncRenamesMayBeLost | src/atomic/writer.rs:100-115 | with fsync off the directory is never forced to disk, so a power loss at the end of a run may undo every rename |
| AtomicWriter.DestinationIsComplete | src/atomic/writer.rs:151-258 | destination and sidecar are each as they were or one writer's complete bytes, forced to disk if writers do so |
| AtomicWriter.ReaderSeesOnePayload | src/atomic/writer.rs:290-356 | a reader that reads the two files at different points gets an error or one complete payload, old or written |
| AtomicWriter.ReadAfterRenames | src/atomic/writer.rs:290-356 | once both files have been written, a read succeeds exactly if the last renamed data fits the last renamed sidecar |
| AtomicWriter.LoneWriterRead | src/atomic/writer.rs:248-258 | beside a lone writer a read gives the old result, then the new data against the old sidecar, then the new pair |
| AtomicWriter.LoneWriterWindow | src/atomic/writer.rs:248-258 | from a verified pair, reads fail exactly between the renames and only if the new data do not fit the old sidecar |
| AtomicWriter.LoneWriterFirst | src/atomic/writer.rs:248-258 | with nothing there before, reads fail exactly until the second rename |
| AtomicWriter.RerunRestores | src/atomic/writer.rs:120-279 | whatever a crash left, a write run alone to completion restores a verified pair |
| AtomicWriter.PairIsBrokenBetweenRenames | src/atomic/writer.rs:248-258 | a run of a lone writer after which the pair does not match, unless the new data fit the old sidecar |
| AtomicWriter.InterleavedRenames | src/atomic/writer.rs:248-258 | two complete writes that leave the data of one beside the sidecar of the other |
| AtomicWriter.PowerLossLeavesPayload | src/atomic/writer.rs:180-193 | with fsync on, a power loss at any point leaves a complete payload |
| AtomicWriter.WithoutFsyncPayloadMayBeLost | src/atomic/writer.rs:100-115 | with fsync off, there is a run after whose rename a power loss may leave any bytes |
| AtomicWriter.PayloadSurvivesIff | src/atomic/writer.rs:100-115 | beside a lone writer every recovery is a complete payload if and only if fsync is on or the rename has not happened |
| AtomicWriter.PowerLossRead | src/atomic/writer.rs:248-279 | with fsync on, a verified read after a power loss, in which renames not yet synchronised may be lost one by one, gives an error or a complete payload |
| AtomicWriter.LoneWriterPowerLoss | src/atomic/writer.rs:248-279 | after such a loss beside a lone writer a read sees old or new data against old or new sidecar, and the new pair once the directory is synchronised |
| AtomicWriter.PowerLossWindow | src/atomic/writer.rs:248-279 | from a verified pair, that read fails exactly if one rename survived without the other and the parts do not fit |
| AtomicWrite.Write | src/atomic/writer.rs:120-279 | success or failure, the method stops at a point of the protocol, and it fails exactly with the error of the first operation that fails; success means the end of the protocol, that the parent exists, that the directory was forced to disk if so configured, and that a verified read returns the data and the returned sidecar |
| AtomicWrite.FirstErrorMeaning | src/atomic/writer.rs:120-268 | that error is the one of the first of the operations that fails, and there is none if and only if all of them work |
| AtomicWrite.Read | src/atomic/writer.rs:290-356 | which of the four errors is returned for which state of the two files, and otherwise the data and the sidecar |
| Catalog.BuildCatalog | src/discovery/catalog.rs:125-195 | the loops build the specified catalogue: cells in matrix order, each thesis at its home, an outside cell only if needed |
| Catalog.CollectCells | src/discovery/catalog.rs:130-153 | the cells of the matrix, and an index that maps each key to its first cell |
| Catalog.MatrixCell | src/discovery/catalog.rs:130-153 | where the cell of a facet stands, with the labels of its dimension and facet and the first description that is for them |
| Catalog.OutsideCell | src/discovery/catalog.rs:164-175 | one more cell exists if and only if some angle names no facet, and what it holds |
| Catalog.GroupsOfCell | src/discovery/catalog.rs:176-192 | a cell without theses has no group, any other one group in ascending order that marks no duplicates |
| Catalog.CatalogueListsTheses | src/discovery/catalog.rs:125-195 | the members are exactly the thesis ids with their multiplicities, for every matrix, and the member count is the number of theses |
| Catalog.ListedAtHome | src/discovery/catalog.rs:155-163 | a cell lists an id exactly when a thesis with that id has the cell as home |
| Catalog.HomeInCatalogue | src/discovery/catalog.rs:155-175 | the home of a thesis is the first cell whose key is its angle, or else the trailing outside cell |
| Catalog.ThesisIsFound | src/discovery/catalog.rs:229-235 | with distinct ids, looking up a thesis finds its home, and no other cell lists it |
| Catalog.Validate | src/discovery/catalog.rs:202-221 | accepts if and only if the members are duplicate-free with the ids of the theses; otherwise names the first offence in the documented order |
| Catalog.FirstOffenceIsUnique | src/discovery/catalog.rs:198-221 | there is at most one first offence, so the error is determined |
| Catalog.CatalogueValidates | src/discovery/catalog.rs:202-221 | the catalogue that was built validates if and only if the thesis ids are distinct |
| Catalog.SortIdsSorts | src/discovery/catalog.rs:176-192 | members of a cell are sorted by id, repetitions kept |
| Merge.MergeValue | src/cli/continue_cmd.rs:922-937 | the field-by-field loop computes the recursive merge |
| Merge.MergedByKey | src/cli/continue_cmd.rs:927-933 | keys of the base in order, then new keys of the patch; under each key the merge of what both hold |
| Merge.MergeAtPath | src/cli/continue_cmd.rs:922-937 | what stands at every path of a merge, in terms of what base and patch hold there |
| Merge.PatchLeafWins | src/cli/continue_cmd.rs:922-937 | a leaf of the patch stands in the result at its path |
| Merge.UntouchedKept | src/cli/continue_cmd.rs:922-937 | a path the patch does not touch keeps the value of the base |
| Merge.MergeIsIdempotent | src/cli/continue_cmd.rs:922-937 | applying a patch twice is applying it once |
| Merge.PatchesInTurn | src/cli/continue_cmd.rs:922-937 | applying two patches in turn equals applying their merge, field order included, if and only if each clash is covered by the second patch |
| Merge.MergeWithoutClash | src/cli/continue_cmd.rs:922-937 | they are equal whenever the first patch has no non-object where base and second patch have objects |
| Merge.MergeIsNotAssociative | src/cli/continue_cmd.rs:922-937 | a base and two patches for which they differ |
| Ids.CanonicalJoin | src/ids.rs:90-101 | the loop puts the separator between the parts and nowhere else |
| Ids.JoinedLaws | src/ids.rs:90-101 | one byte 0x1f stands between each two parts, and nothing before the first or behind the last |
| Splitting.SplitUndoesJoin | src/ids.rs:90-101 | splitting at the separator undoes joining if and only if the list is non-empty and its parts are free of the separator |
| Splitting.JoinUndoesSplit | src/ids.rs:90-101 | every byte string is the join of its pieces |
| Ids.JoinedCollision | src/ids.rs:90-101 | two lists join to the same bytes if and only if they have the same pieces |
| Ids.JoinIsInjective | src/ids.rs:90-101 | joining is injective on non-empty lists of separator-free parts |
| Ids.SeparatorInText | src/ids.rs:88-101 | the separator is a legal text character, and with it two lists join alike |
| Ids.CanonicalHash | src/ids.rs:105-115 | the key is the hash of the joined bytes |
| Ids.SharedKeyIsCollision | src/ids.rs:105-115 | a key shared by two different such lists is a collision of the hash function |
| UrlJoin.JoinSegments | src/audit/proxy.rs:1190-1199 | the downward search for an overlap yields the only shortest list with the base as prefix and the target as suffix |
| UrlJoin.JoinUpstream | src/audit/proxy.rs:1161-1207 | which targets are refused; otherwise origin and query as given, no fragment, and the path that the library stores for the shortest join of the segments |
| UrlJoin.TargetParts | src/audit/proxy.rs:1174-1176 | a target is its path, free of question marks, and its query behind the first one |
| UrlJoin.SegmentLaws | src/audit/proxy.rs:1178-1189 | slashes separate segments, and empty ones do not count |
| UrlJoin.ResolvedLaws | src/audit/proxy.rs:1200 | what storing a path makes of dot segments in its middle, at its start and at its end |
| UrlJoin.DotSegments | src/audit/proxy.rs:1200 | the dot segments are one or two dots, each written as a dot or as its percent-encoded form |
| UrlJoin.CleanedLaws | src/audit/proxy.rs:1200 | storing a path drops tabs and line breaks and turns backslashes into slashes, and leaves all other characters to the encoder |
| UrlJoin.TargetCarriesBase | src/audit/proxy.rs:1190-1199 | the result is the target if and only if the target starts with the whole base |
| UrlJoin.BaseCarriesTarget | src/audit/proxy.rs:1190-1199 | the result is the base if and only if the base ends with the target; joining again changes nothing |
| UrlJoin.JoinedPathKeepsTarget | src/audit/proxy.rs:1187-1201 | the stored path has the base as prefix and the encoded target as suffix if and only if no target segment is a dot segment or has a backslash, tab or line break; then it is the encoded join |
| UrlJoin.StoredPathKeepsTarget | src/audit/proxy.rs:1199-1201 | the same of segment lists |
| UrlJoin.StoredSegments | src/audit/proxy.rs:1200 | whatever the path, no stored segment is a dot segment or has a special character |
| UrlJoin.DotsLeaveBase | src/audit/proxy.rs:1161-1201 | the accepted target "/../admin" under the base "/v1" is stored as "/admin" |
| UrlJoin.SegmentsOfJoined | src/audit/proxy.rs:1177-1200 | a path written from slash-free segments has exactly its non-empty ones |
| UrlJoin.StoringLibraryExists | src/audit/proxy.rs:1169-1207 | a URL library as assumed exists for every base with kept segments |
| Poll.AwaitRun | src/audit/proxy.rs:1029-1052 | at most eighteen polls; the answer is that of the first poll that finds a directory or fails, and none only at a poll at or after the deadline |
| Poll.WaitsAre | src/audit/proxy.rs:1029-1052 | the waits are 5, 10, 20, 40, 80, 160, 320 and 640 milliseconds and then a second each |
| Poll.EighteenPolls | src/audit/proxy.rs:1029-1052 | with exact sleeps and no directory there are exactly eighteen polls |

## Left out

- Framing.ReadBoundedLine: an I/O error other than the end of input is not modelled, and sums of lengths are unbounded, because the limits keep them far below the machine word.
- Framing.ReadChunkedBody: on an error nothing is said about the bytes already consumed, because the connection is then answered with the error status and closed.
- Sealing.AuditWriter.WriteRecord: which way a failure goes is a parameter; that only members as large as the buffer bypass it is not modelled, nor what the buffer does when the writer is dropped, nor a failure to print the record.
- Gzip.CutMembers: the text of a file is put together from the texts of its members, so a character split between two members, which no writer makes, is not modelled.
- AuditFormat.RecordRoundTrip: timestamps are exact decimals, the shortest that print the 64-bit float, and negative zero is not among them, and a line with repeated keys is read like the object that parsing makes of it.
- Merge.MergeValue: the merge is modelled on values; that the base is updated through references into its map is not captured.
- Catalog.SortIdsSorts: the library's stable sort is a specification function (`Order.Sort`) rather than an in-place algorithm; likewise in RecordPairing.
- UrlJoin.JoinUpstream: base addresses other than http and https ones, which the proxy refuses at its start, are not modelled, and percent-encoding is a parameter.
- Poll.AwaitRun: the configured log path and run id, which skip the wait, are not modelled, and the answers of the directory scan and the clock are parameters.
- AtomicWrite.Write: directories are a set of paths beside the files, that a file needs its directory is not modelled, and opening and syncing the directory are one operation with one error; nor is a failure to print the sidecar.
- Verify.VerifyInner: the run id of the directory and failures of the database are not modelled; database rows are a list.
- Parsing of the request line and headers (`read_request`), header redaction, hop-by-hop filtering, forwarding, TLS, timeouts and shutdown: a connection is its sequence of log appends.
- SHA-256 of bodies, redaction and `body_canonical` of non-JSON bytes: opaque inputs of a record.
- Curation of catalogues, TSV rendering, command-line handling, checkpoints, cancellation: finite tables or plumbing.
