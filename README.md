# fixg core, modelled and verified in Dafny

This project models the sequential core of fixg, a FIX 4.4 engine written in Rust. It covers four parts.

- **The FIX wire codec** (src/protocol.rs):
  - the MsgType (tag 35) code tables;
  - `compute_checksum`;
  - `encode` / `encode_to_writer`, which writes `8=FIX.4.4␁9=<len>␁35=<code>␁`, the remaining fields in
    ascending tag order, and `10=ddd␁`;
  - `decode`, which checks SOH framing, the CheckSum(10) and the BodyLength(9) and rebuilds the message;
  - the stream framer `try_extract_one`;
  - the `build_*` constructors.
- **The message journal** (src/storage.rs):
  - `sanitize` and `SessionKey::file_stem`;
  - `flush_batch` draining the worker's FIFO queue into in-memory `<stem>.jsonl` / `<stem>.idx` files;
  - the `DurabilityPolicy` sync decision;
  - `load_outbound_range` and `last_outbound_seq` of `FileMessageStore`;
  - the Aeron index frame: `encode_index_frame` and the frame parsing of `AeronMessageStore::load_outbound_range`.
- **The admin messages generated by build.rs**: `AdminMessage`, `TryFrom<&FixMessage>`, `into_fix`, `msg_type`, and the
  `LogonBuilder`, `TestRequestBuilder` and `LogoutBuilder` builders.
- **`SessionConfigBuilder`** (src/session.rs): its setters and `build`.

Each module follows the form of the code it models:
- Pure Rust code becomes datatypes, functions and lemmas.
- Code that works step by step becomes methods with loops, proved against specification functions:
  - `encode_to_writer` writing into a `Writer` object;
  - the two loops of `decode`;
  - `try_extract_one` advancing a `StreamBuffer` in place;
  - `flush_batch` popping the queue of a `FileMessageStore`;
  - the index loops of `load_outbound_range` and `last_outbound_seq`.

The main results are these:
- Let `m`'s values be SOH-free UTF-8 text, let no field use tag 8, 9 or 35, and let the body length fit a `usize`.
  Then `decode(encode(m))` succeeds with BeginString FIX.4.4, the computed body length, exactly `m`'s fields and the
  msg type `m`'s code parses to, which is `Unknown("?")` for every unknown type. It gives `m` itself back when, in
  addition, the msg type is known, `m`'s BeginString is FIX.4.4 and its body length is the computed one.
- The framer yields exactly one encoded message from a buffer that holds it followed by anything.
- Take a store that has no index file yet for a session's stem, and flush any number of batches into it. The journal
  then reads back exactly the outbound, sequenced records in range, sorted stably by sequence number, and it reports
  the largest sequence number sent. The records are those of every session that shares the stem, since two sessions
  can share one.
- `try_from(into_fix(m))` gives `m` back for four admin variants, and for the other two the exact ways it does not.

Conventions:
- Bytes are the subset type `Byte` (0..255). Text that Rust holds as `String` on the wire is its UTF-8 bytes (`Text`).
- `Utf8` models `str::from_utf8` as the well-formed sequences of table 3-7 of the Unicode Standard.
- `Decimal` models `to_string`, `parse::<uN>`, `parse::<bool>` and `{:03}`.
- `TextLines` models `str::lines`, `split_whitespace` and `trim().is_empty()`.

## Model

| member | source | states |
|---|---|---|
| Protocol.ParseMsgType | src/protocol.rs:90-100 | printing the parsed type with `msg_type_to_str` gives back the text read; the type is `Unknown` exactly when the text is none of the six codes A, 0, 1, 5, 2, 4 |
| Protocol.MsgTypeAsStr | src/protocol.rs:78-88 | the code written is one ASCII byte other than SOH and `=`; parsing it gives the type back, except that every unknown type comes back as `Unknown("?")`; for a known type it agrees with `msg_type_to_str` |
| Protocol.MsgTypeToStr | src/protocol.rs:66-76 | a known type prints as one of the six one-byte codes; an unknown type prints as its own code |
| Protocol.NewMessage | src/protocol.rs:47-54 | a new message is FIX.4.4, has body length 0, the given msg type and no fields |
| Protocol.SetField | src/protocol.rs:56-58 | setting a field adds its tag with the given value, overwriting an earlier value, and changes nothing else |
| Protocol.ParseMsgTypeOfToStr | src/protocol.rs:66-100 | `parse_msg_type(msg_type_to_str(t)) == t` exactly when `t` is not an unknown type whose code is one of the six known codes |
| Protocol.Checksum | src/protocol.rs:61-64 | the checksum is at most 255 |
| Protocol.BuildLogon | src/protocol.rs:279-289 | a fresh FIX.4.4 Logon with body length 0 and exactly the fields 49, 56 and 108 (the interval's decimal text) |
| Protocol.BuildHeartbeat | src/protocol.rs:291-303 | a fresh Heartbeat with exactly 49 and 56, and 112 only when a TestReqID is given |
| Protocol.BuildTestRequest | src/protocol.rs:305-311 | a fresh TestRequest with exactly 49, 56 and 112 |
| Protocol.BuildLogout | src/protocol.rs:313-321 | a fresh Logout with exactly 49 and 56, and 58 only when a text is given |
| Protocol.BuildResendRequest | src/protocol.rs:323-335 | a fresh ResendRequest with exactly 49, 56, 7 and 16 (decimal texts) |
| Protocol.BuildSequenceReset | src/protocol.rs:337-351 | a fresh SequenceReset with exactly 49, 56 and 36, and 123 = "Y" only when gap fill is asked for |
| Encoder.BodyLengthIsByteCount | src/protocol.rs:125-139 | the body length summed as `tag digits + 1 + value length + 1` per field is exactly the number of bytes the body fields occupy |
| Encoder.SortedTags | src/protocol.rs:118-119 | the tags of the map come out strictly ascending, each of them once and nothing else |
| Encoder.BodyFields | src/protocol.rs:112-123 | the body fields start with MsgType(35) and the code `msg_type_as_str` gives |
| Encoder.BodyFieldsSorted | src/protocol.rs:117-123 | after MsgType come entries of the map with their values, in strictly ascending tag order |
| Encoder.BodyFieldsCover | src/protocol.rs:117-123 | every field of the map is written after MsgType |
| Encoder.WrappingSumIsChecksum | src/protocol.rs:142-150 | the `u8::wrapping_add` fold equals `compute_checksum` |
| Encoder.EncodingLayout | src/protocol.rs:110-153 | an encoding is the header `8=FIX.4.4␁9=<len>␁`, then exactly `len` body bytes, then `10=` with three digits and SOH |
| Encoder.EncodingIgnoresHeaderFields | src/protocol.rs:130-134 | the message's own BeginString and BodyLength do not affect the bytes written |
| Encoder.Writer.WriteAll | src/protocol.rs:131-139 | a write appends its bytes to what the writer holds |
| Encoder.WritePrelude | src/protocol.rs:130-139 | writing the header and each body field appends the header and the body fields' text |
| Encoder.CollectBodyFields | src/protocol.rs:112-123 | the vector built by pushing MsgType and the sorted entries is the body-field sequence |
| Encoder.PreludeChecksum | src/protocol.rs:141-149 | the checksum pass folds the header and body text with wrapping addition |
| Encoder.EncodeToWriter | src/protocol.rs:110-153 | the writer ends up holding what it held before followed by the encoding of the message |
| Encoder.Encode | src/protocol.rs:103-107 | `encode` returns the encoding of the message |
| Decoder.Split | src/protocol.rs:164-165 | splitting on SOH gives at least one piece, none containing SOH, and joining the pieces with SOH gives the input back |
| Decoder.TrailerField | src/protocol.rs:164-166 | the trailer is the last SOH-free field before the final SOH |
| Decoder.Decode | src/protocol.rs:155-248 | the method returns the specified decoding: each error of the source in its order, or the rebuilt message |
| Decoder.DecodeFields | src/protocol.rs:184-248 | the part after the trailer is popped computes the header checks, the body-length check and the rebuilt message |
| Decoder.CollectFields | src/protocol.rs:187-196 | the first loop inserts each parsed field, a later tag overriding an earlier one, and stops at the first malformed field with its error |
| Decoder.CountBodyBytes | src/protocol.rs:206-226 | the second loop counts each field after the first `9=` field, plus its SOH, skipping the first `8=` field |
| Decoder.InsertFieldsWellFormed | src/protocol.rs:188-196 | when the first loop completes, every field had a `=` and a numeric u32 tag |
| Decoder.InsertFieldsFacts | src/protocol.rs:188-196 | every tag read ends up in the map with the value of its last occurrence, and nothing else changes |
| Decoder.DecodeBodyAccepted | src/protocol.rs:198-247 | an accepted message had tags 8, 9 and 35; its body length is the tag-9 value, equal to the counted bytes; its msg type is the parsed tag-35 text; its fields are the map without 8, 9 and 35 |
| Decoder.DecodeBodyWellFormed | src/protocol.rs:188-196 | an accepted list of body fields holds only well-formed `tag=value` fields |
| Decoder.DecodeAccepted | src/protocol.rs:159-182 | an accepted buffer ends with SOH, and its last field is `10=` followed by the byte sum modulo 256 of everything before that field |
| RoundTrip.EncodingPassesChecksum | src/protocol.rs:159-185 | an encoding passes the SOH, trailer and checksum checks, leaving exactly the written fields |
| RoundTrip.WrittenBodyCount | src/protocol.rs:206-233 | the second loop of `decode` counts exactly the body length `encode` wrote |
| RoundTrip.DecodedMap | src/protocol.rs:188-240 | the map decoded from an encoding holds 8 = FIX.4.4, 9 = the length, 35 = the code, and otherwise exactly the message's fields |
| RoundTrip.DecodeEncode | src/protocol.rs:103-248 | when no field uses tag 8, 9 or 35 and values are SOH-free UTF-8, `decode(encode(m))` succeeds with FIX.4.4, the computed length, the parsed code and exactly `m`'s fields |
| RoundTrip.DecodeEncodeIdentity | src/protocol.rs:103-248 | for a known msg type with those header values, `decode(encode(m)) == m` |
| RoundTrip.EncodeDecodeEncode | src/protocol.rs:103-248 | re-encoding the decoded message gives the same bytes, for every msg type, unknown ones included |
| Framer.ScanLengthField | src/protocol.rs:253-258 | a found field lies in the buffer: the first "8=", the first "9=" after it, and an SOH after that |
| Framer.ParseLength | src/protocol.rs:259-260 | a parsed length fits a usize |
| Framer.FrameBounds | src/protocol.rs:252-267 | a frame found lies within the buffer and is not empty |
| Framer.TryExtractOne | src/protocol.rs:252-272 | without a complete frame, nothing is returned and the buffer is unchanged; otherwise exactly the frame's bytes are returned and everything up to its end is removed |
| Framer.FrameStartsWithBegin | src/protocol.rs:253-255 | a frame starts with "8=" |
| Framer.FrameExtend | src/protocol.rs:252-267 | a frame found stays the frame found when more bytes arrive |
| Framer.FramePrefix | src/protocol.rs:252-267 | a prefix of a buffer yields the same frame if it holds all of it, and nothing otherwise |
| Framer.FrameOfEncoding | src/protocol.rs:252-272 | a buffer holding `encode(m)` followed by anything yields exactly `encode(m)` and leaves the rest |
| Framer.NoFrameInPartialEncoding | src/protocol.rs:264-267 | a buffer holding only part of an encoding yields nothing |
| Framer.BoundsWithoutOverflow | src/protocol.rs:262-267 | while the frame's end fits a usize, the wrapping arithmetic gives the intended end |
| Framer.AsWrittenAgreesWithoutOverflow | src/protocol.rs:252-267 | while the frame's end fits a usize, the framer as written agrees with `FrameBounds` |
| Framer.WrapAroundYieldsEmptyFrame | src/protocol.rs:264-268 | for a body length of 2^64 - 32, the framer as written extracts an empty frame where no complete frame exists |
| Admin.Get | build.rs:161-162 | the lookup gives the value exactly when the tag is present |
| Admin.OptionalU32 | build.rs:160-163 | an optional number is present exactly when the tag is there and its value parses as u32, and then it is that value |
| Admin.OptionalBool | build.rs:164 | an optional flag is present exactly when the value is "true" or "false" |
| Admin.RequiredU32 | build.rs:190-197 | a missing tag and an unparsable value are two distinct errors; otherwise the parsed value |
| Admin.TryFrom | build.rs:157-210 | errors exactly for: an unknown type; a TestRequest without 112; a ResendRequest without a parsable 7 and 16; a SequenceReset without a parsable 36. Logon, Heartbeat and Logout always succeed, and the result's `msg_type` is the message's |
| Admin.MsgType | build.rs:273-282 | an admin message never has an unknown type |
| Admin.FlagText | build.rs:225 | a flag is written as "Y" or "N" |
| Admin.IntoFix | build.rs:214-271 | a fresh FIX.4.4 message of the variant's type with 49 and 56 set from the arguments |
| Admin.IntoFixTags | build.rs:214-271 | the tags `into_fix` writes are exactly 49, 56 and the variant's own: 108, 98 and 141 as far as set for a Logon; 112 when set for a Heartbeat; 112 for a TestRequest; 58 and 1409 as far as set for a Logout; 7 and 16 for a ResendRequest; 36, plus 123 when set, for a SequenceReset |
| Admin.TryFromIntoFix | build.rs:174-256 | `try_from(into_fix(m)) == m` for ResendRequest, TestRequest, Heartbeat and Logout |
| Admin.TryFromIntoFixResendRequest | build.rs:189-256 | a ResendRequest reads back unchanged |
| Admin.TryFromIntoFixLogout | build.rs:184-250 | a Logout reads back unchanged, text and session status included |
| Admin.TryFromIntoFixLogon | build.rs:159-227 | a Logon reads back with its interval and encryption method, comp IDs as given to `into_fix`, and no reset flag |
| Admin.TryFromIntoFixSequenceReset | build.rs:200-263 | a SequenceReset reads back with its NewSeqNo and no gap-fill flag |
| Admin.FlagRoundTripFails | build.rs:159-227 | a Logon or SequenceReset carrying a flag does not read back as itself |
| Admin.ParseFixFlag | build.rs:225 | a FIX boolean is exactly "Y" or "N", and it reads back what `into_fix` writes |
| Admin.TryFromFixFlags | build.rs:157-210 | reading flags as FIX booleans changes only Logon and SequenceReset, and never whether reading succeeds |
| Admin.TryFromFixFlagsIntoFix | build.rs:157-271 | with flags read as FIX booleans every variant reads back unchanged, except a Logon's comp IDs, which come back as given |
| Admin.BuildLogonIsIntoFix | src/protocol.rs:279-289 | `build_logon` writes what `into_fix` writes for a Logon with only an interval |
| Admin.BuildHeartbeatIsIntoFix | src/protocol.rs:291-303 | `build_heartbeat` writes what `into_fix` writes for a Heartbeat |
| Admin.BuildTestRequestIsIntoFix | src/protocol.rs:305-311 | `build_test_request` writes what `into_fix` writes for a TestRequest |
| Admin.BuildLogoutIsIntoFix | src/protocol.rs:313-321 | `build_logout` writes what `into_fix` writes for a Logout without session status |
| Admin.BuildResendRequestIsIntoFix | src/protocol.rs:323-335 | `build_resend_request` writes what `into_fix` writes for a ResendRequest |
| Admin.BuildSequenceResetIsIntoFix | src/protocol.rs:337-351 | `build_sequence_reset` writes what `into_fix` writes for a SequenceReset whose flag is `Some(true)` or absent |
| Admin.NewLogonBuilder | build.rs:293-299 | a new Logon builder has no interval, encryption method 0 and no reset flag |
| Admin.WithHeartbeatInterval | build.rs:301-304 | sets only the interval |
| Admin.WithEncryptMethod | build.rs:306-309 | sets only the encryption method |
| Admin.WithResetSequenceNumbers | build.rs:311-314 | sets only the reset flag |
| Admin.BuildLogonMessage | build.rs:316-324 | a Logon with the builder's three settings and no comp IDs |
| Admin.DefaultLogonOnTheWire | build.rs:214-324 | a default Logon with an interval is written as 108, 98 = "0", 49 and 56, and reads back with encryption method 0 |
| Admin.BuildTestRequestMessage | build.rs:331-340 | a TestRequest with the builder's id |
| Admin.NewLogoutBuilder | build.rs:349-354 | a new Logout builder has neither text nor status |
| Admin.WithText | build.rs:356-359 | sets only the text |
| Admin.WithSessionStatus | build.rs:361-364 | sets only the status |
| Admin.BuildLogoutMessage | build.rs:366-371 | a Logout with the builder's text and status |
| Admin.BuiltMessagesRoundTrip | build.rs:327-371 | whatever the Logout and TestRequest builders produce reads back unchanged after `into_fix` |
| Session.Builder | src/session.rs:57-67 | the default builder has every setting unset |
| Session.WithHost | src/session.rs:70 | sets only the host |
| Session.WithPort | src/session.rs:71 | sets only the port |
| Session.WithSenderCompId | src/session.rs:72 | sets only SenderCompID |
| Session.WithTargetCompId | src/session.rs:73 | sets only TargetCompID |
| Session.WithHeartbeatIntervalSecs | src/session.rs:74 | sets only the heartbeat interval |
| Session.Build | src/session.rs:76-88 | succeeds exactly when all four required settings are set; otherwise the first missing one in the order host, port, sender, target names the `InvalidConfig` error; on success the configuration holds the values set and the interval defaults to 30 |
| Session.BuildRequiredOnly | src/session.rs:76-88 | the four required setters, in either order, give those values and a 30-second interval |
| Session.LaterSetterWins | src/session.rs:70-74 | a later call of a setter overrides an earlier one |
| Session.SettersCommute | src/session.rs:70-74 | setters of different settings commute |
| JournalNames.Sanitize | src/storage.rs:37-41 | the length is kept; ASCII alphanumerics are kept and every other character becomes `_` |
| JournalNames.SanitizeCharacters | src/storage.rs:37-41 | only `[A-Za-z0-9_]` comes out, and alphanumeric text comes out unchanged |
| JournalNames.SanitizeIdempotent | src/storage.rs:37-41 | sanitizing twice is sanitizing once |
| JournalNames.FileStem | src/storage.rs:28-34 | the stem is the sanitized sender, "__", then the sanitized target |
| JournalNames.DataPath | src/storage.rs:320-321 | the data file is the stem followed by ".jsonl" |
| JournalNames.IndexPath | src/storage.rs:322 | the index file is the stem followed by ".idx" |
| JournalNames.PathsOfStems | src/storage.rs:320-322 | two sessions share a file exactly when they share a stem, and no data file is an index file |
| JournalNames.DistinctSessionsShareAStem | src/storage.rs:28-41 | different sessions can share a stem, and so share one journal |
| Journal.Elapsed | src/storage.rs:356 | the elapsed time is `now - since`, or zero when the clock reads earlier |
| Journal.SyncDecision | src/storage.rs:351-362 | `Always` syncs and `Disabled` does not, and neither moves the last sync. `IntervalMs(ms)` syncs exactly when at least `ms` ms have elapsed, and then sets the last sync to now |
| Journal.FlushOneFiles | src/storage.rs:319-349 | one record appends its JSON line and a newline to its data file. An indexed record appends `"<seq> <offset>\n"` to its index, with the offset being the data length before the append; any other record leaves the index alone. No other file changes |
| Journal.ReadText | src/storage.rs:404-413 | reading fails with NotFound exactly when the file is missing, and with InvalidData exactly when it is not UTF-8; otherwise it gives the decoded text |
| Journal.IndexEntry | src/storage.rs:416-419 | an index line gives an entry exactly when its first two tokens parse as u32 and u64 |
| Journal.RangeEntries | src/storage.rs:415-424 | the entries collected have keys in `[begin, end]` |
| Journal.ReadLineAt | src/storage.rs:431-434 | a seek past `i64::MAX` fails with InvalidInput, as std's `lseek` refuses the negative offset; any other offset at or past the end gives the empty line; a line that is not UTF-8 gives InvalidData; otherwise the line read, newline included |
| Journal.PayloadOf | src/storage.rs:435-442 | a line gives at most one payload, and a blank line none |
| Journal.ReadPayloadsOk | src/storage.rs:430-443 | the reads succeed exactly when the seek and line read of every entry succeed |
| Journal.ReadPayloadsFails | src/storage.rs:430-443 | once a read has failed, later entries do not change the result |
| Journal.OutboundRangeOf | src/storage.rs:393-445 | a missing index gives no payloads; an index that is not UTF-8 gives InvalidData; a missing data file behind a readable index gives NotFound |
| Journal.OutboundRangeSeekFails | src/storage.rs:414-434 | an index entry in range whose offset is past `i64::MAX` makes the whole load fail, whatever the other entries hold |
| Journal.FirstSeq | src/storage.rs:462-465 | a line's first token is read as a u32, and nothing is read otherwise |
| Journal.MaxSeqIsMaximum | src/storage.rs:460-469 | the fold is `None` exactly when no line starts with a sequence number; otherwise it is one that some line starts with, and no line exceeds it |
| Journal.MaxSeqBound | src/storage.rs:460-469 | a maximum over lines that all occur in another index is at most that index's maximum |
| Journal.MaxSeqOrderFree | src/storage.rs:460-469 | the result depends on which lines the index holds, not on their order |
| Journal.LastOutboundSeqOf | src/storage.rs:447-471 | a missing index gives `None`, and the only error is an index that is not UTF-8 |
| Journal.FileMessageStore.constructor | src/storage.rs:285-293 | a store over the given files with an empty queue and the last sync at now |
| Journal.FileMessageStore.Append | src/storage.rs:369-373 | the record goes to the back of the queue, and nothing else changes |
| Journal.FileMessageStore.AppendBytes | src/storage.rs:375-391 | a record with the base64 of the payload goes to the back of the queue |
| Journal.FlushAllConcat | src/storage.rs:295-365 | flushing two batches one after the other is flushing their concatenation, so successive `flush_batch` calls compose into one flush of everything queued |
| Journal.FileMessageStore.FlushBatch | src/storage.rs:314-365 | the queue ends empty, and the files, last sync and syncs are those of flushing the old queue front first |
| Journal.FileMessageStore.FlushRecord | src/storage.rs:319-362 | one loop turn gives the state of flushing that record at that clock reading |
| Journal.FileMessageStore.LoadOutboundRange | src/storage.rs:393-445 | the method returns the specified read-back of the range |
| Journal.FileMessageStore.CollectOffsets | src/storage.rs:414-424 | the loop collects exactly the parsable index entries in range, in file order |
| Journal.FileMessageStore.ReadRecords | src/storage.rs:429-443 | the loop reads the payloads at the offsets in order, stopping at the first failed read |
| Journal.FileMessageStore.LastOutboundSeq | src/storage.rs:447-471 | the method returns the specified maximum, or the read error |
| Journal.FileMessageStore.LargestSeq | src/storage.rs:460-469 | the loop computes the fold of `last.map_or(sq, max)` over the lines |
| JournalRecovery.FlushOneData | src/storage.rs:320-337 | one record changes the data file of a session exactly when it has that session's stem, by appending its line |
| JournalRecovery.FlushOneIndex | src/storage.rs:339-349 | one record changes the index of a session exactly when it is an outbound record with a sequence number and has that stem |
| JournalRecovery.FlushAllData | src/storage.rs:319-337 | after a batch, a session's data file is its old contents followed by the lines of that stem's records, in queue order; it exists exactly when it existed before or one such record was flushed |
| JournalRecovery.FlushAllIndex | src/storage.rs:319-349 | after a batch, a session's index is its old contents followed by one line per indexed record of that stem, carrying its offset |
| JournalRecovery.FlushAllSyncs | src/storage.rs:351-362 | `Always` syncs after every record and `Disabled` never; neither touches the last sync |
| JournalRecovery.FlushAllIntervalSyncs | src/storage.rs:355-359 | under `IntervalMs(ms)` each sync is at least `ms` ms after the previous one, and the last becomes the last sync |
| JournalRecovery.SlotRecords | src/storage.rs:339-349 | the slots (offset, record) of a batch hold exactly its indexed records, in order |
| JournalRecovery.SlotLinesRead | src/storage.rs:346 | each index line is a plain line starting with its sequence number |
| JournalRecovery.IndexBytesOfSlots | src/storage.rs:339-349 | the index bytes written are the index lines of the slots |
| JournalRecovery.SlotIndexText | src/storage.rs:346-347 | the index bytes are the UTF-8 text of the index lines, each followed by a newline |
| JournalRecovery.IndexEntryOfLine | src/storage.rs:416-419 | an index line parses back to its sequence number and offset |
| JournalRecovery.RangeEntriesOfSlots | src/storage.rs:414-424 | the entries read from the slots' lines are the slots in range, with their offsets |
| JournalRecovery.ReadRecordLine | src/storage.rs:431-434 | `read_line` at the start of a record line returns that line, newline included |
| JournalRecovery.SlotsReadable | src/storage.rs:325-337 | every slot's offset points at the start of its record's line in the data file |
| JournalRecovery.ReadSlots | src/storage.rs:430-443 | reading at readable slots, in any order, gives their payloads in that order |
| JournalRecovery.EntriesOfSlots | src/storage.rs:414-425 | reading the index back and sorting gives the sorted offsets of the slots in range |
| JournalRecovery.RecordsOfSlots | src/storage.rs:425 | the records behind the sorted slots in range are the indexed records in range, sorted |
| JournalRecovery.ReadSortedSlots | src/storage.rs:425-443 | reading at the sorted slots in range gives their payloads |
| JournalRecovery.IndexAfterFlush | src/storage.rs:339-349 | after a flush into a store without an index for the stem, the index exists exactly when a slot was written, and its text is the slots' lines |
| JournalRecovery.DataAfterFlush | src/storage.rs:330-337 | after a flush that wrote a slot, the data file is its old contents followed by the stem's lines |
| JournalRecovery.OutboundRangeOfIndex | src/storage.rs:393-445 | with a readable index and an existing data file, the range is read at the sorted in-range entries |
| JournalRecovery.RangeOfSlotFiles | src/storage.rs:393-445 | files that hold the slots of a batch give back the payloads of its indexed records in range, sorted |
| JournalRecovery.RecoverOutboundRange | src/storage.rs:314-445 | after a flush into a store without an index for the stem, with data-file offsets a seek accepts, `load_outbound_range` returns the payloads of that stem's outbound, sequenced records in range, sorted stably by sequence number |
| JournalRecovery.MaxSeqOfKeys | src/storage.rs:460-469 | the fold over lines starting with given keys is the largest key |
| JournalRecovery.MaxOfSlots | src/storage.rs:460-469 | the largest sequence number in the slots' index lines is their largest key |
| JournalRecovery.RecoverLastOutboundSeq | src/storage.rs:447-471 | after such a flush, `last_outbound_seq` succeeds, is `None` exactly when no indexed record was sent, and otherwise is the largest sequence number sent |
| AeronIndex.BigEndian32 | src/storage.rs:174 | `to_be_bytes` gives four bytes |
| AeronIndex.BigEndian32RoundTrip | src/storage.rs:174-229 | `from_be_bytes` and `to_be_bytes` invert each other |
| AeronIndex.EncodeIndexFrame | src/storage.rs:172-177 | a frame is four bytes followed by the payload |
| AeronIndex.DecodeIndexFrame | src/storage.rs:226-229 | a frame is skipped exactly when it is shorter than four bytes |
| AeronIndex.IndexFrameRoundTrip | src/storage.rs:172-229 | parsing an encoded frame gives back the sequence number and payload, and re-encoding a parsed frame gives back its bytes |
| AeronIndex.FramesInRange | src/storage.rs:225-233 | the frames kept have sequence numbers in `[begin, end]` |
| AeronIndex.Frames | src/storage.rs:207-211 | one index frame per message offered |
| AeronIndex.FramesInRangeOfSent | src/storage.rs:207-233 | parsing the frames offered and keeping those in range gives back what was sent in range |
| AeronIndex.LoadSentFrames | src/storage.rs:207-235 | the index stream gives back the payloads sent in range, sorted by sequence number, with equal numbers in send order |
| AeronIndex.AeronMessageStore.AppendBytes | src/storage.rs:199-215 | only an outbound message with a sequence number is published: its payload on the data stream and its frame on the index stream |
| AeronIndex.AeronMessageStore.Append | src/storage.rs:183-197 | a record whose payload is not base64 is dropped; otherwise the decoded payload is published as above |
| AeronIndex.AeronMessageStore.LoadOutboundRange | src/storage.rs:217-236 | the loop and the sort give the sorted payloads of the polled frames in range |
| AeronIndex.AeronMessageStore.LastOutboundSeq | src/storage.rs:238-240 | this store always answers `None` |
| Sorting.SortByKey | src/storage.rs:425 | the sort keeps length and elements and orders keys ascending |
| Sorting.SortByKeyStable | src/storage.rs:425 | equal keys keep their order |
| Sorting.InRange | src/storage.rs:420 | only pairs of the input with keys in range are kept |
| Decimal.Digits | src/protocol.rs:134 | `to_string` gives digits whose value is the number, with no leading zero |
| Decimal.ParseDigits | src/protocol.rs:227 | parsing the decimal text of a number gives it back exactly when it fits the type |
| Decimal.Pad3 | src/protocol.rs:150 | `{:03}` gives three digits with the value |
| Decimal.ParsePad3 | src/protocol.rs:171-173 | the checksum text written parses back as a u8 |
| Decimal.ParseBool | build.rs:164 | `parse::<bool>` accepts exactly "true" and "false" |
| TextLines.LinesOfJoinLines | src/storage.rs:415 | `lines()` gives back the lines written, each ended by a newline |
| TextLines.Tokens | src/storage.rs:416 | tokens are non-empty and hold no whitespace |
| TextLines.BlankHasNoTokens | src/storage.rs:435 | a line is blank exactly when it has no token |
| TextLines.TokensOfTwoWords | src/storage.rs:416 | two words separated by a space are the line's two tokens |
| TextLines.ParseDecimalText | src/storage.rs:417-418 | a token that is a number's decimal text parses back to it when it fits |
| Utf8.DecodeEncode | src/storage.rs:404 | `from_utf8` of the bytes of a string gives the string back |
| Utf8.DecodeAppend | src/storage.rs:404 | well-formed bytes stay well-formed when more are appended, and decode piecewise |
| Bytes.FindFrom | src/protocol.rs:274-276 | the search finds the first occurrence of the pattern |

## Left out

- The tokio worker of `FileMessageStore::new_with_config` (src/storage.rs:285-311) is not modelled. This covers its `select!` over the channel and the ticker, `batch_max` and `channel_capacity`. A flush is `FlushBatch` over the whole queue, and sending on the channel is appending to that queue. The durability policy is a parameter of the store's constructor. The default `IntervalMs(500)` that `FileMessageStore::new` takes from `StorageConfig::default` (src/storage.rs:111, 277-282) is not modelled, and neither are the other defaults, which configure the worker and the base directory.
- File I/O is modelled as a map from file name to contents:
  - `metadata`, `OpenOptions`, `seek`, `read_line` and `sync_data` are modelled on that map, a seek with std's refusal of offsets past `i64::MAX`;
  - I/O errors while flushing are not modelled;
  - a sync is recorded as the data file and the clock reading;
  - `base_dir` is left out, and paths are the file names.
- serde_json and base64 are libraries outside this model. A `RecordCodec` carries them as functions, and what serde_json promises is stated as the hypothesis `JsonLaws` of the recovery lemmas.
- Protocol.Checksum: `compute_checksum` sums into a `u32` (src/protocol.rs:62). Past 16,843,009 bytes of 0xFF the sum overflows. A debug build then panics; a release build wraps, and because 2^32 is a multiple of 256 the wrapped result equals the model's unbounded sum modulo 256. The panic is not modelled.
- The clock is an input: one reading per record of a batch, in nanoseconds.
- Journal.SyncDecision: under `IntervalMs` the new last sync is taken to be the reading the decision was made with. The source reads the clock again with `Instant::now()` after `sync_data` returns (src/storage.rs:358), so the time spent syncing is not counted and, for the same readings, the model can sync one record earlier than the source. JournalRecovery.FlushAllIntervalSyncs (syncs at least `ms` apart) holds of the source as well.
- The Aeron publications, the subscription and src/aeron_ffi.rs are left out. The store keeps what was offered, and what a poll returns is a parameter.
- `usize` is taken to be 64 bits.
- `Vec::sort_by_key` is given by a reference insertion sort with its three promises proved: sorted, a permutation, and stable. The library's own algorithm is not part of this model.
- JournalRecovery.RecoverOutboundRange: stated only for a store with no index file yet for the stem, and with the data file no longer than `i64::MAX` bytes, so that every offset written can be sought. Over an existing index, the old lines' offsets into the old data are not tracked.
- JournalRecovery.RecoverLastOutboundSeq: stated only for a store with no index file yet for the stem.
- Encoder.EncodeToWriter: write errors of the writer are not modelled. The writer is an in-memory buffer, as in `encode`.
- The `MessageEncoder`, `MessageDecoder` and message structs that build.rs also generates are not modelled. Neither are src/gateway.rs, src/client.rs, src/config.rs, src/messages/mod.rs and the `Session` send methods, which are channel plumbing and placeholders.

## Findings

| source | as written | input that shows it | evidently intended | confidence | as-written member | corrected member |
|---|---|---|---|---|---|---|
| src/protocol.rs:264-265 | `body_start + body_len + 7 - start` and `start + total_len` are computed in usize, which wraps in a release build | the buffer `8=9=18446744073709551584␁`: the end wraps to 0, so an empty frame is extracted and nothing is consumed, and the reader never makes progress | no frame while its end lies beyond the buffer | proved; not executed | Framer.WrapAroundYieldsEmptyFrame | Framer.TryExtractOne |
| build.rs:164 | `into_fix` writes ResetSeqNumFlag(141) and GapFillFlag(123) as "Y"/"N" (build.rs:225, 260), but `try_from` reads them with `parse::<bool>` (build.rs:164, 201), which accepts only "true"/"false" | `SequenceReset { gap_fill_flag: Some(true), new_seq_no: 1 }` reads back with `gap_fill_flag: None` | read FIX booleans "Y"/"N", so that every variant reads back | proved; not executed | Admin.FlagRoundTripFails | Admin.TryFromFixFlagsIntoFix |

Two different sessions can also share one journal. `file_stem` maps both `("A.B", "C")` and `("A_B", "C")` to `A_B__C`, and a `_` on either side of the separator is lost. JournalNames.DistinctSessionsShareAStem states this. It is not listed above because the source may intend it.
