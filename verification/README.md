# WPILOG writer and reader, modelled in Dafny

This project models the core of the `wpilog` Rust crate. The crate writes and
reads WPILOG files, the binary data-log format of the WPILib robotics
libraries.

A WPILOG file starts with a 12-byte header:

- the magic `WPILOG`;
- the version `0x0100`, little-endian;
- a 4-byte length, followed by that many bytes of extra header.

After the header comes a sequence of frames. Each frame is:

- a control byte giving the widths of the next three fields;
- an entry id of 1-4 bytes;
- a payload size of 1-4 bytes;
- a timestamp of 1-8 bytes;
- the payload itself.

Entry id 0 marks a control record (Start, Finish, SetMetadata). Its payload
holds a tag, the 4-byte id of the entry it is about, and length-prefixed
UTF-8 strings.

The modules follow the crate's files:

- `bytes.dfy` (`Bytes`): bytes, little-endian numbers, concatenation of
  frames, and well-formed UTF-8.
- `wrappers.dfy` (`Wrappers`): `Option` and `Result`.
- `lib.dfy` (`Log`): records, control data, the header constants and the
  reader's errors (`src/lib.rs`).
- `writer.dfy` (`Writer`): `encode_int`, `Record::encode`, and the writer.
  The writer covers `new`, `make_entry`, the worker loop and `join`. Its
  entries log with `log_data` (`src/writer.rs`).
  - The worker thread runs sequentially. Its channel is the field `queue`.
  - The output is the byte sequence `sink`.
  - `Valid()` keeps a single invariant: the output holds the header and the
    frames of every record the writer accepted, in send order, and the
    channel holds the frames of the rest.
- `reader.dfy` (`Reader`): `new_raw`, `read_variable_int(_option)`,
  `Iterator::next` and `Record::try_from` (`src/reader.rs`).
  - These are imperative methods over a byte source.
  - Each is proved equal to a specification function over the remaining
    bytes: `ParseHeader`, `NextFrame` and `Interpret`.
- `entrytypes.dfy` (`EntryTypes`): the typed entry constructors, with their
  type names and default metadata. It also has the payload builders of the
  bool, i64, bytes, string, bool[], i64[] and string[] entries
  (`src/entrytypes.rs`).
  - The array builders fill a preallocated `array` with an index loop.
- `roundtrip.dfy` (`RoundTrip`): what the writer emits, the reader reads back.
  - One frame decodes to its record.
  - A stream of frames decodes to its records, and a truncated final frame
    is dropped.
  - The bytes of a joined writer parse as the header followed by every
    record the writer was sent.

Time is a parameter (`now`, `timestamp`) wherever the source asks its
`TimeProvider`. The output writer is a byte sequence that only grows. The
reader's input is a byte sequence with a read position. `read_exact` fails
with `UnexpectedEof` when too few bytes remain.

The source reports errors as `anyhow` messages. The model gives each message
its own constructor of `Log.Error`:

- `InvalidHeader` and `InvalidVersion`;
- `NotEnoughData(field)`, one per "Not enough data for …" message;
- `InvalidUtf8` and `InvalidControlType(tag)`;
- `UnexpectedEof` for a short `read_exact`;
- `ChannelClosed` for a send to a worker that has exited.

## Model

| member | source | states |
|---|---|---|
| Log.HeaderConstants | src/lib.rs:15-16 | The magic is the six bytes of "WPILOG". The version 0x0100 is written little-endian as 0x00 0x01 and reads back as 0x0100. |
| Writer.Thresholds | src/writer.rs:11-17 | `MAX_ONE_BYTE` … `MAX_SEVEN_BYTES` are 256^1 … 256^7. |
| Writer.EncodeInt | src/writer.rs:19-42 | `encode_int` produces 1 to 8 bytes. |
| Writer.EncodeIntWidth | src/writer.rs:19-42 | The encoding width is the least L in 1..8 with n < 256^L: it holds n, and every shorter width is too small. |
| Writer.EncodeIntRoundTrip | src/writer.rs:19-42 | Reading the encoded bytes back as a little-endian number gives n. |
| Writer.EncodeIntOfU32 | src/writer.rs:19-42 | A value below 2^32 (an id, or a size below 4 GiB) encodes in at most 4 bytes. |
| Writer.ControlPayload | src/writer.rs:148-201 | The length of a control payload fits in a u64. |
| Writer.LengthPrefixed | src/entrytypes.rs:226-240 | A length-prefixed string is 4 + \|s\| bytes: the length as a `u32` (the low 32 bits, as `as u32` keeps them), then the string itself. Control payloads (src/writer.rs:150-201) and `string[]` elements share it. |
| Writer.FramePayload | src/writer.rs:139-251 | The length of a frame's payload fits in a u64, so `encode` can write it. |
| Writer.Encode | src/writer.rs:139-251 | A frame is between 4 and 21 bytes longer than its payload: the control byte, then 1-4 id bytes, 1-8 size bytes and 1-8 timestamp bytes. `DataFrameLayout` and `ControlFrameLayout` give the layout. `RecordRoundTrip` proves the reader recovers the record. |
| Writer.BitfieldFields | src/writer.rs:229-234 | The three width fields of the control byte do not overlap. Bits 0-1, 2-3 and 4-6 read back as written, and bit 7 is clear. |
| Writer.ControlByteFields | src/writer.rs:204-234 | A frame's control byte holds the id width minus one (0 for control records), the size width minus one masked to two bits, and the timestamp width minus one. Bit 7 is clear. |
| Writer.DataFrameLayout | src/writer.rs:221-246 | A data frame is the control byte, the id, size and timestamp fields, then the data, with the matching length. |
| Writer.ControlFrameLayout | src/writer.rs:148-220 | A control frame has the single id byte 0. Its payload has at least 5 bytes and opens with the kind's tag and the target id, 4 bytes little-endian. |
| Writer.ControlPayloadShapes | src/writer.rs:148-201 | The Finish, SetMetadata and Start payloads byte for byte, with their lengths 5, 9 + \|m\| and 17 + \|n\| + \|t\| + \|m\|. |
| Writer.SizeBitsDescribeFrame | src/writer.rs:204-209 | Because of the two-bit mask, the size bits give the true size width exactly when the payload is shorter than 2^32 bytes (both directions). |
| Writer.WPILOGWriter.constructor | src/writer.rs:64-93 | `new` writes the 12-byte header and nothing else. The channel starts empty, the worker runs, and the id counter starts at 1. |
| Writer.WPILOGWriter.Send | src/writer.rs:111 | While the worker runs, a send appends the record's frame to the channel and is `Ok`. Once the worker has gone, it is refused and changes nothing. The output is untouched either way. |
| Writer.WPILOGWriter.MakeEntry | src/writer.rs:95-118 | The entry gets the counter's old value, and the counter advances by one modulo 2^32 (`fetch_add`). The Start record with name, type and metadata, stamped `now`, is queued. The output is unchanged. |
| Writer.WPILOGWriter.WorkerStep | src/writer.rs:72-78 | The worker takes the oldest message and appends its frame to the output, keeping `Valid()`. |
| Writer.WPILOGWriter.Join | src/writer.rs:122-130 | After `join`, the channel is empty and the worker has stopped. The output is the header followed by the frames of every accepted record, in send order. |
| Writer.WorkerLoop | src/writer.rs:71-85 | The worker loop writes the frame of every message before `Stop`, in order, after what is already written. |
| Writer.WPILOGEntry.constructor | src/writer.rs:113-117 | The entry keeps its id and its writer's channel. |
| Writer.WPILOGEntry.LogData | src/writer.rs:253-264 | While the worker runs, `log_data` queues the frame of a data record for the entry's id, stamped `now`. Once the worker has gone, it returns `ChannelClosed` and queues nothing. |
| Writer.SinkIsPrefixOfLog | src/writer.rs:71-85 | At every moment the output is a prefix of the header followed by every accepted frame in send order. Nothing is reordered or lost. |
| Writer.IssuedIdsIncrease | src/writer.rs:101 | The ids handed out are 1, 2, 3, …: non-zero and strictly increasing while fewer than 2^32 - 1 entries exist. |
| Writer.FileHeaderBytes | src/writer.rs:67-69 | The header is exactly 57 50 49 4C 4F 47 00 01 00 00 00 00. |
| Reader.Truncate32Small | src/reader.rs:93 | The `as u32` cast leaves values below 2^32 unchanged. |
| Reader.ParseHeader | src/reader.rs:22-52 | An accepted stream has at least 12 bytes and starts with the magic. It is exactly the 12 header bytes, then the extra header, then the rest that is returned. `ParseHeaderOutcomes` gives each error. |
| Reader.ParseHeaderOutcomes | src/reader.rs:22-52 | `new_raw` rejects a wrong magic with InvalidHeader and a wrong version with InvalidVersion. A stream shorter than 12 bytes is an error. On success, the extra header is the L bytes after the length L, and the stream continues right after them. |
| Reader.ParseHeaderOfFields | src/reader.rs:40-46 | A valid magic and version, and a length naming `extra`, give back exactly `extra` and what follows it. |
| Reader.ParseHeaderAccepts | src/reader.rs:22-52 | Any header built from the magic, the version and a length-prefixed extra header is accepted and read back exactly. |
| Reader.FieldWidthsIgnoreBitSeven | src/reader.rs:87-89 | The widths are 1-4, 1-4 and 1-8, and bit 7 of the control byte does not change them. |
| Reader.ReadField | src/reader.rs:65-71 | A successful field read leaves no more bytes than it started with. |
| Reader.ReadFieldOf | src/reader.rs:55-62 | A field is read back as the value of its bytes, whatever follows it. |
| Reader.ReadFieldExtended | src/reader.rs:55-62 | Bytes appended after a field that can be read do not change how it reads. |
| Reader.ReadFieldConsumes | src/reader.rs:55-62 | A field read at an offset is the little-endian value of the next w bytes, and reading resumes after them. |
| Reader.NextFrame | src/reader.rs:77-113 | Every frame read consumes at least one byte, so the iterator terminates. |
| Reader.FrameAfter | src/reader.rs:93-106 | The reads after the control byte never produce more bytes than they were given. |
| Reader.FrameAfterConsumes | src/reader.rs:93-106 | A frame read after the control byte consumes exactly the three fields and the payload. The id is the first field truncated to 32 bits. The payload length is the size field. |
| Reader.NextFrameConsumes | src/reader.rs:77-113 | A frame read consumes exactly the control byte, the three announced fields and a payload as long as the size field. Its id needs no truncation. |
| Reader.NextFrameOfParts | src/reader.rs:77-113 | Conversely, a control byte whose widths match the fields after it, and a payload of the stated size, read back field for field. The bytes after the payload are left unread. |
| Reader.FrameAfterExtended | src/reader.rs:93-106 | Bytes after a complete frame body do not change how it reads. |
| Reader.NextFrameExtended | src/reader.rs:77-113 | Bytes after a complete frame do not change how it reads. |
| Reader.NextFrameOfCut | src/reader.rs:101-106 | A stream holding exactly one frame reads as nothing once it is cut short anywhere. |
| Reader.ReadFrames | src/reader.rs:77-113 | The iterator yields at most as many frames as there are bytes, because every frame consumes at least one byte. |
| Reader.ReadFramesOfParts | src/reader.rs:77-113 | Frames laid back to back, each of which reads as its record whatever follows, are read in order. A tail with no complete frame is dropped. |
| Reader.U32AtOfLittleEndian | src/reader.rs:142-147 | `u32::from_le_bytes` inverts a 4-byte little-endian encoding. |
| Reader.StringAt | src/reader.rs:152-175 | A string read from a control payload is well-formed UTF-8. It starts after its 4-byte length and ends within the payload. |
| Reader.StringAtOutcomes | src/reader.rs:152-175 | Every outcome of a string read. Each error has its own condition, checked in order: the 4-byte length cut short is `NotEnoughData(length field)`, the string cut short is `NotEnoughData(field)`, and bytes that are not UTF-8 are `InvalidUtf8`. The read succeeds exactly when none of these holds. It then returns the `length` bytes after the length field, with the cursor moved past them. |
| Reader.StringAtOfFields | src/reader.rs:152-175 | A length field that matches the well-formed UTF-8 after it reads back as that string, with the cursor moved past it. |
| Reader.StringAtOfSuffix | src/reader.rs:152-175 | A 4-byte length followed by that many bytes of UTF-8 reads back as that string, and reading continues with what follows. |
| Reader.StringAtExtended | src/reader.rs:152-175 | Bytes after the payload do not change a string read that succeeds. |
| Reader.ControlAtOutcomes | src/reader.rs:150-261 | Every outcome of reading control data. Tag 1 is Finish with nothing more read. A tag above 2 is `InvalidControlType(tag)`. Tag 2 reads the metadata string. Tag 0 reads name, type and metadata in that order. Either the first string that fails gives the error, or the strings read make up the result. |
| Reader.ControlAtKinds | src/reader.rs:150-261 | Control data that is read has the kind its tag names (0 Start, 1 Finish, 2 SetMetadata), and all its strings are UTF-8. |
| Reader.ControlAtExtended | src/reader.rs:150-261 | Bytes after the payload do not change the control data that a successful read produces. |
| Reader.Interpret | src/reader.rs:126-275 | On success the timestamp is kept and every string is UTF-8. The record is Data exactly when the frame id is non-zero. For a control record, the payload has at least 5 bytes, its tag is at most 2, and the record's id is the payload's 4-byte target. |
| Reader.InterpretIgnoresTrailingBytes | src/reader.rs:150-267 | Trailing bytes after the last field of a control payload are ignored. |
| Reader.InterpretRejects | src/reader.rs:126-260 | All the errors of a control frame, in order of precedence. First an empty payload (missing tag), then fewer than 5 bytes (missing entry id), then a tag above 2 (invalid control type). After that, for a Start payload, the error of the first of the name, type and metadata strings that fails to read. For a SetMetadata payload, the error of its metadata string. `StringAtOutcomes` gives the condition for each string error. |
| Reader.ByteSource.ReadExact | src/reader.rs:59 | `read_exact` yields exactly n bytes and moves past them. When fewer remain, it returns `UnexpectedEof`. |
| Reader.WPILOGReader.constructor | src/reader.rs:48-51 | The reader keeps its byte source and its extra header. |
| Reader.WPILOGReader.NewRaw | src/reader.rs:22-52 | `new_raw` fails with the error `ParseHeader` gives. On success it keeps exactly the extra header `ParseHeader` finds and leaves the source right after it. |
| Reader.WPILOGReader.ReadVariableInt | src/reader.rs:55-62 | Reads the next `length` bytes as a zero-extended little-endian u64 and moves past them. Fails when fewer remain. |
| Reader.WPILOGReader.ReadVariableIntOption | src/reader.rs:65-71 | The same read, with any failure turned into `None`. |
| Reader.WPILOGReader.Next | src/reader.rs:77-113 | `next` yields exactly the frame `NextFrame` finds and leaves the source at the bytes after it. When the bytes fall short it yields `None`, and the source is exhausted. |
| Reader.ReadString | src/reader.rs:152-175 | The bounds checks, the length read, the UTF-8 check and the cursor move give exactly `StringAt`. |
| Reader.TryFrom | src/reader.rs:126-275 | `try_from`, walking a cursor over the payload, returns exactly `Interpret` of the frame: the same record or the same error. |
| RoundTrip.FrameFields | src/writer.rs:204-246 | A well-formed record's control byte announces the widths of the id, size and timestamp fields that `encode` writes after it. |
| RoundTrip.FrameRoundTrip | src/writer.rs:139-251 | `next` reads a well-formed record's frame back as its fields and leaves whatever follows unread. |
| RoundTrip.StartPayloadReads | src/reader.rs:151-231 | A Start payload of length-prefixed UTF-8 strings reads back as Start with those three strings. |
| RoundTrip.SetMetadataPayloadReads | src/reader.rs:233-259 | A SetMetadata payload reads back as SetMetadata with its string. |
| RoundTrip.ControlRoundTrip | src/writer.rs:148-201 | Every control payload `encode` writes with UTF-8 strings reads back as the same control data and target id. |
| RoundTrip.InterpretRoundTrip | src/reader.rs:126-275 | `try_from` turns the fields of a well-formed record's frame back into the record. |
| RoundTrip.RecordRoundTrip | src/writer.rs:139-251 | A lone frame decodes, with nothing left over, to exactly the record it was encoded from. |
| RoundTrip.StreamRoundTrip | src/reader.rs:77-113 | A stream of well-formed frames reads as the records' fields in order. A tail with no complete frame is dropped. |
| RoundTrip.TruncatedFrameReadsAsNothing | src/reader.rs:101-106 | A frame cut short anywhere yields no record. |
| RoundTrip.InterpretAll | src/reader.rs:126-275 | Every frame of such a stream is interpreted as the record that was written. |
| RoundTrip.FileHeaderParses | src/writer.rs:67-69 | `new_raw` accepts the header `new` writes, with an empty extra header. |
| RoundTrip.JoinedWriterBytes | src/writer.rs:122-130 | A joined writer's output is the header followed by every accepted frame. |
| RoundTrip.JoinedWriterReadsBack | src/writer.rs:64-130 | A joined writer's output, plus any tail without a complete frame, parses as the header. It then reads back as every record sent, in order and unchanged. |
| EntryTypes.TypeNamesAreAscii | src/entrytypes.rs:26-40 | Every type name is ASCII. |
| EntryTypes.TypeName | src/entrytypes.rs:26-40 | The type name's bytes are well-formed UTF-8, at most 9 bytes long. |
| EntryTypes.TypeNamesDistinct | src/entrytypes.rs:26-40 | Two entry kinds have the same type name exactly when they are the same kind, so a reader can tell every type apart. |
| EntryTypes.MetadataOrDefault | src/entrytypes.rs:20 | Missing metadata becomes the empty string, and given metadata is kept. |
| EntryTypes.NewEntry | src/entrytypes.rs:11-24 | `new_*_entry` makes an entry whose queued Start record carries the kind's type name and the metadata, or "" without one. |
| EntryTypes.BoolPayload | src/entrytypes.rs:79-86 | A boolean is one byte: 1 for true, 0 for false. |
| EntryTypes.TwosComplement | src/entrytypes.rs:63-66 | The u64 bit pattern of an i64 is the value itself when non-negative, and 2^64 plus it when negative. |
| EntryTypes.I64Payload | src/entrytypes.rs:63-66 | `to_le_bytes` of an i64 is 8 bytes. |
| EntryTypes.I64RoundTrip | src/entrytypes.rs:63-66 | Every i64 reads back from its 8 bytes. |
| EntryTypes.BoolArrayLayout | src/entrytypes.rs:112-125 | The boolean[] payload is one byte per element, each that element's boolean byte. |
| EntryTypes.BoolArrayRoundTrip | src/entrytypes.rs:112-125 | Reading each byte of a boolean[] payload as non-zero gives back the array. |
| EntryTypes.BoolArrayPayload | src/entrytypes.rs:112-125 | The fill loop over the zeroed buffer yields exactly the boolean[] payload. |
| EntryTypes.I64Low | src/entrytypes.rs:137-145 | Each int64[] element is written as 4 bytes. |
| EntryTypes.I64LowValue | src/entrytypes.rs:137-145 | The four bytes kept hold the element's two's-complement pattern modulo 2^32. |
| EntryTypes.I64ArrayLayout | src/entrytypes.rs:127-150 | The int64[] payload is 4·n bytes, and group i reads back as element i modulo 2^32. |
| EntryTypes.I64ArrayDropsHighHalf | src/entrytypes.rs:132-146 | 2^32 and 0 are written identically, as 00 00 00 00. |
| EntryTypes.I64ArrayPayload | src/entrytypes.rs:127-150 | The loop over the zeroed 4·n buffer yields exactly the int64[] payload. |
| EntryTypes.StringArrayLength | src/entrytypes.rs:215 | The string[] payload has 4 + 4·n + Σ\|sᵢ\| bytes, the size of the buffer the source allocates. |
| EntryTypes.ParseStrings | src/entrytypes.rs:224-241 | The reader's inverse of the element loop yields exactly `count` strings when it succeeds. |
| EntryTypes.ParseStringsOfConcat | src/entrytypes.rs:224-241 | The concatenated elements read back as the strings, whatever follows them. |
| EntryTypes.StringArrayRoundTrip | src/entrytypes.rs:210-245 | A string[] payload of fewer than 2^32 strings, each shorter than 2^32 bytes, reads back as the array. |
| EntryTypes.StringArrayPayload | src/entrytypes.rs:210-245 | The count and element loop over the zeroed buffer yield exactly the string[] payload. |
| EntryTypes.WriteElements | src/entrytypes.rs:224-241 | The element loop writes every element's encoding, in order, from the start index. The buffer after the last byte written keeps its old contents. |
| EntryTypes.WriteElement | src/entrytypes.rs:226-240 | One iteration writes the element's length and bytes at the write index and leaves the rest of the buffer unchanged. |
| EntryTypes.WriteBytes | src/entrytypes.rs:236-240 | The inner loop copies the string's bytes at the write index. |
| EntryTypes.WriteFour | src/entrytypes.rs:226-234 | Four single-byte writes put the first four bytes at the write index and advance it by four. |
| EntryTypes.WriteLength | src/entrytypes.rs:218-222 | `(n as u32).to_le_bytes()` is written at the index as n's 4-byte little-endian encoding. |
| EntryTypes.Payload | src/entrytypes.rs:56-245 | The payload of each modelled entry type. Bytes and strings pass through unchanged. A boolean is one byte, 1 exactly when true. An i64 is 8 bytes that read back as the value. A boolean[] has one byte per element, an int64[] four bytes per element, and a string[] 4 + 4·n + Σ\|sᵢ\| bytes. |
| EntryTypes.UpdateWithTimestamp | src/entrytypes.rs:56-245 | `update_with_timestamp` of each modelled type queues the frame of a data record carrying that type's payload, stamped `timestamp`. After the worker has gone it queues nothing and returns `ChannelClosed`. |

## Left out

- Threads, the `kanal` channel and the `JoinHandle` are not modelled. The worker is run sequentially, so atomicity and interleavings are not covered.
- Panics from `unwrap`, `expect` and failing `write_all`/`flush` are not modelled. Neither is the `Err` that `join` returns when the worker thread panics. The writer's output never fails.
- The `dbg!` output of the worker is not modelled; it goes to standard error.
- `new_buffered` is not modelled; it only wraps the reader in a buffer.
- `float`, `double`, `float[]` and `double[]` entries are not modelled: floating point is out of scope. Only their type names appear, in `EntryKind`.
- `TimeProvider` and its `get_time` are not modelled. Every time reading is a parameter.
- `update` is not modelled separately. It is `update_with_timestamp` at the time source's reading, which is `EntryTypes.UpdateWithTimestamp` called with that reading.
- `log_data_with_timestamp` and `RawEntry` are called by `src/entrytypes.rs` but are not part of the writer source. `Writer.WPILOGEntry.LogData` takes the timestamp as a parameter and stands in for both.
- `set_metadata` and writing `Finish` when an entry is dropped do not exist in the source. Neither is modelled.
- Writer.WPILOGWriter.MakeEntry: requires a running worker. `make_entry` takes `&self`, and `join` consumes the writer, so a failed send cannot happen there.
- Reader.ByteSource.ReadExact: a short read consumes all remaining bytes. `read_exact` leaves the position unspecified after `UnexpectedEof`. Every caller gives up at that point, so the choice is not observable.
- Reader.WPILOGReader.NewRaw: does not model `usize::try_from` of the extra header's length failing. That cannot happen on the 32-bit and 64-bit targets the code is written for.
- RoundTrip.RecordRoundTrip: requires `WellFormed`. A payload of 2^32 bytes or more gets a size width of 5-8, but the two size bits keep only its low two bits. Such a frame does not read back; `Writer.SizeBitsDescribeFrame` states exactly when that happens.
- RoundTrip.RecordRoundTrip: requires a data record's id to be non-zero. After 2^32 - 1 entries the id counter wraps to 0. An entry with id 0 is read back as a control record.
- EntryTypes.StringArrayPayload: does not model the `usize` overflow of the buffer-size sum. Integers are unbounded here.
- EntryTypes.I64ArrayPayload: models the code as written. Each element keeps only the low 4 of its 8 little-endian bytes, so the payload is 4·n bytes. The WPILOG format describes `int64[]` elements as 8 bytes each. `EntryTypes.I64ArrayDropsHighHalf` shows two distinct arrays with the same payload.
- Strings are sequences of bytes. `ValidUtf8` is the well-formed UTF-8 of Table 3-7 of the Unicode Standard, which is what `str::from_utf8` accepts. Decoding into characters is not modelled.
- The reader's errors are constructors of `Log.Error` rather than `anyhow` message strings.
