/**
 * The writing side: the variable-width integer encoding, the frame encoder
 * (`Record::encode`) and the writer's bookkeeping (id counter, channel to the
 * worker, output sink), run sequentially.
 */
module Writer {
  import opened Wrappers
  import opened Bytes
  import opened Log

  // ---------------------------------------------------------------------------
  // Variable-width integers (`encode_int`)
  // ---------------------------------------------------------------------------

  /** `MAX_ONE_BYTE` … `MAX_SEVEN_BYTES`: the exclusive upper bounds of the match's ranges. */
  const MaxOneByte: nat := 0x100
  const MaxTwoBytes: nat := 0x1_0000
  const MaxThreeBytes: nat := 0x100_0000
  const MaxFourBytes: nat := 0x1_0000_0000
  const MaxFiveBytes: nat := 0x100_0000_0000
  const MaxSixBytes: nat := 0x1_0000_0000_0000
  const MaxSevenBytes: nat := 0x100_0000_0000_0000

  /** The thresholds are the powers 256^1 … 256^7. */
  lemma Thresholds()
    ensures MaxOneByte == Pow256(1) && MaxTwoBytes == Pow256(2) && MaxThreeBytes == Pow256(3)
    ensures MaxFourBytes == Pow256(4) && MaxFiveBytes == Pow256(5) && MaxSixBytes == Pow256(6)
    ensures MaxSevenBytes == Pow256(7) && Pow256(8) == 0x1_0000_0000_0000_0000
  {
  }

  /** The width the range match of `encode_int` selects; everything from 256^7 on takes all 8 bytes. */
  function EncodedWidth(n: U64): nat
  {
    if n < MaxOneByte then 1
    else if n < MaxTwoBytes then 2
    else if n < MaxThreeBytes then 3
    else if n < MaxFourBytes then 4
    else if n < MaxFiveBytes then 5
    else if n < MaxSixBytes then 6
    else if n < MaxSevenBytes then 7
    else 8
  }

  /**
   * `encode_int`: the low bytes of `n`, little-endian, as many as the range
   * match selects. The width is the least L in 1..8 with n < 256^L.
   */
  function EncodeInt(n: U64): (r: seq<Byte>)
    ensures 1 <= |r| <= 8
  {
    LittleEndian(n, EncodedWidth(n))
  }

  /**
   * The width is the least L in 1..8 with n < 256^L: the encoding holds `n`,
   * and no shorter width could.
   */
  lemma EncodeIntWidth(n: U64)
    ensures n < Pow256(|EncodeInt(n)|)
    ensures forall width: nat | 1 <= width < |EncodeInt(n)| :: Pow256(width) <= n
  {
    var w := |EncodeInt(n)|;
    Thresholds();
    assert w == 1 || Pow256(w - 1) <= n;
    forall width: nat | 1 <= width < w
      ensures Pow256(width) <= n
    {
      Pow256Monotonic(width, w - 1);
    }
  }

  /** Reading the encoding back as a little-endian number gives `n`. */
  lemma EncodeIntRoundTrip(n: U64)
    ensures FromLittleEndian(EncodeInt(n)) == n
  {
    EncodeIntWidth(n);
    LittleEndianExact(n, |EncodeInt(n)|);
  }

  /** Values that fit in 32 bits (entry ids, sizes below 4 GiB) take at most 4 bytes. */
  lemma EncodeIntOfU32(n: U64)
    requires n < 0x1_0000_0000
    ensures |EncodeInt(n)| <= 4
  {
    EncodeIntWidth(n);
  }

  // ---------------------------------------------------------------------------
  // Frames (`Record::encode`)
  // ---------------------------------------------------------------------------

  /** Every string of a control record has a length that fits the 32-bit length field. */
  predicate ControlFits(c: ControlData) {
    match c
    case Start(name, typeName, metadata) =>
      |name| < 0x1_0000_0000 && |typeName| < 0x1_0000_0000 && |metadata| < 0x1_0000_0000
    case Finish => true
    case SetMetadata(metadata) => |metadata| < 0x1_0000_0000
  }

  /**
   * What `encode` needs of a record: string lengths convertible to `u32` (the
   * `try_into().expect` calls) and a payload length that is a `u64`.
   */
  predicate Encodable(r: Record) {
    match r.info
    case Control(c) => ControlFits(c)
    case Data(data) => |data| < 0x1_0000_0000_0000_0000
  }

  /**
   * A length-prefixed string, as control payloads and `string[]` payloads
   * carry it: the length as a `u32`, 4 bytes little-endian, then the bytes.
   * `LittleEndian` keeps the low 32 bits, as the `as u32` cast does.
   */
  function LengthPrefixed(s: seq<Byte>): (r: seq<Byte>)
    ensures |r| == 4 + |s| && r[4..] == s
  {
    LittleEndian(|s|, 4) + s
  }

  /** The payload of a control frame: tag, 4-byte target id, then the kind's strings. */
  function ControlPayload(target: U32, c: ControlData): (r: seq<Byte>)
    requires ControlFits(c)
    ensures |r| < 0x1_0000_0000_0000_0000
  {
    match c
    case Start(name, typeName, metadata) =>
      [0] + LittleEndian(target, 4) + LengthPrefixed(name) + LengthPrefixed(typeName) + LengthPrefixed(metadata)
    case Finish =>
      [1] + LittleEndian(target, 4)
    case SetMetadata(metadata) =>
      [2] + LittleEndian(target, 4) + LengthPrefixed(metadata)
  }

  /** The bytes that follow a frame's header fields. */
  function FramePayload(r: Record): (p: seq<Byte>)
    requires Encodable(r)
    ensures |p| < 0x1_0000_0000_0000_0000
  {
    match r.info
    case Control(c) => ControlPayload(r.id, c)
    case Data(data) => data
  }

  /**
   * The control byte: each width minus one, masked to its field, in bits 0-1
   * (id), 2-3 (size) and 4-6 (timestamp). The fields do not overlap, so the
   * source's `|` of shifted values is their sum.
   */
  function Bitfield(idWidth: nat, sizeWidth: nat, timestampWidth: nat): Byte
    requires 1 <= idWidth <= 8 && 1 <= sizeWidth <= 8 && 1 <= timestampWidth <= 8
  {
    (idWidth - 1) % 4 + 4 * ((sizeWidth - 1) % 4) + 16 * ((timestampWidth - 1) % 8)
  }

  /**
   * The three fields of a control byte read back as written: bits 0-1, 2-3 and
   * 4-6 hold the masked widths minus one, and bit 7 is clear.
   */
  lemma BitfieldFields(idBits: nat, sizeBits: nat, timestampBits: nat)
    requires idBits < 4 && sizeBits < 4 && timestampBits < 8
    ensures var b := idBits + 4 * sizeBits + 16 * timestampBits;
      && b % 4 == idBits && (b / 4) % 4 == sizeBits && (b / 16) % 8 == timestampBits && b < 128
  {
    var b := idBits + 4 * sizeBits + 16 * timestampBits;
    DivModUnique(b, 4, sizeBits + 4 * timestampBits, idBits);
    DivModUnique(b / 4, 4, timestampBits, sizeBits);
    DivModUnique(b, 16, timestampBits, idBits + 4 * sizeBits);
  }

  /**
   * `Record::encode`. A control record is written with no id bits and the
   * single id byte 0; its target id travels in the payload.
   */
  function Encode(r: Record): (frame: seq<Byte>)
    requires Encodable(r)
    ensures 4 + |FramePayload(r)| <= |frame| <= 21 + |FramePayload(r)|
  {
    var timestampData := EncodeInt(r.timestamp);
    match r.info
    case Control(c) =>
      var data := ControlPayload(r.id, c);
      var sizeData := EncodeInt(|data|);
      var bitfield := 4 * ((|sizeData| - 1) % 4) + 16 * ((|timestampData| - 1) % 8);
      [bitfield] + [0] + sizeData + timestampData + data
    case Data(data) =>
      var idData := EncodeInt(r.id);
      var sizeData := EncodeInt(|data|);
      [Bitfield(|idData|, |sizeData|, |timestampData|)] + idData + sizeData + timestampData + data
  }

  /** The frame of each record, in order. */
  function Frames(records: seq<Record>): (frames: seq<seq<Byte>>)
    requires forall r | r in records :: Encodable(r)
  {
    seq(|records|, i requires 0 <= i < |records| => Encode(records[i]))
  }

  /**
   * The control byte of every frame: bits 0-1 hold the id width minus one
   * (0 for a control frame), bits 2-3 the size width minus one masked to two
   * bits, bits 4-6 the timestamp width minus one, and bit 7 is clear.
   */
  lemma ControlByteFields(r: Record)
    requires Encodable(r)
    ensures var b, sizeData, timestampData := Encode(r)[0], EncodeInt(|FramePayload(r)|), EncodeInt(r.timestamp);
      && b % 4 == (if r.info.Data? then |EncodeInt(r.id)| - 1 else 0)
      && (b / 4) % 4 == (|sizeData| - 1) % 4
      && (b / 16) % 8 == |timestampData| - 1
      && b < 128
  {
    var sizeBits, timestampBits := (|EncodeInt(|FramePayload(r)|)| - 1) % 4, |EncodeInt(r.timestamp)| - 1;
    var idBits := if r.info.Data? then |EncodeInt(r.id)| - 1 else 0;
    if r.info.Data? {
      EncodeIntOfU32(r.id);
    }
    ControlByteIs(r, idBits, sizeBits, timestampBits);
    BitfieldFields(idBits, sizeBits, timestampBits);
  }

  lemma ControlByteIs(r: Record, idBits: nat, sizeBits: nat, timestampBits: nat)
    requires Encodable(r)
    requires idBits == (if r.info.Data? then |EncodeInt(r.id)| - 1 else 0) && idBits < 4
    requires sizeBits == (|EncodeInt(|FramePayload(r)|)| - 1) % 4 && timestampBits == |EncodeInt(r.timestamp)| - 1
    ensures Encode(r)[0] == idBits + 4 * sizeBits + 16 * timestampBits
  {
    var timestampData := EncodeInt(r.timestamp);
    match r.info
    case Control(c) =>
      var sizeData := EncodeInt(|ControlPayload(r.id, c)|);
      assert Encode(r)[0] == 4 * ((|sizeData| - 1) % 4) + 16 * ((|timestampData| - 1) % 8);
    case Data(data) =>
      var idData, sizeData := EncodeInt(r.id), EncodeInt(|data|);
      assert Encode(r)[0] == Bitfield(|idData|, |sizeData|, |timestampData|);
  }

  /**
   * A data frame is the control byte, then the id, size and timestamp fields,
   * then the payload.
   */
  lemma DataFrameLayout(r: Record)
    requires Encodable(r) && r.info.Data?
    ensures var idData, sizeData, timestampData := EncodeInt(r.id), EncodeInt(|r.info.data|), EncodeInt(r.timestamp);
      var frame := Encode(r);
      && frame == [frame[0]] + idData + sizeData + timestampData + r.info.data
      && |frame| == 1 + |idData| + |sizeData| + |timestampData| + |r.info.data|
  {
  }

  /**
   * A control frame has the id byte 0; its payload opens with the kind's tag
   * and the target id, 4 bytes little-endian.
   */
  lemma ControlFrameLayout(r: Record)
    requires Encodable(r) && r.info.Control?
    ensures var payload, sizeData, timestampData := FramePayload(r), EncodeInt(|FramePayload(r)|), EncodeInt(r.timestamp);
      var frame := Encode(r);
      && frame == [frame[0]] + [0] + sizeData + timestampData + payload
      && |payload| >= 5
      && payload[0] == ControlTag(r.info.control)
      && FromLittleEndian(payload[1..5]) == r.id
  {
    var payload := FramePayload(r);
    assert payload[1..5] == LittleEndian(r.id, 4);
    LittleEndian32Exact(r.id);
  }

  /**
   * The control payloads byte for byte: a Finish payload is exactly the tag and
   * the target id; Start and SetMetadata append their length-prefixed strings.
   */
  lemma ControlPayloadShapes(target: U32, c: ControlData)
    requires ControlFits(c)
    ensures var p := ControlPayload(target, c);
      match c
      case Finish => p == [1] + LittleEndian(target, 4) && |p| == 5
      case SetMetadata(m) => p == [2] + LittleEndian(target, 4) + LittleEndian(|m|, 4) + m && |p| == 9 + |m|
      case Start(n, t, m) =>
        p == [0] + LittleEndian(target, 4) + LittleEndian(|n|, 4) + n + LittleEndian(|t|, 4) + t + LittleEndian(|m|, 4) + m
        && |p| == 17 + |n| + |t| + |m|
  {
  }

  /**
   * The two-bit mask on the size width: the control byte names the size width
   * correctly exactly when the payload is shorter than 256^4 bytes.
   */
  lemma SizeBitsDescribeFrame(r: Record)
    requires Encodable(r)
    ensures var sizeData := EncodeInt(|FramePayload(r)|);
      ((Encode(r)[0] / 4) % 4 + 1 == |sizeData|) <==> |FramePayload(r)| < 0x1_0000_0000
  {
    var n := |FramePayload(r)|;
    var k := |EncodeInt(n)|;
    ControlByteFields(r);
    if n < 0x1_0000_0000 {
      EncodeIntOfU32(n);
      assert (k - 1) % 4 == k - 1;
    } else {
      EncodeIntWidth(n);
      assert Pow256(4) == 0x1_0000_0000;
      assert 4 < k <= 8;
      assert (k - 1) % 4 == k - 5;
    }
  }

  // ---------------------------------------------------------------------------
  // The writer (`WPILOGWriter`) and its entries (`WPILOGEntry`)
  // ---------------------------------------------------------------------------

  /** The twelve bytes `new` writes before any frame: magic, version, empty extra header. */
  const FileHeader: seq<Byte> := HeaderString + LittleEndian(HeaderVersion, 2) + [0, 0, 0, 0]

  /** A message on the channel to the worker (`RecvState`). */
  datatype Message = Msg(frame: seq<Byte>) | Stop

  /**
   * The writer. The worker thread and the channel are run sequentially: the
   * channel is `queue`, what the worker has written is `sink`, and the worker
   * takes messages with `WorkerStep` or, on `Join`, until it meets `Stop`.
   */
  class WPILOGWriter {
    /** The `AtomicU32` counter: the id the next `MakeEntry` hands out. */
    var id: U32
    /** Messages on the channel not yet taken by the worker, oldest first. */
    var queue: seq<Message>
    /** The bytes the output has received. */
    var sink: seq<Byte>
    /** False once the worker has taken `Stop` and dropped the receiving end. */
    var running: bool
    /** The frame of every message the channel accepted, in send order. */
    ghost var frames: seq<seq<Byte>>
    /** How many of the records in `log` the worker has written. */
    ghost var written: nat
    /** The ids `MakeEntry` handed out, in order. */
    ghost var issued: seq<U32>

    /**
     * The channel holds the frames of the newest `|queue|` records, the output
     * holds the header and the frames of all earlier ones, and the counter is 1
     * plus the number of ids handed out, modulo 2^32.
     */
    ghost predicate Valid()
      reads this
    {
      && written + |queue| == |frames|
      && (forall i | 0 <= i < |queue| :: queue[i] == Msg(frames[written + i]))
      && sink == FileHeader + Flatten(frames[..written])
      && (!running ==> queue == [])
      && id == (1 + |issued|) % 0x1_0000_0000
      && (forall k | 0 <= k < |issued| :: issued[k] == (1 + k) % 0x1_0000_0000)
    }

    /** `WPILOGWriter::new`: write the file header, start the worker, counter at 1. */
    constructor ()
      ensures Valid() && running
      ensures sink == FileHeader && queue == [] && frames == [] && id == 1 && issued == []
    {
      sink := [];
      sink := sink + HeaderString;
      sink := sink + LittleEndian(HeaderVersion, 2);
      sink := sink + [0, 0, 0, 0];
      queue := [];
      running := true;
      id := 1;
      frames := [];
      written := 0;
      issued := [];
    }

    /** `channel.send(RecvState::Msg(record.encode()))`: refused once the worker is gone. */
    method Send(record: Record) returns (r: Result<(), Error>)
      requires Valid() && Encodable(record)
      modifies this
      ensures Valid()
      ensures running == old(running) && sink == old(sink) && id == old(id) && issued == old(issued)
      ensures old(running) ==> r == Ok(()) && frames == old(frames) + [Encode(record)] && queue == old(queue) + [Msg(Encode(record))]
      ensures !old(running) ==> r == Err(ChannelClosed) && frames == old(frames) && queue == old(queue)
    {
      if !running {
        return Err(ChannelClosed);
      }
      queue := queue + [Msg(Encode(record))];
      frames := frames + [Encode(record)];
      assert frames[..written] == old(frames)[..written];
      r := Ok(());
    }

    /**
     * `make_entry`: take the next id (the counter wraps at 2^32, as
     * `fetch_add` does), send the entry's Start record and hand out the entry.
     */
    method MakeEntry(name: seq<Byte>, typeName: seq<Byte>, metadata: seq<Byte>, now: U64)
      returns (entry: WPILOGEntry)
      requires Valid() && running
      requires |name| < 0x1_0000_0000 && |typeName| < 0x1_0000_0000 && |metadata| < 0x1_0000_0000
      modifies this
      ensures Valid() && running && sink == old(sink)
      ensures fresh(entry) && entry.writer == this && entry.id == old(id)
      ensures id == (old(id) + 1) % 0x1_0000_0000 && issued == old(issued) + [entry.id]
      ensures frames == old(frames) + [Encode(Record(entry.id, now, Control(Start(name, typeName, metadata))))]
      ensures queue == old(queue) + [Msg(Encode(Record(entry.id, now, Control(Start(name, typeName, metadata)))))]
    {
      var newId := id;
      id := (id + 1) % 0x1_0000_0000;
      SuccessorModulo(|issued| + 1);
      issued := issued + [newId];
      var record := Record(newId, now, Control(Start(name, typeName, metadata)));
      var sent := Send(record);
      entry := new WPILOGEntry(newId, this);
    }

    /** The worker takes the oldest message off the channel and writes its frame. */
    method WorkerStep()
      requires Valid() && queue != []
      modifies this
      ensures Valid()
      ensures sink == old(sink) + old(queue[0]).frame && queue == old(queue[1..])
      ensures frames == old(frames) && running == old(running) && id == old(id) && issued == old(issued)
    {
      FlattenStep(frames, written);
      sink := sink + queue[0].frame;
      queue := queue[1..];
      written := written + 1;
    }

    /**
     * `join`: send `Stop`, let the worker write every earlier message in order
     * until it takes `Stop`, flush and exit.
     */
    method Join()
      requires Valid() && running
      modifies this
      ensures Valid() && !running && queue == []
      ensures frames == old(frames) && id == old(id) && issued == old(issued)
      ensures sink == FileHeader + Flatten(frames)
    {
      queue := queue + [Stop];
      var out := WorkerLoop(queue, sink, FileHeader, frames, written);
      // `Stop`: flush, leave the loop and drop the receiving end of the channel.
      sink, queue, written, running := out, [], |frames|, false;
      assert frames[..written] == frames;
    }
  }

  /**
   * The worker's loop: write the frame of each message, in order, until it
   * takes `Stop`. The `n` frames before the channel's first message are
   * already in `out`, after `header`.
   */
  method WorkerLoop(channel: seq<Message>, out: seq<Byte>, ghost header: seq<Byte>, ghost frames: seq<seq<Byte>>, ghost n: nat)
    returns (written: seq<Byte>)
    requires channel != [] && channel[|channel| - 1] == Stop && n + |channel| == |frames| + 1
    requires forall i | 0 <= i < |channel| - 1 :: channel[i] == Msg(frames[n + i])
    requires out == header + Flatten(frames[..n])
    ensures written == header + Flatten(frames)
  {
    var pending, k := channel, n;
    written := out;
    while pending[0] != Stop
      invariant |pending| >= 1 && pending[|pending| - 1] == Stop && k + |pending| - 1 == |frames|
      invariant forall i | 0 <= i < |pending| - 1 :: pending[i] == Msg(frames[k + i])
      invariant written == header + Flatten(frames[..k])
      decreases |pending|
    {
      FlattenStep(frames, k);
      written := written + pending[0].frame;
      pending := pending[1..];
      k := k + 1;
    }
    assert frames[..k] == frames;
  }

  /** A handle on one entry: its id and the channel of the writer that made it. */
  class WPILOGEntry {
    const id: U32
    const writer: WPILOGWriter

    constructor (id: U32, writer: WPILOGWriter)
      ensures this.id == id && this.writer == writer
    {
      this.id := id;
      this.writer := writer;
    }

    /**
     * `log_data`: send a data record for this entry stamped `now` (the time
     * source's reading); refused with nothing written once the worker is gone.
     */
    method LogData(data: seq<Byte>, now: U64) returns (r: Result<(), Error>)
      requires writer.Valid() && |data| < 0x1_0000_0000_0000_0000
      modifies writer
      ensures writer.Valid()
      ensures writer.running == old(writer.running) && writer.sink == old(writer.sink)
      ensures writer.id == old(writer.id) && writer.issued == old(writer.issued)
      ensures old(writer.running) ==>
                r == Ok(())
                && writer.frames == old(writer.frames) + [Encode(Record(id, now, Data(data)))]
                && writer.queue == old(writer.queue) + [Msg(Encode(Record(id, now, Data(data))))]
      ensures !old(writer.running) ==>
                r == Err(ChannelClosed) && writer.frames == old(writer.frames) && writer.queue == old(writer.queue)
    {
      var record := Record(id, now, Data(data));
      r := writer.Send(record);
    }
  }

  /** Incrementing a 32-bit wrapped counter is incrementing before wrapping. */
  lemma SuccessorModulo(n: nat)
    ensures (n % 0x1_0000_0000 + 1) % 0x1_0000_0000 == (n + 1) % 0x1_0000_0000
  {
  }

  /** One more frame written: the flattened prefix grows by that frame. */
  lemma FlattenStep(frames: seq<seq<Byte>>, n: nat)
    requires n < |frames|
    ensures Flatten(frames[..n + 1]) == Flatten(frames[..n]) + frames[n]
  {
    FlattenAppend(frames[..n], frames[n]);
    assert frames[..n + 1] == frames[..n] + [frames[n]];
  }

  /**
   * At every moment the output is a prefix of the header followed by the
   * frames of all accepted records in send order: nothing is reordered or lost.
   */
  lemma SinkIsPrefixOfLog(w: WPILOGWriter)
    requires w.Valid()
    ensures w.sink <= FileHeader + Flatten(w.frames)
  {
    FlattenPrefix(w.frames, w.written);
  }

  /**
   * The ids handed out are 1, 2, 3, … : strictly increasing and never 0 as
   * long as fewer than 2^32 - 1 entries have been made.
   */
  lemma IssuedIdsIncrease(w: WPILOGWriter, i: nat, j: nat)
    requires w.Valid() && |w.issued| < 0xFFFF_FFFF
    requires i < j < |w.issued|
    ensures 0 < w.issued[i] < w.issued[j]
  {
  }

  /** The header `new` writes is "WPILOG", the version bytes 0x00 0x01, and a zero length. */
  lemma FileHeaderBytes()
    ensures FileHeader == [0x57, 0x50, 0x49, 0x4C, 0x4F, 0x47, 0x00, 0x01, 0x00, 0x00, 0x00, 0x00]
  {
    HeaderConstants();
  }
}
