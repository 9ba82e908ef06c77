/**
 * The writer and the reader together: what `Record::encode` writes, `next`
 * reads back and `Record::try_from` turns into the same record, one frame at
 * a time, over a whole stream, and from the bytes a joined writer leaves.
 */
module RoundTrip {
  import opened Wrappers
  import opened Bytes
  import opened Log
  import opened Writer
  import opened Reader

  /**
   * A record the format can carry back: its payload length fits the two size
   * bits, its strings are UTF-8, and a data record does not use id 0, which
   * the reader takes for a control record.
   */
  predicate WellFormed(r: Record)
    requires Encodable(r)
  {
    && |FramePayload(r)| < 0x1_0000_0000
    && StringsAreUtf8(r.info)
    && (r.info.Data? ==> r.id != 0)
  }

  /** The frame fields of `r` as the reader sees them: control frames carry id 0. */
  function Plain(r: Record): PlainRecord
    requires Encodable(r)
  {
    PlainRecord(if r.info.Data? then r.id else 0, r.timestamp, FramePayload(r))
  }

  /** `Plain` of each record, in order. */
  function Plains(records: seq<Record>): seq<PlainRecord>
    requires forall r | r in records :: Encodable(r)
  {
    seq(|records|, i requires 0 <= i < |records| => Plain(records[i]))
  }

  /** The id field of a frame: the record's id, or the single byte 0 for a control record. */
  function IdField(r: Record): seq<Byte> {
    if r.info.Data? then EncodeInt(r.id) else [0]
  }

  /** The control byte of a well-formed record's frame announces the widths of the fields that follow it. */
  lemma FrameFields(r: Record)
    requires Encodable(r) && WellFormed(r)
    ensures var frame, sizeData := Encode(r), EncodeInt(|FramePayload(r)|);
      && frame == [frame[0]] + IdField(r) + sizeData + EncodeInt(r.timestamp) + FramePayload(r)
      && IdWidth(frame[0]) == |IdField(r)|
      && SizeWidth(frame[0]) == |sizeData|
      && TimestampWidth(frame[0]) == |EncodeInt(r.timestamp)|
  {
    var sizeData := EncodeInt(|FramePayload(r)|);
    EncodeIntOfU32(|FramePayload(r)|);
    assert (|sizeData| - 1) % 4 == |sizeData| - 1;
    ControlByteFields(r);
    if r.info.Data? {
      DataFrameLayout(r);
    } else {
      ControlFrameLayout(r);
    }
    WidthsOfBits(Encode(r)[0], |IdField(r)|, |sizeData|, |EncodeInt(r.timestamp)|);
  }

  /** A well-formed record's frame is read back as its fields, leaving what follows unread. */
  lemma FrameRoundTrip(r: Record, rest: seq<Byte>)
    requires Encodable(r) && WellFormed(r)
    ensures NextFrame(Encode(r) + rest) == Some((Plain(r), rest))
  {
    var payload := FramePayload(r);
    var idData, sizeData, timestampData := IdField(r), EncodeInt(|payload|), EncodeInt(r.timestamp);
    FrameFields(r);
    var b := Encode(r)[0];
    assert Encode(r) + rest == [b] + idData + sizeData + timestampData + payload + rest;
    EncodeIntRoundTrip(|payload|);
    EncodeIntRoundTrip(r.timestamp);
    if r.info.Data? {
      EncodeIntRoundTrip(r.id);
    } else {
      assert FromLittleEndian([0]) == 0;
    }
    assert Value(idData) == Plain(r).id;
    Truncate32Small(Value(idData));
    assert PlainRecord(Truncate32(Value(idData)), Value(timestampData), payload) == Plain(r);
    NextFrameOfParts(b, idData, sizeData, timestampData, payload, rest);
  }

  /** The strings of a `Start` payload are read back in order. */
  lemma StartPayloadReads(p: seq<Byte>, id: seq<Byte>, ln: seq<Byte>, n: seq<Byte>, lt: seq<Byte>, t: seq<Byte>,
                          lm: seq<Byte>, m: seq<Byte>)
    requires |id| == 4 && |ln| == 4 && |lt| == 4 && |lm| == 4
    requires FromLittleEndian(ln) == |n| && FromLittleEndian(lt) == |t| && FromLittleEndian(lm) == |m|
    requires ValidUtf8(n) && ValidUtf8(t) && ValidUtf8(m)
    requires p == [0] + id + ln + n + lt + t + lm + m
    ensures |p| >= 5 && p[1..5] == id && ControlAt(p) == Ok(Start(n, t, m))
  {
    ThreeFieldSuffixes(p, 0, id, ln, n, lt, t, lm, m);
    StringAtOfSuffix(p, 5, ln, n, lt + t + (lm + m), NameLength, Name);
    StringAtOfSuffix(p, 9 + |n|, lt, t, lm + m, TypeLength, Type);
    StringAtOfSuffix(p, 13 + |n| + |t|, lm, m, [], MetadataLength, Metadata);
  }

  /** The string of a `SetMetadata` payload is read back. */
  lemma SetMetadataPayloadReads(p: seq<Byte>, id: seq<Byte>, lm: seq<Byte>, m: seq<Byte>)
    requires |id| == 4 && |lm| == 4 && FromLittleEndian(lm) == |m| && ValidUtf8(m)
    requires p == [2] + id + lm + m
    ensures |p| >= 5 && p[1..5] == id && ControlAt(p) == Ok(SetMetadata(m))
  {
    assert p[1..5] == id;
    assert p[5..] == lm + m + [];
    StringAtOfSuffix(p, 5, lm, m, [], MetadataLength, Metadata);
  }

  /** A well-formed control payload is read back as the control data it was written from. */
  lemma ControlRoundTrip(target: U32, c: ControlData)
    requires ControlFits(c) && StringsAreUtf8(Control(c))
    ensures var p := ControlPayload(target, c);
      |p| >= 5 && U32At(p, 1) == target && ControlAt(p) == Ok(c)
  {
    var p := ControlPayload(target, c);
    var id := LittleEndian(target, 4);
    ControlPayloadShapes(target, c);
    match c {
      case Finish =>
        assert p[1..5] == id;
      case SetMetadata(m) =>
        LittleEndian32Exact(|m|);
        SetMetadataPayloadReads(p, id, LittleEndian(|m|, 4), m);
      case Start(n, t, m) =>
        LittleEndian32Exact(|n|);
        LittleEndian32Exact(|t|);
        LittleEndian32Exact(|m|);
        StartPayloadReads(p, id, LittleEndian(|n|, 4), n, LittleEndian(|t|, 4), t, LittleEndian(|m|, 4), m);
    }
    U32AtOfLittleEndian(p, 1, target);
  }

  /** `Record::try_from` turns the fields of a well-formed record's frame back into the record. */
  lemma InterpretRoundTrip(r: Record)
    requires Encodable(r) && WellFormed(r)
    ensures Interpret(Plain(r)) == Ok(r)
  {
    if r.info.Control? {
      ControlRoundTrip(r.id, r.info.control);
    }
  }

  /** Both halves at once: a lone frame decodes to exactly its record. */
  lemma RecordRoundTrip(r: Record)
    requires Encodable(r) && WellFormed(r)
    ensures match NextFrame(Encode(r))
      case None => false
      case Some((p, rest)) => rest == [] && Interpret(p) == Ok(r)
  {
    FrameRoundTrip(r, []);
    assert Encode(r) + [] == Encode(r);
    InterpretRoundTrip(r);
  }

  /**
   * Reading a stream of well-formed frames yields each record's fields in
   * order; a `tail` that holds no complete frame (such as a frame cut short
   * by a crash) is dropped.
   */
  lemma StreamRoundTrip(records: seq<Record>, tail: seq<Byte>)
    requires forall r | r in records :: Encodable(r) && WellFormed(r)
    requires NextFrame(tail) == None
    ensures ReadFrames(Flatten(Frames(records)) + tail) == Plains(records)
  {
    var parts, frames := Frames(records), Plains(records);
    forall i, rest | 0 <= i < |parts|
      ensures NextFrame(parts[i] + rest) == Some((frames[i], rest))
    {
      FrameRoundTrip(records[i], rest);
    }
    ReadFramesOfParts(parts, frames, tail, 0);
    assert parts[0..] == parts && frames[0..] == frames;
  }

  /** A frame cut anywhere short of its end reads as nothing. */
  lemma TruncatedFrameReadsAsNothing(r: Record, k: nat)
    requires Encodable(r) && WellFormed(r) && k < |Encode(r)|
    ensures NextFrame(Encode(r)[..k]) == None
  {
    FrameRoundTrip(r, []);
    assert Encode(r) + [] == Encode(r);
    NextFrameOfCut(Encode(r), k);
  }

  /** Each interpreted record of a stream is the record that was written. */
  lemma InterpretAll(records: seq<Record>)
    requires forall r | r in records :: Encodable(r) && WellFormed(r)
    ensures forall i | 0 <= i < |records| :: Interpret(Plains(records)[i]) == Ok(records[i])
  {
    forall i | 0 <= i < |records|
      ensures Interpret(Plains(records)[i]) == Ok(records[i])
    {
      InterpretRoundTrip(records[i]);
    }
  }

  /** The header `new` writes is accepted by `new_raw`, with an empty extra header. */
  lemma FileHeaderParses(body: seq<Byte>)
    ensures ParseHeader(FileHeader + body) == Ok(([], body))
  {
    var s := FileHeader + body;
    FileHeaderBytes();
    HeaderConstants();
    assert s[..6] == HeaderString;
    assert s[6..8] == [0x00, 0x01];
    assert s[8..12] == [0, 0, 0, 0];
    assert FromLittleEndian([0, 0, 0, 0]) == 0;
    assert s[12..] == [] + body;
    ParseHeaderOfFields(s, [], body);
  }

  /** A joined writer has written the header and then every frame it was sent. */
  lemma JoinedWriterBytes(w: WPILOGWriter, tail: seq<Byte>)
    requires w.Valid() && !w.running
    ensures w.sink + tail == FileHeader + (Flatten(w.frames) + tail)
  {
    assert w.frames[..w.written] == w.frames;
  }

  /** The bytes of a writer that was joined: the header, then every frame it sent. */
  lemma JoinedWriterReadsBack(w: WPILOGWriter, records: seq<Record>, tail: seq<Byte>)
    requires w.Valid() && !w.running
    requires forall r | r in records :: Encodable(r) && WellFormed(r)
    requires w.frames == Frames(records)
    requires NextFrame(tail) == None
    ensures ParseHeader(w.sink + tail) == Ok(([], Flatten(Frames(records)) + tail))
    ensures ReadFrames(Flatten(Frames(records)) + tail) == Plains(records)
    ensures forall i | 0 <= i < |records| :: Interpret(Plains(records)[i]) == Ok(records[i])
  {
    JoinedWriterBytes(w, tail);
    FileHeaderParses(Flatten(w.frames) + tail);
    StreamRoundTrip(records, tail);
    InterpretAll(records);
  }
}
