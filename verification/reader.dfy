/**
 * The reading side: header validation, the lenient frame iterator and the
 * interpretation of control payloads. Each imperative member is proved
 * against a specification function over the bytes it reads.
 */
module Reader {
  import opened Wrappers
  import opened Bytes
  import opened Log

  /** `PlainRecord`: a frame's fields before its payload is interpreted. */
  datatype PlainRecord = PlainRecord(id: U32, timestamp: U64, data: seq<Byte>)

  // ---------------------------------------------------------------------------
  // Specification: what each read produces from the bytes that remain
  // ---------------------------------------------------------------------------

  /** At most 8 little-endian bytes fit in 64 bits, and at most 4 in 32 bits. */
  lemma FromLittleEndianFits(bytes: seq<Byte>)
    requires |bytes| <= 8
    ensures FromLittleEndian(bytes) < 0x1_0000_0000_0000_0000
    ensures |bytes| <= 4 ==> FromLittleEndian(bytes) < 0x1_0000_0000
  {
    FromLittleEndianBound(bytes);
    Pow256Monotonic(|bytes|, 8);
    assert Pow256(4) == 0x1_0000_0000;
    assert Pow256(8) == 0x1_0000_0000_0000_0000;
    if |bytes| <= 4 {
      Pow256Monotonic(|bytes|, 4);
    }
  }

  /** A little-endian number of at most 8 bytes, zero-extended to 64 bits. */
  function Value(bytes: seq<Byte>): (v: U64)
    requires |bytes| <= 8
  {
    FromLittleEndianFits(bytes);
    FromLittleEndian(bytes)
  }

  /** `as u32`: the low 32 bits. */
  function Truncate32(x: U64): U32 { x % 0x1_0000_0000 }

  /** The cast changes nothing below 2^32. */
  lemma Truncate32Small(x: U64)
    requires x < 0x1_0000_0000
    ensures Truncate32(x) == x
  {
    DivModUnique(x, 0x1_0000_0000, 0, x);
  }

  /**
   * `new_raw`: the magic, the version, then a 4-byte length and that many
   * bytes of extra header. Yields the extra header and the bytes after it.
   */
  function ParseHeader(s: seq<Byte>): (r: Result<(seq<Byte>, seq<Byte>), Error>)
    ensures r.Ok? ==> |s| >= 12 && s[..6] == HeaderString && s == s[..12] + r.value.0 + r.value.1
  {
    if |s| < 6 then Err(UnexpectedEof)
    else if s[..6] != HeaderString then Err(InvalidHeader)
    else if |s| < 8 then Err(UnexpectedEof)
    else if Value(s[6..8]) != HeaderVersion then Err(InvalidVersion)
    else if |s| < 12 then Err(UnexpectedEof)
    else
      var length := Value(s[8..12]);
      if |s| < 12 + length then Err(UnexpectedEof)
      else Ok((s[12..12 + length], s[12 + length..]))
  }

  /** The field widths the control byte announces: bits 0-1, 2-3 and 4-6, each plus one. */
  function IdWidth(bitfield: Byte): nat { bitfield % 4 + 1 }
  function SizeWidth(bitfield: Byte): nat { (bitfield / 4) % 4 + 1 }
  function TimestampWidth(bitfield: Byte): nat { (bitfield / 16) % 8 + 1 }

  /**
   * One `read_variable_int_option`: the little-endian value of the next `w`
   * bytes and what follows them, or `None` when fewer than `w` bytes remain.
   */
  function ReadField(t: seq<Byte>, w: nat): (r: Option<(U64, seq<Byte>)>)
    requires w <= 8
    ensures r.Some? ==> |r.value.1| <= |t|
  {
    if |t| < w then None else Some((Value(t[..w]), t[w..]))
  }

  /**
   * `next`: one frame and the bytes after it, or `None` when the bytes end
   * before the control byte, a field or the whole payload.
   */
  function NextFrame(s: seq<Byte>): (r: Option<(PlainRecord, seq<Byte>)>)
    ensures r.Some? ==> |r.value.1| < |s|
  {
    if s == [] then None
    else FrameAfter(s[1..], IdWidth(s[0]), SizeWidth(s[0]), TimestampWidth(s[0]))
  }

  /**
   * The rest of `next` once the control byte has announced the field widths:
   * the reads follow one another as they do on the stream.
   */
  function FrameAfter(t: seq<Byte>, idWidth: nat, sizeWidth: nat, timestampWidth: nat): (r: Option<(PlainRecord, seq<Byte>)>)
    requires idWidth <= 8 && sizeWidth <= 8 && timestampWidth <= 8
    ensures r.Some? ==> |r.value.1| <= |t|
  {
    match ReadField(t, idWidth)
    case None => None
    case Some((id, afterId)) =>
      match ReadField(afterId, sizeWidth)
      case None => None
      case Some((size, afterSize)) =>
        match ReadField(afterSize, timestampWidth)
        case None => None
        case Some((timestamp, afterTimestamp)) =>
          if |afterTimestamp| < size then None
          else Some((PlainRecord(Truncate32(id), timestamp, afterTimestamp[..size]), afterTimestamp[size..]))
  }

  /** The frames the iterator yields from `s` before it ends. */
  function ReadFrames(s: seq<Byte>): (frames: seq<PlainRecord>)
    ensures |frames| <= |s|
    decreases |s|
  {
    match NextFrame(s)
    case None => []
    case Some((frame, rest)) => [frame] + ReadFrames(rest)
  }

  /** A 4-byte little-endian number at `at`. */
  function U32At(d: seq<Byte>, at: nat): U32
    requires at + 4 <= |d|
  {
    FromLittleEndianFits(d[at..at + 4]);
    FromLittleEndian(d[at..at + 4])
  }

  /**
   * A length-prefixed UTF-8 string starting at `at`: its bytes and the offset
   * after it; `lengthField` and `field` name what is missing when it is cut short.
   */
  function StringAt(d: seq<Byte>, at: nat, lengthField: Field, field: Field): (r: Result<(seq<Byte>, nat), Error>)
    ensures r.Ok? ==> at + 4 <= r.value.1 <= |d| && ValidUtf8(r.value.0)
  {
    if |d| < at + 4 then Err(NotEnoughData(lengthField))
    else
      var length := U32At(d, at);
      if |d| < at + 4 + length then Err(NotEnoughData(field))
      else if !ValidUtf8(d[at + 4..at + 4 + length]) then Err(InvalidUtf8)
      else Ok((d[at + 4..at + 4 + length], at + 4 + length))
  }

  /** The control data after the tag and the target id. */
  function ControlAt(d: seq<Byte>): (r: Result<ControlData, Error>)
    requires |d| >= 5
  {
    match d[0]
    case 0 =>
      var name :- StringAt(d, 5, NameLength, Name);
      var typeName :- StringAt(d, name.1, TypeLength, Type);
      var metadata :- StringAt(d, typeName.1, MetadataLength, Metadata);
      Ok(Start(name.0, typeName.0, metadata.0))
    case 1 => Ok(Finish)
    case 2 =>
      var metadata :- StringAt(d, 5, MetadataLength, Metadata);
      Ok(SetMetadata(metadata.0))
    case _ => Err(InvalidControlType(d[0]))
  }

  /**
   * `Record::try_from`: a frame with a non-zero id is data, passed through; a
   * frame with id 0 is a control record about the entry its payload names.
   */
  function Interpret(p: PlainRecord): (r: Result<Record, Error>)
    ensures r.Ok? ==> r.value.timestamp == p.timestamp && StringsAreUtf8(r.value.info)
    ensures r.Ok? ==> (r.value.info.Data? <==> p.id != 0)
    ensures r.Ok? && p.id == 0 ==> |p.data| >= 5 && p.data[0] <= 2 && r.value.id == FromLittleEndian(p.data[1..5])
  {
    if p.id != 0 then Ok(Record(p.id, p.timestamp, Data(p.data)))
    else if |p.data| == 0 then Err(NotEnoughData(Tag))
    else if |p.data| < 5 then Err(NotEnoughData(EntryId))
    else
      var info :- ControlAt(p.data);
      Ok(Record(U32At(p.data, 1), p.timestamp, Control(info)))
  }

  // ---------------------------------------------------------------------------
  // Properties of the specification
  // ---------------------------------------------------------------------------

  /**
   * The header is refused for a wrong magic or a wrong version, and too few
   * bytes anywhere is an error; on success the stream continues right after
   * the L bytes of extra header that follow the 4-byte length L.
   */
  lemma ParseHeaderOutcomes(s: seq<Byte>)
    ensures |s| >= 6 && s[..6] != HeaderString ==> ParseHeader(s) == Err(InvalidHeader)
    ensures |s| >= 8 && s[..6] == HeaderString && FromLittleEndian(s[6..8]) != 0x0100
      ==> ParseHeader(s) == Err(InvalidVersion)
    ensures |s| < 12 ==> ParseHeader(s).Err?
    ensures ParseHeader(s).Ok? ==>
      var length := FromLittleEndian(s[8..12]);
      && s[..6] == HeaderString && FromLittleEndian(s[6..8]) == 0x0100
      && 12 + length <= |s|
      && ParseHeader(s).value == (s[12..12 + length], s[12 + length..])
  {
  }

  /** A stream whose first 12 bytes are a valid header announcing `extra`, followed by `extra` and `rest`. */
  lemma ParseHeaderOfFields(s: seq<Byte>, extra: seq<Byte>, rest: seq<Byte>)
    requires |s| >= 12 && s[..6] == HeaderString && FromLittleEndian(s[6..8]) == HeaderVersion
    requires FromLittleEndian(s[8..12]) == |extra| && s[12..] == extra + rest
    ensures ParseHeader(s) == Ok((extra, rest))
  {
    assert s[12..12 + |extra|] == (extra + rest)[..|extra|] == extra;
    assert s[12 + |extra|..] == (extra + rest)[|extra|..] == rest;
  }

  /** A header with the right magic and version and an extra header `extra` is read back exactly. */
  lemma ParseHeaderAccepts(extra: seq<Byte>, rest: seq<Byte>)
    requires |extra| < 0x1_0000_0000
    ensures ParseHeader(HeaderString + LittleEndian(HeaderVersion, 2) + LittleEndian(|extra|, 4) + extra + rest)
            == Ok((extra, rest))
  {
    var version := LittleEndian(HeaderVersion, 2);
    var length := LittleEndian(|extra|, 4);
    var s := HeaderString + version + length + extra + rest;
    HeaderConstants();
    HeaderSlices(HeaderString, version, length, extra, rest);
    LittleEndianExact(|extra|, 4);
    ParseHeaderOfFields(s, extra, rest);
  }

  /** Cutting a header of 6 + 2 + 4 bytes back into its parts. */
  lemma HeaderSlices(magic: seq<Byte>, version: seq<Byte>, length: seq<Byte>, extra: seq<Byte>, rest: seq<Byte>)
    requires |magic| == 6 && |version| == 2 && |length| == 4
    ensures var s := magic + version + length + extra + rest;
      && s[..6] == magic && s[6..8] == version && s[8..12] == length && s[12..] == extra + rest
  {
  }

  /** Each width is in range (1-4, 1-4, 1-8), and bit 7 of the control byte is ignored. */
  lemma FieldWidthsIgnoreBitSeven(b: Byte)
    ensures 1 <= IdWidth(b) <= 4 && 1 <= SizeWidth(b) <= 4 && 1 <= TimestampWidth(b) <= 8
    ensures b >= 128 ==>
      IdWidth(b) == IdWidth(b - 128) && SizeWidth(b) == SizeWidth(b - 128)
      && TimestampWidth(b) == TimestampWidth(b - 128)
  {
    if b >= 128 {
      DivModUnique(b, 4, (b - 128) / 4 + 32, (b - 128) % 4);
      DivModUnique(b, 16, (b - 128) / 16 + 8, (b - 128) % 16);
      DivModUnique(b / 4, 4, ((b - 128) / 4) / 4 + 8, ((b - 128) / 4) % 4);
      DivModUnique(b / 16, 8, ((b - 128) / 16) / 8 + 1, ((b - 128) / 16) % 8);
    }
  }

  /** The widths named by bit fields holding each width minus one. */
  lemma WidthsOfBits(b: Byte, idWidth: nat, sizeWidth: nat, timestampWidth: nat)
    requires b % 4 == idWidth - 1 && (b / 4) % 4 == sizeWidth - 1 && (b / 16) % 8 == timestampWidth - 1
    ensures IdWidth(b) == idWidth && SizeWidth(b) == sizeWidth && TimestampWidth(b) == timestampWidth
  {
  }

  /** A field is read back from its bytes, whatever follows it. */
  lemma ReadFieldOf(field: seq<Byte>, rest: seq<Byte>)
    requires |field| <= 8
    ensures ReadField(field + rest, |field|) == Some((Value(field), rest))
  {
    assert (field + rest)[..|field|] == field && (field + rest)[|field|..] == rest;
  }

  /** What follows a field that is read does not change how it is read. */
  lemma ReadFieldExtended(t: seq<Byte>, w: nat, extra: seq<Byte>)
    requires w <= 8 && ReadField(t, w).Some?
    ensures ReadField(t + extra, w) == Some((ReadField(t, w).value.0, ReadField(t, w).value.1 + extra))
  {
    assert (t + extra)[..w] == t[..w] && (t + extra)[w..] == t[w..] + extra;
  }

  /** A field that is read is the value of the next `w` bytes, and reading resumes after them. */
  lemma ReadFieldConsumes(s: seq<Byte>, at: nat, w: nat)
    requires w <= 8 && at <= |s| && ReadField(s[at..], w).Some?
    ensures at + w <= |s|
    ensures ReadField(s[at..], w).value == (FromLittleEndian(s[at..at + w]), s[at + w..])
  {
    SuffixSlices(s, at, w);
  }

  /** The fields after the control byte: each field's bytes, then the payload, then what is left. */
  lemma FrameAfterConsumes(t: seq<Byte>, wi: nat, ws: nat, wt: nat)
    requires wi <= 8 && ws <= 8 && wt <= 8 && FrameAfter(t, wi, ws, wt).Some?
    ensures var p, rest := FrameAfter(t, wi, ws, wt).value.0, FrameAfter(t, wi, ws, wt).value.1;
      && |t| == wi + ws + wt + |p.data| + |rest|
      && p.id == Truncate32(FromLittleEndian(t[..wi]))
      && |p.data| == FromLittleEndian(t[wi..wi + ws])
      && p.timestamp == FromLittleEndian(t[wi + ws..wi + ws + wt])
  {
    var afterId := t[wi..];
    var afterSize := afterId[ws..];
    assert afterId[..ws] == t[wi..wi + ws];
    assert afterSize[..wt] == t[wi + ws..wi + ws + wt];
  }

  /** The three fields found after the first byte of `s`, read from slices of `s` itself. */
  lemma ShiftedFields(s: seq<Byte>, wi: nat, ws: nat, wt: nat, p: PlainRecord, rest: seq<Byte>)
    requires wi <= 4 && 1 <= |s|
    requires |s[1..]| == wi + ws + wt + |p.data| + |rest|
    requires p.id == FromLittleEndian(s[1..][..wi]) % 0x1_0000_0000
    requires |p.data| == FromLittleEndian(s[1..][wi..wi + ws])
    requires p.timestamp == FromLittleEndian(s[1..][wi + ws..wi + ws + wt])
    ensures |s| == 1 + wi + ws + wt + |p.data| + |rest|
    ensures p.id == FromLittleEndian(s[1..1 + wi])
    ensures |p.data| == FromLittleEndian(s[1 + wi..1 + wi + ws])
    ensures p.timestamp == FromLittleEndian(s[1 + wi + ws..1 + wi + ws + wt])
  {
    SliceOfSuffix(s, 1, 0, wi);
    SliceOfSuffix(s, 1, wi, wi + ws);
    SliceOfSuffix(s, 1, wi + ws, wi + ws + wt);
    FromLittleEndianFits(s[1..1 + wi]);
    DivModUnique(FromLittleEndian(s[1..1 + wi]), 0x1_0000_0000, 0, FromLittleEndian(s[1..1 + wi]));
  }

  /**
   * A frame that is read consumes exactly the control byte, the three fields
   * and the payload, and the ids it can name fit in 32 bits without truncation.
   */
  lemma NextFrameConsumes(s: seq<Byte>)
    requires NextFrame(s).Some?
    ensures var b := s[0];
      var idEnd := 1 + IdWidth(b);
      var sizeEnd := idEnd + SizeWidth(b);
      var fieldsEnd := sizeEnd + TimestampWidth(b);
      var p, rest := NextFrame(s).value.0, NextFrame(s).value.1;
      && |s| == fieldsEnd + |p.data| + |rest|
      && p.id == FromLittleEndian(s[1..idEnd])
      && |p.data| == FromLittleEndian(s[idEnd..sizeEnd])
      && p.timestamp == FromLittleEndian(s[sizeEnd..fieldsEnd])
  {
    var b, t := s[0], s[1..];
    var wi, ws, wt := IdWidth(b), SizeWidth(b), TimestampWidth(b);
    FrameAfterConsumes(t, wi, ws, wt);
    var (p, rest) := FrameAfter(t, wi, ws, wt).value;
    ShiftedFields(s, wi, ws, wt, p, rest);
  }

  /**
   * The inverse of `NextFrame`: a control byte whose widths match the fields
   * that follow it, and a payload as long as the size field says, is read
   * back field for field, and the bytes after the payload are left unread.
   */
  lemma NextFrameOfParts(b: Byte, idData: seq<Byte>, sizeData: seq<Byte>, timestampData: seq<Byte>,
                         data: seq<Byte>, rest: seq<Byte>)
    requires IdWidth(b) == |idData| && SizeWidth(b) == |sizeData| && TimestampWidth(b) == |timestampData|
    requires Value(sizeData) == |data|
    ensures NextFrame([b] + idData + sizeData + timestampData + data + rest)
            == Some((PlainRecord(Truncate32(Value(idData)), Value(timestampData), data), rest))
  {
    var afterSize := timestampData + (data + rest);
    var afterId := sizeData + afterSize;
    var afterBitfield := idData + afterId;
    SixParts([b], idData, sizeData, timestampData, data, rest);
    assert ([b] + afterBitfield)[1..] == afterBitfield;
    ReadFieldOf(idData, afterId);
    ReadFieldOf(sizeData, afterSize);
    ReadFieldOf(timestampData, data + rest);
    assert (data + rest)[..|data|] == data && (data + rest)[|data|..] == rest;
  }

  /** What follows the fields does not change how they are read. */
  lemma FrameAfterExtended(t: seq<Byte>, wi: nat, ws: nat, wt: nat, extra: seq<Byte>)
    requires wi <= 8 && ws <= 8 && wt <= 8 && FrameAfter(t, wi, ws, wt).Some?
    ensures FrameAfter(t + extra, wi, ws, wt)
            == Some((FrameAfter(t, wi, ws, wt).value.0, FrameAfter(t, wi, ws, wt).value.1 + extra))
  {
    ReadFieldExtended(t, wi, extra);
    var afterId := ReadField(t, wi).value.1;
    ReadFieldExtended(afterId, ws, extra);
    var (size, afterSize) := ReadField(afterId, ws).value;
    ReadFieldExtended(afterSize, wt, extra);
    var afterTimestamp := ReadField(afterSize, wt).value.1;
    assert (afterTimestamp + extra)[..size] == afterTimestamp[..size];
    assert (afterTimestamp + extra)[size..] == afterTimestamp[size..] + extra;
  }

  /** What follows a frame does not change how the frame is read. */
  lemma NextFrameExtended(s: seq<Byte>, extra: seq<Byte>)
    requires NextFrame(s).Some?
    ensures NextFrame(s + extra) == Some((NextFrame(s).value.0, NextFrame(s).value.1 + extra))
  {
    var b := s[0];
    assert (s + extra)[0] == b && (s + extra)[1..] == s[1..] + extra;
    FrameAfterExtended(s[1..], IdWidth(b), SizeWidth(b), TimestampWidth(b), extra);
  }

  /** A stream that is exactly one frame reads as nothing once cut short anywhere. */
  lemma NextFrameOfCut(s: seq<Byte>, k: nat)
    requires NextFrame(s).Some? && NextFrame(s).value.1 == [] && k < |s|
    ensures NextFrame(s[..k]) == None
  {
    var cut := s[..k];
    assert cut + s[k..] == s;
    if NextFrame(cut).Some? {
      NextFrameExtended(cut, s[k..]);
    }
  }

  /** One step of the iterator: a frame, then whatever the rest yields. */
  lemma ReadFramesStep(s: seq<Byte>, frame: PlainRecord, rest: seq<Byte>)
    requires NextFrame(s) == Some((frame, rest))
    ensures ReadFrames(s) == [frame] + ReadFrames(rest)
  {
  }

  /**
   * Frames laid back to back are read one after the other: when each part is
   * read as its frame whatever follows it, the stream from part `k` on reads
   * as the frames from `k` on, and a tail holding no complete frame is dropped.
   */
  lemma {:induction false} ReadFramesOfParts(parts: seq<seq<Byte>>, frames: seq<PlainRecord>, tail: seq<Byte>, k: nat)
    requires |parts| == |frames| && k <= |parts|
    requires forall i, rest | 0 <= i < |parts| :: NextFrame(parts[i] + rest) == Some((frames[i], rest))
    requires NextFrame(tail) == None
    ensures ReadFrames(Flatten(parts[k..]) + tail) == frames[k..]
    decreases |parts| - k
  {
    SplitAtPart(parts, frames, tail, k);
    if k < |parts| {
      var after := Flatten(parts[k + 1..]) + tail;
      ReadFramesStep(parts[k] + after, frames[k], after);
      ReadFramesOfParts(parts, frames, tail, k + 1);
    }
  }

  /** The stream from part `k` on: part `k`, then the stream from part `k + 1` on. */
  lemma SplitAtPart(parts: seq<seq<Byte>>, frames: seq<PlainRecord>, tail: seq<Byte>, k: nat)
    requires |parts| == |frames| && k <= |parts|
    ensures k == |parts| ==> Flatten(parts[k..]) + tail == tail && frames[k..] == []
    ensures k < |parts| ==>
      && Flatten(parts[k..]) + tail == parts[k] + (Flatten(parts[k + 1..]) + tail)
      && frames[k..] == [frames[k]] + frames[k + 1..]
  {
    if k < |parts| {
      FlattenFront(parts[k..]);
      assert parts[k..][1..] == parts[k + 1..];
    } else {
      assert parts[k..] == [];
    }
  }

  /** `LittleEndian` then `U32At` is the identity on 32-bit values. */
  lemma U32AtOfLittleEndian(d: seq<Byte>, at: nat, n: U32)
    requires at + 4 <= |d| && d[at..at + 4] == LittleEndian(n, 4)
    ensures U32At(d, at) == n
  {
    LittleEndian32Exact(n);
  }

  /**
   * Every outcome of a string read: the length field cut short, the string
   * cut short, or the string not UTF-8 is each its own error, in that order;
   * otherwise the string is the `length` bytes after the 4-byte length, and
   * reading continues right after them.
   */
  lemma StringAtOutcomes(d: seq<Byte>, at: nat, lengthField: Field, field: Field)
    ensures |d| < at + 4 ==> StringAt(d, at, lengthField, field) == Err(NotEnoughData(lengthField))
    ensures at + 4 <= |d| < at + 4 + U32At(d, at) ==> StringAt(d, at, lengthField, field) == Err(NotEnoughData(field))
    ensures at + 4 <= |d| && at + 4 + U32At(d, at) <= |d| && !ValidUtf8(d[at + 4..at + 4 + U32At(d, at)])
            ==> StringAt(d, at, lengthField, field) == Err(InvalidUtf8)
    ensures StringAt(d, at, lengthField, field).Ok? <==>
              at + 4 <= |d| && at + 4 + U32At(d, at) <= |d| && ValidUtf8(d[at + 4..at + 4 + U32At(d, at)])
    ensures StringAt(d, at, lengthField, field).Ok? ==>
              StringAt(d, at, lengthField, field).value == (d[at + 4..at + 4 + U32At(d, at)], at + 4 + U32At(d, at))
  {
  }

  /** A length field that reads as the length of the well-formed UTF-8 after it is read back as that string. */
  lemma StringAtOfFields(d: seq<Byte>, at: nat, str: seq<Byte>, lengthField: Field, field: Field)
    requires ValidUtf8(str) && at + 4 + |str| <= |d|
    requires U32At(d, at) == |str| && d[at + 4..at + 4 + |str|] == str
    ensures StringAt(d, at, lengthField, field) == Ok((str, at + 4 + |str|))
  {
  }

  /**
   * The inverse of `StringAt`: a 4-byte little-endian length followed by that
   * many bytes of well-formed UTF-8 is read back as that string, and reading
   * continues with what follows it.
   */
  lemma StringAtOfSuffix(d: seq<Byte>, at: nat, lengthBytes: seq<Byte>, str: seq<Byte>, after: seq<Byte>,
                          lengthField: Field, field: Field)
    requires ValidUtf8(str) && |lengthBytes| == 4 && FromLittleEndian(lengthBytes) == |str|
    requires at <= |d| && d[at..] == lengthBytes + str + after
    ensures StringAt(d, at, lengthField, field) == Ok((str, at + 4 + |str|))
    ensures d[at + 4 + |str|..] == after
  {
    PrefixedSlices(d, at, lengthBytes, str, after);
    StringAtOfFields(d, at, str, lengthField, field);
  }

  /** A string field read from a payload is still read the same when bytes follow the payload. */
  lemma StringAtExtended(d: seq<Byte>, extra: seq<Byte>, at: nat, lengthField: Field, field: Field)
    requires StringAt(d, at, lengthField, field).Ok?
    ensures StringAt(d + extra, at, lengthField, field) == StringAt(d, at, lengthField, field)
  {
    var length := U32At(d, at);
    assert (d + extra)[at..at + 4] == d[at..at + 4];
    assert (d + extra)[at + 4..at + 4 + length] == d[at + 4..at + 4 + length];
  }

  /** The control data of a payload is read the same when bytes follow the payload. */
  lemma ControlAtExtended(d: seq<Byte>, extra: seq<Byte>)
    requires |d| >= 5 && ControlAt(d).Ok?
    ensures ControlAt(d + extra) == ControlAt(d)
  {
    assert (d + extra)[0] == d[0];
    if d[0] == 0 {
      var name := StringAt(d, 5, NameLength, Name).value;
      StringAtExtended(d, extra, 5, NameLength, Name);
      var typeName := StringAt(d, name.1, TypeLength, Type).value;
      StringAtExtended(d, extra, name.1, TypeLength, Type);
      StringAtExtended(d, extra, typeName.1, MetadataLength, Metadata);
    } else if d[0] == 2 {
      StringAtExtended(d, extra, 5, MetadataLength, Metadata);
    }
  }

  /**
   * Every outcome of reading control data: tag 1 is Finish with nothing more
   * read, a tag above 2 is rejected, and tags 0 and 2 read their strings in
   * order, failing with the first string that cannot be read.
   */
  lemma ControlAtOutcomes(d: seq<Byte>)
    requires |d| >= 5
    ensures d[0] == 1 ==> ControlAt(d) == Ok(Finish)
    ensures d[0] > 2 ==> ControlAt(d) == Err(InvalidControlType(d[0]))
    ensures d[0] == 2 ==>
              var metadata := StringAt(d, 5, MetadataLength, Metadata);
              && (metadata.Err? ==> ControlAt(d) == Err(metadata.error))
              && (metadata.Ok? ==> ControlAt(d) == Ok(SetMetadata(metadata.value.0)))
    ensures d[0] == 0 ==>
              var name := StringAt(d, 5, NameLength, Name);
              && (name.Err? ==> ControlAt(d) == Err(name.error))
              && (name.Ok? ==>
                    var typeName := StringAt(d, name.value.1, TypeLength, Type);
                    && (typeName.Err? ==> ControlAt(d) == Err(typeName.error))
                    && (typeName.Ok? ==>
                          var metadata := StringAt(d, typeName.value.1, MetadataLength, Metadata);
                          && (metadata.Err? ==> ControlAt(d) == Err(metadata.error))
                          && (metadata.Ok? ==>
                                ControlAt(d) == Ok(Start(name.value.0, typeName.value.0, metadata.value.0)))))
  {
  }

  /**
   * The control data read from a payload is of the kind its tag names: Start
   * for 0, Finish for 1, SetMetadata for 2, and every string in it is UTF-8.
   */
  lemma ControlAtKinds(d: seq<Byte>)
    requires |d| >= 5 && ControlAt(d).Ok?
    ensures d[0] <= 2 && ControlTag(ControlAt(d).value) == d[0]
    ensures StringsAreUtf8(Control(ControlAt(d).value))
  {
  }

  /** Trailing bytes after the last field of a control payload are ignored. */
  lemma InterpretIgnoresTrailingBytes(p: PlainRecord, extra: seq<Byte>)
    requires p.id == 0 && Interpret(p).Ok?
    ensures Interpret(p.(data := p.data + extra)) == Interpret(p)
  {
    var p' := p.(data := p.data + extra);
    assert p'.data[1..5] == p.data[1..5];
    ControlAtExtended(p.data, extra);
  }

  /**
   * The errors of a control frame: an empty payload, fewer than 5 bytes, an
   * unknown tag, and then the first string of the payload that fails to read
   * (its length cut short, its bytes cut short, or not UTF-8; see `StringAt`),
   * in that order of precedence.
   */
  lemma InterpretRejects(p: PlainRecord)
    requires p.id == 0
    ensures |p.data| == 0 ==> Interpret(p) == Err(NotEnoughData(Tag))
    ensures 0 < |p.data| < 5 ==> Interpret(p) == Err(NotEnoughData(EntryId))
    ensures |p.data| >= 5 && p.data[0] > 2 ==> Interpret(p) == Err(InvalidControlType(p.data[0]))
    ensures |p.data| >= 5 && p.data[0] == 0 ==>
      var name := StringAt(p.data, 5, NameLength, Name);
      && (name.Err? ==> Interpret(p) == Err(name.error))
      && (name.Ok? ==>
            var typeName := StringAt(p.data, name.value.1, TypeLength, Type);
            && (typeName.Err? ==> Interpret(p) == Err(typeName.error))
            && (typeName.Ok? ==>
                  var metadata := StringAt(p.data, typeName.value.1, MetadataLength, Metadata);
                  metadata.Err? ==> Interpret(p) == Err(metadata.error)))
    ensures |p.data| >= 5 && p.data[0] == 2 ==>
      var metadata := StringAt(p.data, 5, MetadataLength, Metadata);
      metadata.Err? ==> Interpret(p) == Err(metadata.error)
  {
  }

  // ---------------------------------------------------------------------------
  // The reader (`WPILOGReader`) over the stream it owns
  // ---------------------------------------------------------------------------

  /** The byte stream a reader owns: its bytes and how many `read_exact` has consumed. */
  class ByteSource {
    const bytes: seq<Byte>
    var pos: nat

    ghost predicate Valid()
      reads this
    {
      pos <= |bytes|
    }

    /** The bytes not yet read. */
    function Remaining(): seq<Byte>
      reads this
      requires Valid()
    {
      bytes[pos..]
    }

    constructor (bytes: seq<Byte>)
      ensures Valid() && this.bytes == bytes && pos == 0
    {
      this.bytes := bytes;
      pos := 0;
    }

    /**
     * `read_exact`: exactly `n` bytes, or `UnexpectedEof` when fewer remain; a
     * short read still consumes what was left.
     */
    method ReadExact(n: nat) returns (r: Result<seq<Byte>, Error>)
      requires Valid()
      modifies this
      ensures Valid()
      ensures n <= |old(Remaining())| ==> r == Ok(old(Remaining())[..n]) && Remaining() == old(Remaining())[n..]
      ensures n > |old(Remaining())| ==> r == Err(UnexpectedEof) && Remaining() == []
    {
      if pos + n <= |bytes| {
        assert bytes[pos..][..n] == bytes[pos..pos + n];
        r := Ok(bytes[pos..pos + n]);
        pos := pos + n;
      } else {
        r := Err(UnexpectedEof);
        pos := |bytes|;
      }
    }
  }

  class WPILOGReader {
    const reader: ByteSource
    const extraHeader: seq<Byte>

    constructor (reader: ByteSource, extraHeader: seq<Byte>)
      ensures this.reader == reader && this.extraHeader == extraHeader
    {
      this.reader := reader;
      this.extraHeader := extraHeader;
    }

    /** `new_raw`: check the magic and the version, then keep the extra header. */
    static method NewRaw(reader: ByteSource) returns (r: Result<WPILOGReader, Error>)
      requires reader.Valid()
      modifies reader
      ensures reader.Valid()
      ensures r.Err? ==> ParseHeader(old(reader.Remaining())) == Err(r.error)
      ensures r.Ok? ==>
        && fresh(r.value) && r.value.reader == reader
        && ParseHeader(old(reader.Remaining())) == Ok((r.value.extraHeader, reader.Remaining()))
    {
      ghost var s := reader.Remaining();
      var header :- reader.ReadExact(6);
      if header != HeaderString {
        return Err(InvalidHeader);
      }
      var version :- reader.ReadExact(2);
      assert s[6..8] == version;
      if Value(version) != HeaderVersion {
        return Err(InvalidVersion);
      }
      var length :- reader.ReadExact(4);
      assert s[8..12] == length;
      var extraHeader :- reader.ReadExact(Value(length));
      assert s[12..12 + Value(length)] == extraHeader;
      assert reader.Remaining() == s[12 + Value(length)..];
      var w := new WPILOGReader(reader, extraHeader);
      return Ok(w);
    }

    /**
     * `read_variable_int`: read `length` bytes into the low end of a zeroed
     * 8-byte buffer and take its little-endian value.
     */
    method ReadVariableInt(length: nat) returns (r: Result<U64, Error>)
      requires length <= 8 && reader.Valid()
      modifies reader
      ensures reader.Valid()
      ensures length <= |old(reader.Remaining())| ==>
                r == Ok(Value(old(reader.Remaining())[..length]))
                && reader.Remaining() == old(reader.Remaining())[length..]
      ensures length > |old(reader.Remaining())| ==> r == Err(UnexpectedEof) && reader.Remaining() == []
    {
      var finalBuf := new Byte[8](_ => 0);
      var bytes :- reader.ReadExact(length);
      forall k | 0 <= k < length {
        finalBuf[k] := bytes[k];
      }
      assert finalBuf[..] == bytes + Zeros(8 - length);
      ZeroExtension(bytes, 8 - length);
      r := Ok(Value(finalBuf[..]));
    }

    /** `read_variable_int_option`: the same, with any error turned into `None`. */
    method ReadVariableIntOption(length: nat) returns (r: Option<U64>)
      requires length <= 8 && reader.Valid()
      modifies reader
      ensures reader.Valid()
      ensures length <= |old(reader.Remaining())| ==>
                r == Some(Value(old(reader.Remaining())[..length]))
                && reader.Remaining() == old(reader.Remaining())[length..]
      ensures length > |old(reader.Remaining())| ==> r == None && reader.Remaining() == []
    {
      var value := ReadVariableInt(length);
      match value
      case Ok(v) => r := Some(v);
      case Err(_) => r := None;
    }

    /** `Iterator::next`: the next frame, or `None` (for good) once the stream falls short. */
    method Next() returns (r: Option<PlainRecord>)
      requires reader.Valid()
      modifies reader
      ensures reader.Valid()
      ensures NextFrame(old(reader.Remaining())) == None ==> r == None && reader.Remaining() == []
      ensures NextFrame(old(reader.Remaining())) != None ==>
        r == Some(NextFrame(old(reader.Remaining())).value.0)
        && reader.Remaining() == NextFrame(old(reader.Remaining())).value.1
    {
      var bitfieldBuf := reader.ReadExact(1);
      if bitfieldBuf.Err? {
        return None;
      }
      var bitfield := bitfieldBuf.value[0];
      FieldWidthsIgnoreBitSeven(bitfield);
      var entryLength := IdWidth(bitfield);
      var sizeLength := SizeWidth(bitfield);
      var timestampLength := TimestampWidth(bitfield);
      var entry := ReadVariableIntOption(entryLength);
      if entry.None? {
        return None;
      }
      var id := Truncate32(entry.value);
      var size := ReadVariableIntOption(sizeLength);
      if size.None? {
        return None;
      }
      var timestamp := ReadVariableIntOption(timestampLength);
      if timestamp.None? {
        return None;
      }
      var data := reader.ReadExact(size.value);
      if data.Err? {
        return None;
      }
      return Some(PlainRecord(id, timestamp.value, data.value));
    }
  }

  /**
   * One length-prefixed string of `Record::try_from`: the length-field bounds
   * check, the 4-byte length, the string bounds check, the UTF-8 check, and
   * the cursor moved past the string.
   */
  method ReadString(data: seq<Byte>, ptr: nat, lengthField: Field, field: Field) returns (r: Result<(seq<Byte>, nat), Error>)
    ensures r == StringAt(data, ptr, lengthField, field)
  {
    var cursor: nat := ptr;
    if |data| < cursor + 4 {
      return Err(NotEnoughData(lengthField));
    }
    var length := U32At(data, cursor);
    cursor := cursor + 4;
    if |data| < cursor + length {
      return Err(NotEnoughData(field));
    }
    if !ValidUtf8(data[cursor..cursor + length]) {
      return Err(InvalidUtf8);
    }
    var str := data[cursor..cursor + length];
    cursor := cursor + length;
    return Ok((str, cursor));
  }

  /**
   * `Record::try_from`, walking a cursor over the payload: the tag, the target
   * id, then each length-prefixed string with a bounds check before each read.
   */
  method TryFrom(record: PlainRecord) returns (r: Result<Record, Error>)
    ensures r == Interpret(record)
  {
    if record.id != 0 {
      return Ok(Record(record.id, record.timestamp, Data(record.data)));
    }
    var data := record.data;
    var ptr: nat := 0;
    if |data| == 0 {
      return Err(NotEnoughData(Tag));
    }
    var rtype := data[ptr];
    ptr := ptr + 1;
    if |data| < ptr + 4 {
      return Err(NotEnoughData(EntryId));
    }
    var id := U32At(data, ptr);
    ptr := ptr + 4;
    var info: ControlData;
    if rtype == 0 {
      var name := ReadString(data, ptr, NameLength, Name);
      if name.Err? {
        return Err(name.error);
      }
      ptr := name.value.1;
      var typeName := ReadString(data, ptr, TypeLength, Type);
      if typeName.Err? {
        return Err(typeName.error);
      }
      ptr := typeName.value.1;
      var metadata := ReadString(data, ptr, MetadataLength, Metadata);
      if metadata.Err? {
        return Err(metadata.error);
      }
      info := Start(name.value.0, typeName.value.0, metadata.value.0);
    } else if rtype == 1 {
      info := Finish;
    } else if rtype == 2 {
      var metadata := ReadString(data, ptr, MetadataLength, Metadata);
      if metadata.Err? {
        return Err(metadata.error);
      }
      info := SetMetadata(metadata.value.0);
    } else {
      return Err(InvalidControlType(rtype));
    }
    return Ok(Record(id, record.timestamp, Control(info)));
  }
}
