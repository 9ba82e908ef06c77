/**
 * The record model of a WPILOG file and the constants of its file header.
 * Strings (`Box<str>`) are kept as their UTF-8 bytes.
 */
module Log {
  import opened Bytes

  /** The structured payload of a control record (entry id 0 on the wire). */
  datatype ControlData =
    | Start(name: seq<Byte>, typeName: seq<Byte>, metadata: seq<Byte>)
    | Finish
    | SetMetadata(metadata: seq<Byte>)

  /** The tag byte that opens a control payload and names its kind. */
  function ControlTag(c: ControlData): Byte {
    match c
    case Start(_, _, _) => 0
    case Finish => 1
    case SetMetadata(_) => 2
  }

  datatype RecordInfo = Control(control: ControlData) | Data(data: seq<Byte>)

  /**
   * One logical log event. For a control record `id` is the entry the control
   * message is about; on the wire the frame itself carries entry id 0.
   */
  datatype Record = Record(id: U32, timestamp: U64, info: RecordInfo)

  /** The failures the reader and the writer report (their `anyhow` messages). */
  datatype Field = Tag | EntryId | NameLength | Name | TypeLength | Type | MetadataLength | Metadata

  datatype Error =
    | UnexpectedEof            // `read_exact` ran out of input
    | InvalidHeader
    | InvalidVersion
    | NotEnoughData(field: Field)
    | InvalidUtf8
    | InvalidControlType(tag: Byte)
    | ChannelClosed            // sending on a channel whose worker has stopped

  /** `HEADER_STRING`, the magic at offset 0 of every log: the bytes of "WPILOG". */
  const HeaderString: seq<Byte> := Ascii("WPILOG")

  /** `HEADER_VERSION`, stored little-endian at offset 6. */
  const HeaderVersion: U16 := 0x0100

  /** The magic is the bytes of "WPILOG" and the version's two stored bytes are 0x00, 0x01. */
  lemma HeaderConstants()
    ensures HeaderString == [0x57, 0x50, 0x49, 0x4C, 0x4F, 0x47]
    ensures LittleEndian(HeaderVersion, 2) == [0x00, 0x01]
    ensures FromLittleEndian([0x00, 0x01]) == HeaderVersion
  {
  }

  /** Every string of the record is well-formed UTF-8, as a Rust `str` always is. */
  predicate StringsAreUtf8(info: RecordInfo) {
    match info
    case Control(Start(name, typeName, metadata)) =>
      ValidUtf8(name) && ValidUtf8(typeName) && ValidUtf8(metadata)
    case Control(SetMetadata(metadata)) => ValidUtf8(metadata)
    case _ => true
  }
}
