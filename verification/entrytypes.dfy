/**
 * Typed entries: the type name each `new_*_entry` constructor announces in
 * its Start record, and the payload bytes each `update_with_timestamp` hands
 * to the entry. Scalars are encoded by pure expressions; the array builders
 * preallocate a buffer and fill it with an index loop.
 */
module EntryTypes {
  import opened Wrappers
  import opened Bytes
  import opened Log
  import opened Writer

  type I64 = x: int | -0x8000_0000_0000_0000 <= x < 0x8000_0000_0000_0000

  // ---------------------------------------------------------------------------
  // Type names (`new_entry_func!`)
  // ---------------------------------------------------------------------------

  /** The entry types a writer can create. */
  datatype EntryKind =
    | Raw | Boolean | Int64 | Float | Double | String
    | BooleanArray | Int64Array | FloatArray | DoubleArray | StringArray

  /** The type name a constructor passes to `make_entry`, as text. */
  function TypeNameText(kind: EntryKind): string {
    match kind
    case Raw => "raw"
    case Boolean => "boolean"
    case Int64 => "int64"
    case Float => "float"
    case Double => "double"
    case String => "string"
    case BooleanArray => "boolean[]"
    case Int64Array => "int64[]"
    case FloatArray => "float[]"
    case DoubleArray => "double[]"
    case StringArray => "string[]"
  }

  predicate IsAscii(s: string) {
    forall i | 0 <= i < |s| :: s[i] < 128 as char
  }

  lemma TypeNamesAreAscii(kind: EntryKind)
    ensures IsAscii(TypeNameText(kind))
  {
  }

  /** The bytes of the type name: short, well-formed UTF-8. */
  function TypeName(kind: EntryKind): (r: seq<Byte>)
    ensures |r| == |TypeNameText(kind)| <= 9 && ValidUtf8(r)
  {
    TypeNamesAreAscii(kind);
    AsciiIsUtf8(TypeNameText(kind));
    Ascii(TypeNameText(kind))
  }

  /** Distinct ASCII strings have distinct bytes. */
  lemma {:induction false} AsciiInjective(s: string, t: string)
    requires IsAscii(s) && IsAscii(t) && Ascii(s) == Ascii(t)
    ensures s == t
  {
    if s != [] {
      assert Ascii(s)[0] == s[0] as int && Ascii(t)[0] == t[0] as int;
      assert Ascii(s)[1..] == Ascii(s[1..]) && Ascii(t)[1..] == Ascii(t[1..]);
      AsciiInjective(s[1..], t[1..]);
    }
  }

  /** A reader can tell every entry type from its type name: no two kinds share one. */
  lemma TypeNamesDistinct(j: EntryKind, k: EntryKind)
    ensures TypeName(j) == TypeName(k) <==> j == k
  {
    if TypeName(j) == TypeName(k) {
      TypeNamesAreAscii(j);
      TypeNamesAreAscii(k);
      AsciiInjective(TypeNameText(j), TypeNameText(k));
      var s, t := TypeNameText(j), TypeNameText(k);
      assert |s| == |t| && s[0] == t[0];
    }
  }

  /** `Option::unwrap_or_default` on the metadata: a missing metadata string is empty. */
  function MetadataOrDefault(metadata: Option<seq<Byte>>): (r: seq<Byte>)
    ensures metadata.Some? ==> r == metadata.value
    ensures metadata.None? ==> r == []
  {
    metadata.UnwrapOr([])
  }

  /**
   * `new_bool_entry`, `new_i64_entry`, …: make an entry whose Start record
   * carries the kind's type name and the metadata, or "" without one.
   */
  method NewEntry(w: WPILOGWriter, kind: EntryKind, name: seq<Byte>, metadata: Option<seq<Byte>>, now: U64)
    returns (entry: WPILOGEntry)
    requires w.Valid() && w.running
    requires |name| < 0x1_0000_0000 && (metadata.Some? ==> |metadata.value| < 0x1_0000_0000)
    modifies w
    ensures w.Valid() && w.running && w.sink == old(w.sink)
    ensures fresh(entry) && entry.writer == w && entry.id == old(w.id)
    ensures w.id == (old(w.id) + 1) % 0x1_0000_0000 && w.issued == old(w.issued) + [entry.id]
    ensures var start := Record(entry.id, now, Control(Start(name, TypeName(kind), MetadataOrDefault(metadata))));
      && w.frames == old(w.frames) + [Encode(start)]
      && w.queue == old(w.queue) + [Msg(Encode(start))]
  {
    entry := w.MakeEntry(name, TypeName(kind), MetadataOrDefault(metadata), now);
  }

  // ---------------------------------------------------------------------------
  // Concatenating element encodings
  // ---------------------------------------------------------------------------

  /** The encodings of the elements of `data`, one after another, in order. */
  function Concat<T>(f: T -> seq<Byte>, data: seq<T>): seq<Byte>
  {
    if data == [] then [] else Concat(f, data[..|data| - 1]) + f(data[|data| - 1])
  }

  /** One more element appends its encoding. */
  lemma ConcatStep<T>(f: T -> seq<Byte>, data: seq<T>, k: nat)
    requires k < |data|
    ensures Concat(f, data[..k + 1]) == Concat(f, data[..k]) + f(data[k])
  {
    assert data[..k + 1][..k] == data[..k];
  }

  /** The encoding starts with the encoding of the first element. */
  lemma {:induction false} ConcatFront<T>(f: T -> seq<Byte>, data: seq<T>)
    requires data != []
    ensures Concat(f, data) == f(data[0]) + Concat(f, data[1..])
  {
    var n := |data|;
    if n > 1 {
      var init := data[..n - 1];
      ConcatFront(f, init);
      assert init[1..] == data[1..][..n - 2];
      assert data[1..][n - 2] == data[n - 1];
    } else {
      assert data[1..] == [] && data[..0] == [];
    }
  }

  /** The encoding of a prefix of the elements is a prefix of the encoding. */
  lemma {:induction false} ConcatPrefix<T>(f: T -> seq<Byte>, data: seq<T>, k: nat)
    requires k <= |data|
    ensures Concat(f, data[..k]) <= Concat(f, data)
  {
    if k < |data| {
      ConcatPrefix(f, data[..|data| - 1], k);
      assert data[..|data| - 1][..k] == data[..k];
    } else {
      assert data[..k] == data;
    }
  }

  /**
   * When every element takes `w` bytes the encoding takes `w` bytes per
   * element, and element `i` sits at offset `w * i`.
   */
  lemma ConcatUniform<T>(f: T -> seq<Byte>, data: seq<T>, w: nat)
    requires forall i | 0 <= i < |data| :: |f(data[i])| == w
    ensures |Concat(f, data)| == w * |data|
    ensures forall i | 0 <= i < |data| ::
      w * i + w <= |Concat(f, data)| && Concat(f, data)[w * i..w * i + w] == f(data[i])
  {
    ConcatUniformLength(f, data, w);
    forall i | 0 <= i < |data|
      ensures w * i + w <= |Concat(f, data)| && Concat(f, data)[w * i..w * i + w] == f(data[i])
    {
      ConcatUniformAt(f, data, w, i);
    }
  }

  lemma {:induction false} ConcatUniformLength<T>(f: T -> seq<Byte>, data: seq<T>, w: nat)
    requires forall i | 0 <= i < |data| :: |f(data[i])| == w
    ensures |Concat(f, data)| == w * |data|
  {
    if data != [] {
      var n := |data|;
      var init := data[..n - 1];
      assert forall i | 0 <= i < |init| :: init[i] == data[i];
      ConcatUniformLength(f, init, w);
      assert w * n == w * (n - 1) + w;
    }
  }

  lemma ConcatUniformAt<T>(f: T -> seq<Byte>, data: seq<T>, w: nat, i: nat)
    requires forall i | 0 <= i < |data| :: |f(data[i])| == w
    requires i < |data|
    ensures w * i + w <= |Concat(f, data)|
    ensures Concat(f, data)[w * i..w * i + w] == f(data[i])
  {
    var before := data[..i];
    assert forall j | 0 <= j < |before| :: before[j] == data[j];
    ConcatUniformLength(f, before, w);
    ConcatStep(f, data, i);
    ConcatPrefix(f, data, i + 1);
    InnerSlice(Concat(f, before), f(data[i]), Concat(f, data));
  }

  // ---------------------------------------------------------------------------
  // Scalar payloads
  // ---------------------------------------------------------------------------

  /** `[u8::from(data)]`: the single byte 1 for true, 0 for false. */
  function BoolPayload(b: bool): (r: seq<Byte>)
    ensures |r| == 1 && (r[0] == 1 <==> b) && (r[0] == 0 <==> !b)
  {
    [if b then 1 else 0]
  }

  /** What a reader makes of a boolean byte: anything but 0 is true. */
  function BoolOf(byte: Byte): bool {
    byte != 0
  }

  /** The 64-bit two's-complement bit pattern of `x`, as an unsigned value. */
  function TwosComplement(x: I64): (r: U64)
    ensures x >= 0 ==> r == x
    ensures x < 0 ==> r >= 0x8000_0000_0000_0000 && r - x == 0x1_0000_0000_0000_0000
  {
    if x >= 0 then x else x + 0x1_0000_0000_0000_0000
  }

  /** `i64::to_le_bytes`: the eight bytes of the two's-complement pattern, least significant first. */
  function I64Payload(x: I64): (r: seq<Byte>)
    ensures |r| == 8
  {
    LittleEndian(TwosComplement(x), 8)
  }

  /** `i64::from_le_bytes`: the reader's inverse of `I64Payload`. */
  function I64Of(bytes: seq<Byte>): I64
    requires |bytes| == 8
  {
    Thresholds();
    FromLittleEndianBound(bytes);
    var v := FromLittleEndian(bytes);
    if v < 0x8000_0000_0000_0000 then v else v - 0x1_0000_0000_0000_0000
  }

  /** Every 64-bit integer is read back from its eight bytes. */
  lemma I64RoundTrip(x: I64)
    ensures I64Of(I64Payload(x)) == x
  {
    Thresholds();
    LittleEndianExact(TwosComplement(x), 8);
  }

  // ---------------------------------------------------------------------------
  // Array payloads
  // ---------------------------------------------------------------------------

  /** The `boolean[]` payload: each element's boolean byte, in order. */
  function BoolArrayBytes(data: seq<bool>): seq<Byte> {
    Concat(BoolPayload, data)
  }

  /** The `boolean[]` payload is one byte per element, 1 or 0 as the element is true or false. */
  lemma BoolArrayLayout(data: seq<bool>)
    ensures |BoolArrayBytes(data)| == |data|
    ensures forall i | 0 <= i < |data| :: BoolArrayBytes(data)[i] == BoolPayload(data[i])[0]
  {
    ConcatUniform(BoolPayload, data, 1);
    forall i | 0 <= i < |data|
      ensures BoolArrayBytes(data)[i] == BoolPayload(data[i])[0]
    {
      assert BoolArrayBytes(data)[1 * i..1 * i + 1] == BoolPayload(data[i]);
    }
  }

  /** Reading each byte of a `boolean[]` payload gives back the array. */
  lemma BoolArrayRoundTrip(data: seq<bool>)
    ensures var p := BoolArrayBytes(data);
      |p| == |data| && forall i | 0 <= i < |data| :: BoolOf(p[i]) == data[i]
  {
    BoolArrayLayout(data);
  }

  /**
   * `BooleanArrayEntry::update_with_timestamp`: a zeroed buffer of one byte
   * per element, filled in order.
   */
  method BoolArrayPayload(data: seq<bool>) returns (payload: seq<Byte>)
    ensures payload == BoolArrayBytes(data)
  {
    var tmp := new Byte[|data|](_ => 0);
    for i := 0 to |data|
      invariant tmp[..i] == Concat(BoolPayload, data[..i])
    {
      tmp[i] := if data[i] then 1 else 0;
      ConcatStep(BoolPayload, data, i);
      assert tmp[..i + 1] == tmp[..i] + [tmp[i]];
    }
    assert data[..|data|] == data && tmp[..|data|] == tmp[..];
    payload := tmp[..];
  }

  /** What `I64ArrayEntry` writes for one element: the low four of its eight bytes. */
  function I64Low(x: I64): (r: seq<Byte>)
    ensures |r| == 4
  {
    I64Payload(x)[..4]
  }

  /** The `int64[]` payload: the low four bytes of each element, in order. */
  function I64ArrayBytes(data: seq<I64>): seq<Byte> {
    Concat(I64Low, data)
  }

  /**
   * The `int64[]` payload is four bytes per element, and each group of four
   * reads back as the element modulo 2^32: the upper half of every element
   * is dropped.
   */
  lemma I64ArrayLayout(data: seq<I64>)
    ensures |I64ArrayBytes(data)| == 4 * |data|
    ensures forall i | 0 <= i < |data| ::
      FromLittleEndian(I64ArrayBytes(data)[4 * i..4 * i + 4]) == TwosComplement(data[i]) % 0x1_0000_0000
  {
    ConcatUniform(I64Low, data, 4);
    forall i | 0 <= i < |data|
      ensures FromLittleEndian(I64ArrayBytes(data)[4 * i..4 * i + 4]) == TwosComplement(data[i]) % 0x1_0000_0000
    {
      I64LowValue(data[i]);
    }
  }

  /** The four bytes kept of `x` hold its two's-complement pattern modulo 2^32. */
  lemma I64LowValue(x: I64)
    ensures FromLittleEndian(I64Low(x)) == TwosComplement(x) % 0x1_0000_0000
  {
    LittleEndianPrefix(TwosComplement(x), 4, 8);
    LittleEndianRoundTrip(TwosComplement(x), 4);
    assert Pow256(4) == 0x1_0000_0000;
  }

  /** Because only the low halves are kept, 2^32 is written exactly as 0 is. */
  lemma I64ArrayDropsHighHalf()
    ensures I64ArrayBytes([0x1_0000_0000]) == I64ArrayBytes([0]) == [0, 0, 0, 0]
  {
    assert [0x1_0000_0000 as I64][..0] == [] && [0 as I64][..0] == [];
  }

  /**
   * `I64ArrayEntry::update_with_timestamp`: a zeroed buffer of four bytes per
   * element; the write index moves over bytes 0-3 of each element's
   * little-endian encoding.
   */
  method I64ArrayPayload(data: seq<I64>) returns (payload: seq<Byte>)
    ensures payload == I64ArrayBytes(data)
  {
    var dest := new Byte[|data| * 4](_ => 0);
    var i := 0;
    for k := 0 to |data|
      invariant i == 4 * k
      invariant dest[..i] == Concat(I64Low, data[..k])
    {
      ConcatStep(I64Low, data, k);
      i := WriteFour(dest, i, I64Payload(data[k]));
    }
    assert data[..|data|] == data && dest[..i] == dest[..];
    payload := dest[..];
  }

  /** The sum of the string lengths. */
  function TotalLength(data: seq<seq<Byte>>): nat {
    if data == [] then 0 else TotalLength(data[..|data| - 1]) + |data[|data| - 1]|
  }

  /** The `string[]` payload: the element count as a `u32`, then each element, in order. */
  function StringArrayBytes(data: seq<seq<Byte>>): seq<Byte> {
    LittleEndian(|data|, 4) + Concat(LengthPrefixed, data)
  }

  /** The `string[]` payload takes 4 + 4·n + Σ|sᵢ| bytes, the size of the buffer the source allocates. */
  lemma {:induction false} StringArrayLength(data: seq<seq<Byte>>)
    ensures |Concat(LengthPrefixed, data)| == 4 * |data| + TotalLength(data)
    ensures |StringArrayBytes(data)| == 4 + 4 * |data| + TotalLength(data)
  {
    if data != [] {
      StringArrayLength(data[..|data| - 1]);
    }
  }

  /**
   * The reader's side of `string[]`: `count` length-prefixed strings, one
   * after another; `None` when a length or a string runs past the end.
   */
  function ParseStrings(d: seq<Byte>, count: nat): (r: Option<seq<seq<Byte>>>)
    ensures r.Some? ==> |r.value| == count
    decreases count
  {
    if count == 0 then Some([])
    else if |d| < 4 then None
    else
      var n := FromLittleEndian(d[..4]);
      if |d| < 4 + n then None
      else match ParseStrings(d[4 + n..], count - 1)
        case None => None
        case Some(rest) => Some([d[4..4 + n]] + rest)
  }

  /** A `string[]` payload read back: the count, then that many strings. */
  function ParseStringArray(p: seq<Byte>): Option<seq<seq<Byte>>> {
    if |p| < 4 then None else ParseStrings(p[4..], FromLittleEndian(p[..4]))
  }

  /** The elements read back from their encodings, whatever follows them. */
  lemma {:induction false} ParseStringsOfConcat(data: seq<seq<Byte>>, rest: seq<Byte>)
    requires forall i | 0 <= i < |data| :: |data[i]| < 0x1_0000_0000
    ensures ParseStrings(Concat(LengthPrefixed, data) + rest, |data|) == Some(data)
  {
    if data != [] {
      var s, tail := data[0], data[1..];
      var after := Concat(LengthPrefixed, tail) + rest;
      var d := Concat(LengthPrefixed, data) + rest;
      ConcatFront(LengthPrefixed, data);
      assert d == LittleEndian(|s|, 4) + s + after;
      assert d[..4] == LittleEndian(|s|, 4);
      LittleEndian32Exact(|s|);
      assert d[4..4 + |s|] == s && d[4 + |s|..] == after;
      ParseStringsOfConcat(tail, rest);
      assert [s] + tail == data;
    }
  }

  /** A `string[]` payload of fewer than 2^32 strings, each shorter than 2^32 bytes, reads back as the array. */
  lemma StringArrayRoundTrip(data: seq<seq<Byte>>)
    requires |data| < 0x1_0000_0000
    requires forall i | 0 <= i < |data| :: |data[i]| < 0x1_0000_0000
    ensures ParseStringArray(StringArrayBytes(data)) == Some(data)
  {
    var p := StringArrayBytes(data);
    LittleEndian32Exact(|data|);
    assert p[..4] == LittleEndian(|data|, 4);
    assert p[4..] == Concat(LengthPrefixed, data) + [];
    ParseStringsOfConcat(data, []);
  }

  /**
   * `StringArrayEntry::update_with_timestamp`: a zeroed buffer of the total
   * size, the count in bytes 0-3, then for each string its 4-byte length and
   * its bytes, the write index advancing one byte at a time.
   */
  method StringArrayPayload(data: seq<seq<Byte>>) returns (payload: seq<Byte>)
    ensures payload == StringArrayBytes(data)
  {
    var length := 4 + 4 * |data| + TotalLength(data);
    var dest := new Byte[length](_ => 0);
    StringArrayLength(data);
    var i := WriteLength(dest, 0, |data|);
    i := WriteElements(dest, i, data);
    assert dest[..i] == dest[..];
    payload := dest[..];
  }

  /** The loop of `string[]` over its elements, starting at write index `start`. */
  method WriteElements(dest: array<Byte>, start: nat, data: seq<seq<Byte>>) returns (i: nat)
    requires start + |Concat(LengthPrefixed, data)| <= dest.Length
    modifies dest
    ensures i == start + |Concat(LengthPrefixed, data)|
    ensures dest[..i] == old(dest[..start]) + Concat(LengthPrefixed, data)
    ensures dest[i..] == old(dest[i..])
  {
    ghost var end := start + |Concat(LengthPrefixed, data)|;
    i := start;
    for k := 0 to |data|
      invariant i == start + |Concat(LengthPrefixed, data[..k])| <= dest.Length
      invariant dest[..i] == old(dest[..start]) + Concat(LengthPrefixed, data[..k])
      invariant dest[end..] == old(dest[end..])
    {
      ConcatStep(LengthPrefixed, data, k);
      ConcatPrefix(LengthPrefixed, data, k + 1);
      i := WriteElement(dest, i, data[k]);
    }
    assert data[..|data|] == data;
  }

  /**
   * The body of the `string[]` loop for one string: its length as four
   * bytes, then its bytes one at a time, starting at write index `i`.
   */
  method WriteElement(dest: array<Byte>, i: nat, item: seq<Byte>) returns (next: nat)
    requires i + 4 + |item| <= dest.Length
    modifies dest
    ensures next == i + |LengthPrefixed(item)|
    ensures dest[..next] == old(dest[..i]) + LengthPrefixed(item)
    ensures dest[next..] == old(dest[next..])
  {
    next := WriteLength(dest, i, |item|);
    next := WriteBytes(dest, next, item);
  }

  /** The bytes of `item` written at `i`, one at a time. */
  method WriteBytes(dest: array<Byte>, i: nat, item: seq<Byte>) returns (next: nat)
    requires i + |item| <= dest.Length
    modifies dest
    ensures next == i + |item|
    ensures dest[..next] == old(dest[..i]) + item
    ensures dest[next..] == old(dest[next..])
  {
    next := i;
    for j := 0 to |item|
      invariant next == i + j
      invariant dest[..next] == old(dest[..i]) + item[..j]
      invariant dest[i + |item|..] == old(dest[i + |item|..])
    {
      dest[next] := item[j];
      next := next + 1;
      assert item[..j + 1] == item[..j] + [item[j]];
    }
    assert item[..|item|] == item;
  }

  /**
   * The first four bytes of `bytes` written at `i`, one at a time, the write
   * index advancing after each.
   */
  method WriteFour(dest: array<Byte>, i: nat, bytes: seq<Byte>) returns (next: nat)
    requires |bytes| >= 4 && i + 4 <= dest.Length
    modifies dest
    ensures next == i + 4
    ensures dest[..next] == old(dest[..i]) + bytes[..4]
    ensures dest[next..] == old(dest[next..])
  {
    next := i;
    dest[next] := bytes[0];
    next := next + 1;
    dest[next] := bytes[1];
    next := next + 1;
    dest[next] := bytes[2];
    next := next + 1;
    dest[next] := bytes[3];
    next := next + 1;
    assert dest[..next] == old(dest[..i]) + bytes[..4];
  }

  /**
   * `(n as u32).to_le_bytes()` written at `i`. The cast keeps the low 32
   * bits, which are the four bytes `LittleEndian` takes.
   */
  method WriteLength(dest: array<Byte>, i: nat, n: nat) returns (next: nat)
    requires i + 4 <= dest.Length
    modifies dest
    ensures next == i + 4
    ensures dest[..next] == old(dest[..i]) + LittleEndian(n, 4)
    ensures dest[next..] == old(dest[next..])
  {
    var sizeEncoded := LittleEndian(n, 4);
    next := WriteFour(dest, i, sizeEncoded);
    assert sizeEncoded[..4] == sizeEncoded;
  }

  // ---------------------------------------------------------------------------
  // Logging a typed value (`update_with_timestamp`)
  // ---------------------------------------------------------------------------

  /** A value of one of the modelled entry types. */
  datatype EntryValue =
    | BytesValue(bytes: seq<Byte>)
    | BoolValue(b: bool)
    | I64Value(x: I64)
    | StringValue(text: seq<Byte>)
    | BoolArrayValue(bools: seq<bool>)
    | I64ArrayValue(ints: seq<I64>)
    | StringArrayValue(strings: seq<seq<Byte>>)

  /**
   * The payload each entry type logs: bytes and strings unchanged (a string
   * is already its UTF-8 bytes), the other types through their encoders.
   */
  function Payload(v: EntryValue): (r: seq<Byte>)
    ensures v.BoolValue? ==> |r| == 1 && (r[0] == 1 <==> v.b)
    ensures v.I64Value? ==> |r| == 8 && I64Of(r) == v.x
    ensures v.BoolArrayValue? ==> |r| == |v.bools|
    ensures v.I64ArrayValue? ==> |r| == 4 * |v.ints|
    ensures v.StringArrayValue? ==> |r| == 4 + 4 * |v.strings| + TotalLength(v.strings)
    ensures v.BytesValue? ==> r == v.bytes
    ensures v.StringValue? ==> r == v.text
  {
    match v
    case BytesValue(bytes) => bytes
    case BoolValue(b) => BoolPayload(b)
    case I64Value(x) => I64RoundTrip(x); I64Payload(x)
    case StringValue(text) => text
    case BoolArrayValue(bools) => BoolArrayLayout(bools); BoolArrayBytes(bools)
    case I64ArrayValue(ints) => I64ArrayLayout(ints); I64ArrayBytes(ints)
    case StringArrayValue(strings) => StringArrayLength(strings); StringArrayBytes(strings)
  }

  /**
   * `update_with_timestamp` of the entry type of `v`: build the payload and
   * log it for the entry, stamped `timestamp`.
   */
  method UpdateWithTimestamp(entry: WPILOGEntry, v: EntryValue, timestamp: U64) returns (r: Result<(), Error>)
    requires entry.writer.Valid() && |Payload(v)| < 0x1_0000_0000_0000_0000
    modifies entry.writer
    ensures entry.writer.Valid()
    ensures entry.writer.running == old(entry.writer.running) && entry.writer.sink == old(entry.writer.sink)
    ensures entry.writer.id == old(entry.writer.id) && entry.writer.issued == old(entry.writer.issued)
    ensures old(entry.writer.running) ==>
              r == Ok(())
              && entry.writer.frames == old(entry.writer.frames) + [Encode(Record(entry.id, timestamp, Data(Payload(v))))]
              && entry.writer.queue == old(entry.writer.queue) + [Msg(Encode(Record(entry.id, timestamp, Data(Payload(v)))))]
    ensures !old(entry.writer.running) ==>
              r == Err(ChannelClosed)
              && entry.writer.frames == old(entry.writer.frames) && entry.writer.queue == old(entry.writer.queue)
  {
    var payload: seq<Byte>;
    match v {
      case BytesValue(bytes) =>
        payload := bytes;
      case BoolValue(b) =>
        payload := BoolPayload(b);
      case I64Value(x) =>
        payload := I64Payload(x);
      case StringValue(text) =>
        payload := text;
      case BoolArrayValue(bools) =>
        payload := BoolArrayPayload(bools);
      case I64ArrayValue(ints) =>
        payload := I64ArrayPayload(ints);
      case StringArrayValue(strings) =>
        payload := StringArrayPayload(strings);
    }
    r := entry.LogData(payload, timestamp);
  }
}
