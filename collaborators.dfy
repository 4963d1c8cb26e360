/**
  The pieces of the dBASE crate that the reader relies on but that are not
  part of this model: the error type, the header and field-descriptor records,
  the field value type and the three decoders `Header::read_from`,
  `RecordFieldInfo::read_from` and `FieldValue::read_from`.

  The decoders are given as function values in a `Codec`. The byte source is
  a `seq<bv8>` with a read position; each decoder is handed exactly the bytes
  it consumes (a fixed size for the header and for a descriptor, the
  descriptor's declared length for a value), so the position after a decode
  does not depend on what the decoder makes of those bytes.
 */
module Collaborators {

  type u8 = x: nat | x < 0x100
  type u16 = x: nat | x < 0x1_0000
  type u32 = x: nat | x < 0x1_0000_0000
  type Positive = n: nat | n > 0 witness 1

  /** `Header::SIZE`: the fixed size of the file header, in bytes. */
  const HEADER_SIZE: Positive

  /** `RecordFieldInfo::SIZE`: the fixed size of one field descriptor, in bytes. */
  const FIELD_INFO_SIZE: Positive

  /** The byte that ends the field-descriptor table, ASCII carriage return. */
  const TERMINATOR: bv8 := 0x0D

  datatype Error =
    | UnexpectedEof                      // a read that ran past the end of the source
    | Malformed(reason: string)          // a decoder rejected the bytes it was given
    | OffsetBeforeFieldTable(offset: nat) // offset_to_first_record < Header::SIZE
    | UnexpectedTerminator(found: bv8)   // the byte after the descriptors is not '\r'

  datatype Option<+T> = None | Some(value: T)

  datatype Result<+T> = Ok(value: T) | Err(error: Error)

  /** What a read from the byte source produced, and the position it left. */
  datatype Step<+T> = Step(result: Result<T>, next: nat)

  /** The part of the file header the reader uses. */
  datatype Header = Header(numRecords: u32, offsetToFirstRecord: u16)

  /** A column descriptor: its name, its dBASE type letter and its width in bytes. */
  datatype FieldInfo = FieldInfo(name: string, fieldType: char, length: u8)

  /** A decoded column value; its variants belong to the value decoder. */
  type FieldValue

  datatype Codec = Codec(
    header: seq<bv8> -> Result<Header>,
    fieldInfo: seq<bv8> -> Result<FieldInfo>,
    value: (FieldInfo, seq<bv8>) -> Result<FieldValue>)

  function Min(a: nat, b: nat): nat { if a <= b then a else b }

  /** `Read::read_exact`: `n` bytes from `pos`, or end-of-file when fewer remain. */
  function Take(bytes: seq<bv8>, pos: nat, n: nat): (s: Step<seq<bv8>>)
    requires pos <= |bytes|
    ensures s.next <= |bytes|
    ensures s.result.Ok? ==> |s.result.value| == n && s.next == pos + n
  {
    if pos + n <= |bytes| then Step(Ok(bytes[pos..pos + n]), pos + n)
    else Step(Err(UnexpectedEof), |bytes|)
  }

  /** `ReadBytesExt::read_u8`: one byte, or end-of-file. */
  function ReadU8(bytes: seq<bv8>, pos: nat): (s: Step<bv8>)
    requires pos <= |bytes|
    ensures s.next <= |bytes|
    ensures s.result.Ok? <==> pos < |bytes|
    ensures s.result.Ok? ==> s.result.value == bytes[pos] && s.next == pos + 1
  {
    if pos < |bytes| then Step(Ok(bytes[pos]), pos + 1) else Step(Err(UnexpectedEof), pos)
  }

  /** `Header::read_from`: decodes the next HEADER_SIZE bytes. */
  function ReadHeader(codec: Codec, bytes: seq<bv8>, pos: nat): (s: Step<Header>)
    requires pos <= |bytes|
    ensures s.next <= |bytes|
    ensures s.result.Ok? ==> s.next == pos + HEADER_SIZE
  {
    var raw := Take(bytes, pos, HEADER_SIZE);
    if raw.result.Err? then Step(Err(raw.result.error), raw.next)
    else Step(codec.header(raw.result.value), raw.next)
  }

  /** `RecordFieldInfo::read_from`: decodes the next FIELD_INFO_SIZE bytes. */
  function ReadFieldInfo(codec: Codec, bytes: seq<bv8>, pos: nat): (s: Step<FieldInfo>)
    requires pos <= |bytes|
    ensures s.next <= |bytes|
    ensures s.result.Ok? ==> s.next == pos + FIELD_INFO_SIZE
  {
    var raw := Take(bytes, pos, FIELD_INFO_SIZE);
    if raw.result.Err? then Step(Err(raw.result.error), raw.next)
    else Step(codec.fieldInfo(raw.result.value), raw.next)
  }

  /** `FieldValue::read_from`: decodes the next `info.length` bytes. */
  function ReadValue(codec: Codec, bytes: seq<bv8>, pos: nat, info: FieldInfo): (s: Step<FieldValue>)
    requires pos <= |bytes|
    ensures s.next == Min(pos + info.length, |bytes|)
    ensures s.result.Ok? ==> s.next == pos + info.length
  {
    var raw := Take(bytes, pos, info.length);
    if raw.result.Err? then Step(Err(raw.result.error), raw.next)
    else Step(codec.value(info, raw.result.value), raw.next)
  }
}
