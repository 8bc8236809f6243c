/** The records the master exchanges with its callers: CoE data types and
    values, entry access rights, dictionary and PDO descriptions, and the
    master's error type. */
module EcTypes {
  import opened Bytes
  import opened Wrappers

  /** Zero-based position of a slave on the bus (the engine addresses it as position + 1). */
  type SlavePos = u16

  /** (index, subindex) address of one dictionary entry. */
  datatype SdoIdx = SdoIdx(idx: u16, subIdx: u8)

  /** The CoE data types the master knows by name. */
  datatype DataType =
    | Bool | Byte
    | I8 | I16 | I32 | I64
    | U8 | U16 | U32 | U64
    | F32 | F64
    | String | U8Array | U16Array
    | I24 | I40 | I48 | I56
    | U24 | U40 | U48 | U56
    | Bit1 | Bit2 | Bit3 | Bit4 | Bit5 | Bit6 | Bit7 | Bit8
    | TimeOfDay | TimeDifference | Domain
    | Raw

  /** A decoded entry value. Integers carry their value, within the range
      of their width; the
      floating-point variants carry their IEEE-754 bit pattern; a string
      carries the bytes it was decoded from. */
  datatype Value =
    | BoolValue(b: bool)
    | ByteValue(byte: byte)
    | I8Value(i8: i8) | I16Value(i16: i16) | I32Value(i32: i32) | I64Value(i64: i64)
    | U8Value(u8: u8) | U16Value(u16: u16) | U32Value(u32: u32) | U64Value(u64: u64)
    | F32Value(f32Bits: u32) | F64Value(f64Bits: u64)
    | StringValue(utf8: seq<byte>)
    | U8ArrayValue(bytes: seq<byte>)
    | RawValue(raw: seq<byte>)

  /** Access to an entry in one AL state. */
  datatype Access = Unknown | ReadOnly | WriteOnly | ReadWrite

  /** Access to an entry in each of the PreOp, SafeOp and Op states. */
  datatype SdoEntryAccess = SdoEntryAccess(preOp: Access, safeOp: Access, op: Access)

  /** One top-level object of a slave's dictionary. */
  datatype SdoInfo = SdoInfo(pos: u16, idx: u16, maxSubIdx: u8, objectCode: u8, name: string)

  /** One decodable sub-entry of an object. */
  datatype SdoEntryInfo = SdoEntryInfo(dataType: DataType, bitLen: u16, access: SdoEntryAccess, description: string)

  /** An object with one slot per subindex 0..=maxSubIdx; a slot is None when
      the entry cannot be decoded. */
  datatype SdoObject = SdoObject(info: SdoInfo, entries: seq<Option<SdoEntryInfo>>)

  /** A slave's object dictionary, in the order the engine listed it. */
  type SdoTable = seq<SdoObject>

  /** One mapped entry of a PDO; `entryIdx` is also the SDO it exposes. */
  datatype PdoEntryInfo = PdoEntryInfo(pos: nat, entryIdx: SdoIdx, bitLen: u8, name: string)

  /** A PDO assigned to a sync manager. */
  datatype PdoInfo = PdoInfo(sm: u8, pos: nat, idx: u16, entryCount: u8, name: string)

  /** A PDO with its mapped entries. */
  datatype Pdo = Pdo(info: PdoInfo, entries: seq<PdoEntryInfo>)

  /** The master's errors, as far as the modelled operations raise them. */
  datatype Error =
    | ReadOdList(slave: SlavePos)
    | ReadOdDesc(pos: nat)
    | ReadOeList(pos: nat)
    | ReadSdo(slave: SlavePos, sdo: SdoIdx)
    | SubIdxNotFound(slave: SlavePos, sdo: SdoIdx)
    | IdxNotFound(slave: SlavePos, idx: u16)
    | UnexpectedDataType
    | ValueFromEmptyBuf
      /** A type without a decoding; the name keeps the code's spelling. */
    | UnsuportedDataType(dataType: DataType)
      /** A fixed-size conversion (`try_into`) met a slice of the wrong length. */
    | SliceLength
      /** A slice range outside the buffer, where the source panics. */
    | SliceOutOfRange
}
