/** Decoding of raw SDO bytes into typed values (`value_from_slice`). */
module ValueCodec {
  import opened Bytes
  import opened Wrappers
  import opened EcTypes

  /** Byte length a fixed-size conversion demands of the slice; 0 for the
      types that take a slice of any length. */
  function FixedWidth(dt: DataType): nat
  {
    match dt
    case I16 | U16 => 2
    case I32 | U32 | F32 => 4
    case I64 | U64 | F64 => 8
    case _ => 0
  }

  /** The data types that have a decoding; every other one is refused. */
  predicate Supported(dt: DataType)
  {
    match dt
    case Bool | Byte | I8 | I16 | I32 | I64 | U8 | U16 | U32 | U64 => true
    case F32 | F64 | String | U8Array | Raw => true
    case _ => false
  }

  /** The integer types, with their width in bytes. */
  function IntWidth(dt: DataType): nat
  {
    match dt
    case Byte | I8 | U8 => 1
    case I16 | U16 => 2
    case I32 | U32 => 4
    case I64 | U64 => 8
    case _ => 0
  }

  predicate Signed(dt: DataType)
  {
    dt == I8 || dt == I16 || dt == I32 || dt == I64
  }

  /** v is a value of data type dt: the variant that type decodes to. */
  predicate HasType(v: Value, dt: DataType)
  {
    match v
    case BoolValue(_) => dt == Bool
    case ByteValue(_) => dt == Byte
    case I8Value(_) => dt == I8
    case I16Value(_) => dt == I16
    case I32Value(_) => dt == I32
    case I64Value(_) => dt == I64
    case U8Value(_) => dt == U8
    case U16Value(_) => dt == U16
    case U32Value(_) => dt == U32
    case U64Value(_) => dt == U64
    case F32Value(_) => dt == F32
    case F64Value(_) => dt == F64
    case StringValue(_) => dt == String
    case U8ArrayValue(_) => dt == U8Array
    case RawValue(_) => dt == Raw
  }

  lemma Pow256Values()
    ensures Pow256(1) == 0x100 && Pow256(2) == 0x1_0000
    ensures Pow256(4) == 0x1_0000_0000 && Pow256(8) == 0x1_0000_0000_0000_0000
    ensures Half(1) == 0x80 && Half(2) == 0x8000
    ensures Half(4) == 0x8000_0000 && Half(8) == 0x8000_0000_0000_0000
  {
  }

  /** Bytes plus a data type give a value: an empty slice and an unknown
      type are errors, the fixed-size types demand a slice of exactly their
      width, and the result is always a value of the requested type. */
  function ValueFromSlice(dt: DataType, raw: seq<byte>): (r: Result<Value, Error>)
    ensures |raw| == 0 ==> r == Err(ValueFromEmptyBuf)
    ensures |raw| > 0 && !Supported(dt) ==> r == Err(UnsuportedDataType(dt))
    ensures |raw| > 0 && Supported(dt) ==>
      (r.Ok? <==> (FixedWidth(dt) == 0 || |raw| == FixedWidth(dt)))
    ensures |raw| > 0 && Supported(dt) && r.Err? ==> r.error == SliceLength
    ensures r.Ok? ==> HasType(r.value, dt)
  {
    if |raw| == 0 then Err(ValueFromEmptyBuf)
    else
      match dt
      case Bool => Ok(BoolValue(raw[0] == 1))
      case Byte => Ok(ByteValue(raw[0]))
      case I8 => Ok(I8Value(ToSigned(raw[0], 1)))
      case I16 | I32 | I64 | U16 | U32 | U64 | F32 | F64 =>
        if |raw| == FixedWidth(dt) then Ok(FixedValue(dt, raw)) else Err(SliceLength)
      case U8 => Ok(U8Value(raw[0]))
      case String => Ok(StringValue(raw))
      case U8Array => Ok(U8ArrayValue(raw))
      case Raw => Ok(RawValue(raw))
      case _ => Err(UnsuportedDataType(dt))
  }

  /** A slice of exactly a fixed-size type's width read big-endian as that
      type: two's complement for the signed integers, the bit pattern for
      the floating-point types. */
  function FixedValue(dt: DataType, raw: seq<byte>): (v: Value)
    requires FixedWidth(dt) > 0 && |raw| == FixedWidth(dt)
    ensures HasType(v, dt)
  {
    Pow256Values();
    match dt
    case I16 => I16Value(ToSigned(BeValue(raw), 2))
    case I32 => I32Value(ToSigned(BeValue(raw), 4))
    case I64 => I64Value(ToSigned(BeValue(raw), 8))
    case U16 => U16Value(BeValue(raw))
    case U32 => U32Value(BeValue(raw))
    case U64 => U64Value(BeValue(raw))
    case F32 => F32Value(BeValue(raw))
    case F64 => F64Value(BeValue(raw))
  }

  /** The integer carried by an integer value. */
  function IntOf(v: Value): int
  {
    match v
    case ByteValue(x) => x
    case I8Value(x) => x
    case I16Value(x) => x
    case I32Value(x) => x
    case I64Value(x) => x
    case U8Value(x) => x
    case U16Value(x) => x
    case U32Value(x) => x
    case U64Value(x) => x
    case _ => 0
  }

  /** Reference encoding of an integer value: its two's complement (or
      plain unsigned) big-endian bytes, as wide as its type. */
  function IntBytes(v: Value, dt: DataType): seq<byte>
    requires IntWidth(dt) > 0 && HasType(v, dt)
  {
    Pow256Values();
    var n := IntWidth(dt);
    if Signed(dt) then BeBytes(ToUnsigned(IntOf(v), n), n) else BeBytes(IntOf(v), n)
  }

  /** Round trip: decoding the big-endian bytes of any integer value of an
      integer type gives that value back. */
  lemma IntRoundTrip(v: Value, dt: DataType)
    requires IntWidth(dt) > 0 && HasType(v, dt)
    ensures ValueFromSlice(dt, IntBytes(v, dt)) == Ok(v)
  {
    Pow256Values();
    match v
    case ByteValue(x) => UnsignedRoundTrip(x, 1);
    case U8Value(x) => UnsignedRoundTrip(x, 1);
    case U16Value(x) => UnsignedRoundTrip(x, 2);
    case U32Value(x) => UnsignedRoundTrip(x, 4);
    case U64Value(x) => UnsignedRoundTrip(x, 8);
    case I8Value(x) => SignedRoundTrip(x, 1);
    case I16Value(x) => SignedRoundTrip(x, 2);
    case I32Value(x) => SignedRoundTrip(x, 4);
    case I64Value(x) => SignedRoundTrip(x, 8);
  }

  /** n big-endian bytes of an unsigned x read back as x. */
  lemma UnsignedRoundTrip(x: nat, n: nat)
    requires 0 < n && x < Pow256(n)
    ensures BeValue(BeBytes(x, n)) == x
    ensures n == 1 ==> BeBytes(x, n)[0] == x
  {
    BeValueOfBeBytes(x, n);
  }

  /** n big-endian two's complement bytes of a signed x read back as x. */
  lemma SignedRoundTrip(x: int, n: nat)
    requires 0 < n && -Half(n) <= x < Half(n)
    ensures BeValue(BeBytes(ToUnsigned(x, n), n)) < Pow256(n)
    ensures ToSigned(BeValue(BeBytes(ToUnsigned(x, n), n)), n) == x
    ensures n == 1 ==> ToSigned(BeBytes(ToUnsigned(x, n), n)[0], n) == x
  {
    UnsignedRoundTrip(ToUnsigned(x, n), n);
    ToSignedOfToUnsigned(x, n);
  }

  /** The other direction: a slice that decodes to an integer value is
      exactly the big-endian bytes of that value, so integer decoding loses
      nothing. */
  lemma IntDecodeExact(dt: DataType, raw: seq<byte>)
    requires IntWidth(dt) > 1 && ValueFromSlice(dt, raw).Ok?
    ensures IntBytes(ValueFromSlice(dt, raw).value, dt) == raw
  {
    Pow256Values();
    var n := IntWidth(dt);
    assert |raw| == n && ValueFromSlice(dt, raw).value == FixedValue(dt, raw);
    FixedIntOf(dt, raw);
    BeBytesOfBeValue(raw);
    if Signed(dt) {
      ToUnsignedOfToSigned(BeValue(raw), n);
    }
  }

  /** The integer a fixed-size integer type reads from its slice. */
  lemma FixedIntOf(dt: DataType, raw: seq<byte>)
    requires IntWidth(dt) > 1 && |raw| == FixedWidth(dt)
    ensures BeValue(raw) < Pow256(IntWidth(dt))
    ensures IntOf(FixedValue(dt, raw)) ==
      if Signed(dt) then ToSigned(BeValue(raw), IntWidth(dt)) else BeValue(raw)
  {
    Pow256Values();
  }

  /** Bool, Byte, I8 and U8 read only the first byte; any bytes after it
      are ignored. */
  lemma FirstByteOnly(dt: DataType, raw: seq<byte>)
    requires dt == Bool || dt == Byte || dt == I8 || dt == U8
    requires |raw| > 0
    ensures ValueFromSlice(dt, raw) == ValueFromSlice(dt, raw[..1])
  {
  }

  /** A Bool is true exactly when its first byte is 1: 0x02 decodes to false. */
  lemma BoolIsByteOne(raw: seq<byte>)
    requires |raw| > 0
    ensures ValueFromSlice(Bool, raw) == Ok(BoolValue(raw[0] == 1))
    ensures ValueFromSlice(Bool, [2]) == Ok(BoolValue(false))
  {
  }

  /** I8 reinterprets the first byte as two's complement: 0xFF is -1, 0x7F is 127. */
  lemma I8IsTwosComplement()
    ensures ValueFromSlice(I8, [0xFF]) == Ok(I8Value(-1))
    ensures ValueFromSlice(I8, [0x7F, 0xFF]) == Ok(I8Value(0x7F))
    ensures ValueFromSlice(I8, [0x80]) == Ok(I8Value(-0x80))
  {
  }

  /** The byte-string types pass the slice through unchanged. */
  lemma BytesPassThrough(raw: seq<byte>)
    requires |raw| > 0
    ensures ValueFromSlice(U8Array, raw) == Ok(U8ArrayValue(raw))
    ensures ValueFromSlice(Raw, raw) == Ok(RawValue(raw))
  {
  }

  /** Big-endian examples: the first byte is the most significant. */
  lemma BigEndianExamples()
    ensures ValueFromSlice(U16, [0x12, 0x34]) == Ok(U16Value(0x1234))
    ensures ValueFromSlice(I16, [0xFF, 0xFE]) == Ok(I16Value(-2))
    ensures ValueFromSlice(U32, [0x12, 0x34]) == Err(SliceLength)
    ensures ValueFromSlice(U16, [0x12, 0x34, 0x56]) == Err(SliceLength)
  {
  }
}
