/** The typed record constructors of `src/core/buffer.rs`: each takes a key
    and a native value, picks the record's type tag and serialises the value
    into the record's payload bytes. */
module RecordBuffer {
  import opened Endian

  /** Rust's `i32` and `i64`. */
  type i32 = x: int | -0x8000_0000 <= x < 0x8000_0000
  type i64 = x: int | -0x8000_0000_0000_0000 <= x < 0x8000_0000_0000_0000

  /** The record's type tag (the generated protobuf enum `Types`). */
  datatype Types =
    | Byte | ByteArray | Str | I32 | I64 | F32 | F64
    | I32Array | I64Array | F32Array | F64Array | Deleted

  /** The generated protobuf message `KV`: key, type tag and payload. */
  datatype KV = KV(key: string, typ: Types, value: seq<byte>)

  /** `Buffer`, the wrapper around one record. */
  datatype Buffer = Buffer(kv: KV)

  /** The native values the modelled constructors accept. A string is given
      by its UTF-8 bytes. */
  datatype Value =
    | BoolValue(flag: bool)
    | BytesValue(bytes: seq<byte>)
    | StrValue(utf8: seq<byte>)
    | I32Value(n32: i32)
    | I64Value(n64: i64)
    | I32ArrayValue(a32: seq<i32>)
    | I64ArrayValue(a64: seq<i64>)

  /** The payload of an `i32` array: the elements' big-endian encodings, stride 4. */
  function PackI32(xs: seq<i32>): (s: seq<byte>)
    ensures |s| == 4 * |xs|
  {
    HalfI32();
    Pack(xs, 4)
  }

  /** The payload of an `i64` array: the elements' big-endian encodings, stride 8. */
  function PackI64(xs: seq<i64>): (s: seq<byte>)
    ensures |s| == 8 * |xs|
  {
    HalfI64();
    Pack(xs, 8)
  }

  /** The value a record's payload holds, read according to its type tag:
      the inverse of the constructors below. A payload whose length does not
      fit its tag holds no value; neither do the floating-point tags (not
      modelled) nor a tombstone. */
  function Read(kv: KV): (r: Option<Value>)
  {
    match kv.typ
    case Byte => ReadBool(kv.value)
    case ByteArray => Some(BytesValue(kv.value))
    case Str => Some(StrValue(kv.value))
    case I32 => ReadI32(kv.value)
    case I64 => ReadI64(kv.value)
    case I32Array => ReadI32Array(kv.value)
    case I64Array => ReadI64Array(kv.value)
    case F32 => None
    case F64 => None
    case F32Array => None
    case F64Array => None
    case Deleted => None
  }

  function ReadBool(payload: seq<byte>): (r: Option<Value>)
  {
    if payload == [1] then Some(BoolValue(true))
    else if payload == [0] then Some(BoolValue(false))
    else None
  }

  function ReadI32(payload: seq<byte>): (r: Option<Value>)
  {
    if |payload| == 4 then HalfI32(); Some(I32Value(DecodeInt(payload))) else None
  }

  function ReadI64(payload: seq<byte>): (r: Option<Value>)
  {
    if |payload| == 8 then HalfI64(); Some(I64Value(DecodeInt(payload))) else None
  }

  function ReadI32Array(payload: seq<byte>): (r: Option<Value>)
  {
    if |payload| % 4 == 0 then
      HalfI32();
      var xs := Unpack(payload, 4);
      assert forall x | x in xs :: -0x8000_0000 <= x < 0x8000_0000;
      Some(I32ArrayValue(xs))
    else None
  }

  function ReadI64Array(payload: seq<byte>): (r: Option<Value>)
  {
    if |payload| % 8 == 0 then
      HalfI64();
      var xs := Unpack(payload, 8);
      assert forall x | x in xs :: -0x8000_0000_0000_0000 <= x < 0x8000_0000_0000_0000;
      Some(I64ArrayValue(xs))
    else None
  }

  /** A packed `i32` array reads back as the array. */
  lemma ReadPackI32(xs: seq<i32>)
    ensures ReadI32Array(PackI32(xs)) == Some(I32ArrayValue(xs))
  {
    HalfI32();
    var s := PackI32(xs);
    assert |s| % 4 == 0 by {
      assert |s| == 4 * |xs|;
    }
    UnpackPack(xs, 4);
  }

  /** A packed `i64` array reads back as the array. */
  lemma ReadPackI64(xs: seq<i64>)
    ensures ReadI64Array(PackI64(xs)) == Some(I64ArrayValue(xs))
  {
    HalfI64();
    var s := PackI64(xs);
    assert |s| % 8 == 0 by {
      assert |s| == 8 * |xs|;
    }
    UnpackPack(xs, 8);
  }

  /** `from_kv`: a record holding exactly the given key, tag and bytes. */
  function FromKV(key: string, t: Types, value: seq<byte>): (b: Buffer)
    ensures b.kv.key == key && b.kv.typ == t && b.kv.value == value
  {
    Buffer(KV(key, t, value))
  }

  /** `from_byte_array`: the bytes are the payload, unchanged. */
  function FromByteArray(key: string, value: seq<byte>): (b: Buffer)
    ensures b.kv.key == key && b.kv.typ == ByteArray && b.kv.value == value
    ensures Read(b.kv) == Some(BytesValue(value))
  {
    FromKV(key, ByteArray, value)
  }

  /** `from_bool`: a one-byte payload tagged `BYTE`, 1 for true and 0 for false. */
  function FromBool(key: string, value: bool): (b: Buffer)
    ensures b.kv.key == key && b.kv.typ == Byte
    ensures |b.kv.value| == 1 && (b.kv.value[0] == 1 <==> value) && (b.kv.value[0] == 0 <==> !value)
    ensures Read(b.kv) == Some(BoolValue(value))
  {
    FromKV(key, Byte, [if value then 1 else 0])
  }

  /** `form_str`: the string's UTF-8 bytes are the payload, unchanged. */
  function FormStr(key: string, utf8: seq<byte>): (b: Buffer)
    ensures b.kv.key == key && b.kv.typ == Str && b.kv.value == utf8
    ensures Read(b.kv) == Some(StrValue(utf8))
  {
    FromKV(key, Str, utf8)
  }

  /** `from_i32`: a 4-byte big-endian two's-complement payload that reads back
      as the value; its leading byte has the top bit set exactly for negative
      values. */
  function FromI32(key: string, value: i32): (b: Buffer)
    ensures b.kv.key == key && b.kv.typ == I32
    ensures |b.kv.value| == 4 && DecodeInt(b.kv.value) == value
    ensures value < 0 <==> b.kv.value[0] >= 0x80
    ensures Read(b.kv) == Some(I32Value(value))
  {
    HalfI32();
    EncodeIntSign(value, 4);
    FromKV(key, I32, EncodeInt(value, 4))
  }

  /** `from_i64`: an 8-byte big-endian two's-complement payload that reads back
      as the value. */
  function FromI64(key: string, value: i64): (b: Buffer)
    ensures b.kv.key == key && b.kv.typ == I64
    ensures |b.kv.value| == 8 && DecodeInt(b.kv.value) == value
    ensures value < 0 <==> b.kv.value[0] >= 0x80
    ensures Read(b.kv) == Some(I64Value(value))
  {
    HalfI64();
    EncodeIntSign(value, 8);
    FromKV(key, I64, EncodeInt(value, 8))
  }

  /** `form_i32_array`: the payload is built by extending a byte vector with
      each element's 4-byte big-endian encoding, in order. */
  method FormI32Array(key: string, value: seq<i32>) returns (b: Buffer)
    ensures b.kv.key == key && b.kv.typ == I32Array
    ensures |b.kv.value| == 4 * |value|
    ensures forall i :: 0 <= i < |value| ==> b.kv.value[4 * i .. 4 * i + 4] == EncodeInt(value[i], 4)
    ensures b.kv.value == PackI32(value)
    ensures Read(b.kv) == Some(I32ArrayValue(value))
  {
    HalfI32();
    var vec: seq<byte> := [];
    for i := 0 to |value|
      invariant vec == Pack(value[..i], 4)
    {
      assert value[..i + 1] == value[..i] + [value[i]];
      PackSnoc(value[..i], value[i], 4);
      vec := vec + EncodeInt(value[i], 4);
    }
    assert value[..|value|] == value;
    b := FromKV(key, I32Array, vec);
    forall i | 0 <= i < |value|
      ensures vec[4 * i .. 4 * i + 4] == EncodeInt(value[i], 4)
    {
      PackChunk(value, 4, i);
    }
    ReadPackI32(value);
  }

  /** `form_i64_array`: the payload is built by extending a byte vector with
      each element's 8-byte big-endian encoding, in order. */
  method FormI64Array(key: string, value: seq<i64>) returns (b: Buffer)
    ensures b.kv.key == key && b.kv.typ == I64Array
    ensures |b.kv.value| == 8 * |value|
    ensures forall i :: 0 <= i < |value| ==> b.kv.value[8 * i .. 8 * i + 8] == EncodeInt(value[i], 8)
    ensures b.kv.value == PackI64(value)
    ensures Read(b.kv) == Some(I64ArrayValue(value))
  {
    HalfI64();
    var vec: seq<byte> := [];
    for i := 0 to |value|
      invariant vec == Pack(value[..i], 8)
    {
      assert value[..i + 1] == value[..i] + [value[i]];
      PackSnoc(value[..i], value[i], 8);
      vec := vec + EncodeInt(value[i], 8);
    }
    assert value[..|value|] == value;
    b := FromKV(key, I64Array, vec);
    forall i | 0 <= i < |value|
      ensures vec[8 * i .. 8 * i + 8] == EncodeInt(value[i], 8)
    {
      PackChunk(value, 8, i);
    }
    ReadPackI64(value);
  }

  /** The record each value is stored as: the constructor its type selects
      (the array constructors by the payload they build). */
  function Construct(key: string, v: Value): (b: Buffer)
  {
    match v
    case BoolValue(f) => FromBool(key, f)
    case BytesValue(bs) => FromByteArray(key, bs)
    case StrValue(u) => FormStr(key, u)
    case I32Value(n) => FromI32(key, n)
    case I64Value(n) => FromI64(key, n)
    case I32ArrayValue(a) => FromKV(key, I32Array, PackI32(a))
    case I64ArrayValue(a) => FromKV(key, I64Array, PackI64(a))
  }

  /** Every constructed record reads back as the value it was built from. */
  lemma ReadConstruct(key: string, v: Value)
    ensures Construct(key, v).kv.key == key
    ensures Read(Construct(key, v).kv) == Some(v)
  {
    match v
    case I32ArrayValue(a) => ReadPackI32(a);
    case I64ArrayValue(a) => ReadPackI64(a);
    case _ =>
  }

  /** Every record that holds a value is the record its value is stored as:
      the constructors produce exactly the well-formed records, and no two
      values share an encoding. */
  lemma ConstructRead(kv: KV, v: Value)
    requires Read(kv) == Some(v)
    ensures Construct(kv.key, v) == Buffer(kv)
  {
    match kv.typ
    case I32 => DecodeEncodeInt(kv.value);
    case I64 => DecodeEncodeInt(kv.value);
    case I32Array =>
      HalfI32();
      PackUnpack(kv.value, 4, |kv.value| / 4);
    case I64Array =>
      HalfI64();
      PackUnpack(kv.value, 8, |kv.value| / 8);
    case _ =>
  }

  /** -1 is stored as FF FF FF FF. */
  lemma FromI32MinusOne(key: string)
    ensures FromI32(key, -1).kv.value == [0xFF, 0xFF, 0xFF, 0xFF]
  {
    MinusOneIsAllOnes();
  }
}
