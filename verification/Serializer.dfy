/** serialize and deserialize: one payload to bytes and back (serializer.cpp). */
module Serializer {
  import opened Types
  import VarInt
  import BigEndian
  import VarDecimal

  // ---------- Strings ----------

  function BytesOf(s: string): (bs: seq<byte>)
    requires Narrow(s)
    ensures |bs| == |s|
  {
    if s == "" then [] else [s[0] as int] + BytesOf(s[1..])
  }

  function StringOf(bs: seq<byte>): (s: string)
    ensures |s| == |bs| && Narrow(s)
  {
    if bs == [] then "" else [bs[0] as char] + StringOf(bs[1..])
  }

  lemma {:induction false} StringRoundTrip(s: string)
    requires Narrow(s)
    ensures StringOf(BytesOf(s)) == s
  {
    if s != "" { StringRoundTrip(s[1..]); }
  }

  // ---------- Payloads ----------

  predicate IsDouble(p: Payload) { p.F64? || p.Decimal? || p.Scientific? || p.Widened? }

  predicate IsFloat(p: Payload) { p.F32? || p.FloatDecimal? || p.FloatScientific? }

  /** The number is one the stream prints this way: reduced and not negative zero. */
  predicate Canonical(p: Payload) {
    && (p.Decimal? || p.FloatDecimal? ==>
          VarDecimal.InForm(p.scale, p.mantissa) && (p.scale > 0 ==> p.mantissa % 10 != 0)
          && (p.negative ==> p.mantissa > 0))
    && (p.Scientific? || p.FloatScientific? ==>
          0 < p.digit < 10 && (p.exponent < 0 || p.digit * VarDecimal.Pow10(p.exponent) >= TWO_64))
  }

  /** static_cast<int64_t> of a double, truncating; None when it is undefined. */
  function Truncated(p: Payload): Option<i64>
    requires IsDouble(p) && Canonical(p)
  {
    match p
    case F64(bits) => TruncatedDouble(bits)
    case Widened(bits) => TruncatedFloat(bits)
    case Decimal(n, s, m) => InRange(Some(if n then -(m / VarDecimal.Pow10(s)) else m / VarDecimal.Pow10(s)))
    case Scientific(_, _, k) => if k < 0 then Some(0) else None
  }

  function TruncatedDouble(bits: u64): Option<i64> {
    InRange(Truncate(bits >= 0x8000_0000_0000_0000, bits / TWO_52 % 2048, 2047, bits % TWO_52, TWO_52, 1075))
  }

  function TruncatedFloat(bits: u32): Option<i64> {
    InRange(Truncate(bits >= 0x8000_0000, bits / TWO_23 % 256, 255, bits % TWO_23, TWO_23, 150))
  }

  const TWO_52: int := 0x10_0000_0000_0000
  const TWO_23: int := 0x80_0000

  function InRange(v: Option<int>): Option<i64> {
    if v.Some? && -0x8000_0000_0000_0000 <= v.value < 0x8000_0000_0000_0000 then Some(v.value) else None
  }

  /** Integer part of an IEEE number with this sign, exponent field and fraction
      field; None for infinities and NaNs. */
  function Truncate(negative: bool, exponent: nat, top: nat, fraction: nat, hidden: nat, bias: nat): Option<int> {
    if exponent >= top then None
    else
      var significand := if exponent == 0 then fraction else hidden + fraction;
      var e := if exponent == 0 then 1 else exponent;
      var whole := if e >= bias then significand * Pow2(e - bias) else significand / Pow2(bias - e);
      Some(if negative then -whole else whole)
  }

  function Pow2(n: nat): (p: nat)
    ensures p > 0
  {
    if n == 0 then 1 else 2 * Pow2(n - 1)
  }

  /** The payloads whose encoding does not hinge on rounding between binary
      formats or on what the language leaves undefined. */
  predicate Modelled(dt: DataType, p: Payload) {
    && (p.Str? ==> Narrow(p.text)) && Canonical(p)
    && (dt == TY_FLOAT32 ==> !p.FloatDecimal? && !p.FloatScientific?)
    && (dt == TY_FLOAT64 ==> !p.Decimal? && !p.Scientific? && !p.Widened?)
    && (dt == TY_VAR_INTEGER && p.I64? ==> p.i64 > -0x8000_0000_0000_0000)
    && (dt == TY_VAR_INTEGER && IsDouble(p) ==> Truncated(p).Some? && Truncated(p).value > -0x8000_0000_0000_0000)
    && (dt == TY_VAR_DOUBLE ==> !p.Widened? && (p.Scientific? ==> p.exponent < 0))
    && (dt == TY_VAR_FLOAT ==> !p.F64? && !p.Widened? && !p.Scientific? && (p.FloatScientific? ==> p.exponent < 0))
  }

  function Serialize(dt: DataType, p: Payload): Result<seq<byte>>
    requires Modelled(dt, p)
  {
    if dt == TY_NULL then Ok([])
    else if dt == TY_BOOL then (if p.Bool? then Ok([if p.b then 1 else 0]) else Err(BadVariantAccess))
    else if dt == TY_UINT8 then (if p.U8? then Ok([p.u8]) else Err(BadVariantAccess))
    else if dt == TY_UINT16 then (if p.U16? then Ok(BigEndian.Bytes(2, p.u16)) else Err(BadVariantAccess))
    else if dt == TY_UINT32 then (if p.U32? then Ok(BigEndian.Bytes(4, p.u32)) else Err(BadVariantAccess))
    else if dt == TY_UINT64 then (if p.U64? then Ok(BigEndian.Bytes(8, p.u64)) else Err(BadVariantAccess))
    else if dt == TY_INT32 then
      (if p.I32? then Ok(BigEndian.Bytes(4, BigEndian.Unsigned32(p.i32))) else Err(BadVariantAccess))
    else if dt == TY_INT64 || dt == TY_TIMESTAMP then
      (if p.I64? then Ok(BigEndian.Bytes(8, BigEndian.Unsigned64(p.i64))) else Err(BadVariantAccess))
    else if dt == TY_FLOAT32 then (if p.F32? then Ok(BigEndian.Bytes(4, p.f32)) else Err(BadVariantAccess))
    else if dt == TY_FLOAT64 then (if p.F64? then Ok(BigEndian.Bytes(8, p.f64)) else Err(BadVariantAccess))
    else if dt == TY_STRING then (if p.Str? then Ok(BytesOf(p.text)) else Err(BadVariantAccess))
    else if dt == TY_BINARY then (if p.Bin? then Ok(p.bytes) else Err(BadVariantAccess))
    else if dt == TY_VAR_INTEGER then
      (match p
       case I32(v) => Ok(VarInt.Bytes(VarInt.Zigzag(v)))
       case I64(v) => Ok(VarInt.Bytes(VarInt.Zigzag(v)))
       case _ => if IsDouble(p) then Ok(VarInt.Bytes(VarInt.Zigzag(Truncated(p).value))) else Err(InvalidValueType))
    else if dt == TY_VAR_DOUBLE then
      (match p
       case F64(bits) => Ok([0x80] + BigEndian.Bytes(8, bits))
       case Decimal(n, s, m) => Ok(VarDecimal.Write(n, s, m))
       case Scientific(n, _, _) => Ok(VarDecimal.Write(n, 0, 0))
       case _ => Err(BadVariantAccess))
    else if dt == TY_VAR_FLOAT then
      (match p
       case F32(bits) => Ok([0x80] + BigEndian.Bytes(4, bits))
       case FloatDecimal(n, s, m) => Ok(VarDecimal.Write(n, s, m))
       case Decimal(n, s, m) => Ok(VarDecimal.Write(n, s, m))
       case FloatScientific(n, _, _) => Ok(VarDecimal.Write(n, 0, 0))
       case _ => Err(BadVariantAccess))
    else Err(UnknownDataType)
  }

  function DeserializeDecimal(data: seq<byte>): Payload
    requires data != []
  {
    var (n, s, m) := VarDecimal.Read(data);
    Decimal(n, s, m)
  }

  function Deserialize(dt: DataType, data: seq<byte>): Result<Payload> {
    if DataTypeSize(dt) >= 0 && |data| != DataTypeSize(dt) then Err(PayloadSizeMismatch)
    else if dt == TY_NULL then Ok(Null)
    else if dt == TY_BOOL then
      (if data[0] == 1 then Ok(Bool(true)) else if data[0] == 0 then Ok(Bool(false)) else Err(InvalidValueType))
    else if dt == TY_UINT8 then Ok(U8(data[0]))
    else if dt == TY_UINT16 then (BigEndian.WriteRead(data); BigEndian.Powers(); Ok(U16(BigEndian.Value(data))))
    else if dt == TY_UINT32 then (BigEndian.WriteRead(data); BigEndian.Powers(); Ok(U32(BigEndian.Value(data))))
    else if dt == TY_UINT64 then (BigEndian.WriteRead(data); BigEndian.Powers(); Ok(U64(BigEndian.Value(data))))
    else if dt == TY_INT32 then
      (BigEndian.WriteRead(data); BigEndian.Powers(); Ok(I32(BigEndian.Signed32(BigEndian.Value(data)))))
    else if dt == TY_INT64 || dt == TY_TIMESTAMP then
      (BigEndian.WriteRead(data); BigEndian.Powers(); Ok(I64(BigEndian.Signed64(BigEndian.Value(data)))))
    else if dt == TY_FLOAT32 then (BigEndian.WriteRead(data); BigEndian.Powers(); Ok(F32(BigEndian.Value(data))))
    else if dt == TY_FLOAT64 then (BigEndian.WriteRead(data); BigEndian.Powers(); Ok(F64(BigEndian.Value(data))))
    else if dt == TY_STRING then Ok(Str(StringOf(data)))
    else if dt == TY_BINARY then Ok(Bin(data))
    else if dt == TY_VAR_INTEGER then
      (if data == [] then Err(PayloadSizeMismatch)
       else
         Ok(Narrowed(VarInt.Unzigzag(VarInt.Sum(data) % TWO_64))))
    else if dt == TY_VAR_DOUBLE then
      (if data == [] then Err(PayloadSizeMismatch)
       else if data[0] == 0x80 then
         (if |data| < 9 then Err(PayloadSizeMismatch)
          else (BigEndian.WriteRead(data[1..9]); BigEndian.Powers(); Ok(F64(BigEndian.Value(data[1..9])))))
       else Ok(DeserializeDecimal(data)))
    else if dt == TY_VAR_FLOAT then
      (if data == [] then Err(PayloadSizeMismatch)
       else if data[0] == 0x80 then
         (if |data| < 5 then Err(PayloadSizeMismatch)
          else (BigEndian.WriteRead(data[1..5]); BigEndian.Powers(); Ok(Widened(BigEndian.Value(data[1..5])))))
       else Ok(DeserializeDecimal(data)))
    else Err(UnknownDataType)
  }

  /** An int32 when it fits, else an int64. */
  function Narrowed(v: i64): Payload {
    if -0x8000_0000 <= v < 0x8000_0000 then I32(v) else I64(v)
  }

  /** What a payload reads back as. Null frames, wide VarIntegers in the int32
      range, doubles sent as VarIntegers and floats sent as VarFloat come back in
      another form; a number that prints with a negative exponent and no dot
      comes back as zero. */
  function Normal(dt: DataType, p: Payload): Payload {
    if dt == TY_NULL then Null
    else if dt == TY_VAR_INTEGER && p.I64? then Narrowed(p.i64)
    else if dt == TY_VAR_INTEGER && IsDouble(p) && Canonical(p) && Truncated(p).Some? then Narrowed(Truncated(p).value)
    else if (dt == TY_VAR_DOUBLE && p.Scientific?) || (dt == TY_VAR_FLOAT && p.FloatScientific?) then Decimal(p.negative, 0, 0)
    else if dt == TY_VAR_FLOAT && p.F32? then Widened(p.f32)
    else if dt == TY_VAR_FLOAT && p.FloatDecimal? then Decimal(p.negative, p.scale, p.mantissa)
    else p
  }

  // ---------- Round trip ----------

  lemma FixedWord(n: nat, v: nat)
    requires v < BigEndian.Pow256(n)
    ensures BigEndian.Value(BigEndian.Bytes(n, v)) == v
  {
    BigEndian.ReadWrite(n, v);
  }

  lemma FixedRoundTrip(dt: DataType, p: Payload)
    requires Modelled(dt, p) && DataTypeSize(dt) > 1
    requires Serialize(dt, p).Ok?
    ensures Deserialize(dt, Serialize(dt, p).value) == Ok(p)
  {
    BigEndian.Powers();
    match p
    case U16(v) => FixedWord(2, v);
    case U32(v) => FixedWord(4, v);
    case U64(v) => FixedWord(8, v);
    case I32(v) => FixedWord(4, BigEndian.Unsigned32(v));
    case I64(v) => FixedWord(8, BigEndian.Unsigned64(v));
    case F32(v) => FixedWord(4, v);
    case F64(v) => FixedWord(8, v);
    case _ => assert false;
  }

  lemma IntegerReads(v: i64)
    requires v > -0x8000_0000_0000_0000
    ensures Deserialize(TY_VAR_INTEGER, VarInt.Bytes(VarInt.Zigzag(v))) == Ok(Narrowed(v))
  {
    hide VarInt.Zigzag, VarInt.Unzigzag, VarInt.Sum;
    VarInt.ZigzagRoundTrip(v, []);
    var bs := VarInt.Bytes(VarInt.Zigzag(v));
    assert bs + [] == bs;
  }

  lemma VarIntegerRoundTrip(p: Payload)
    requires Modelled(TY_VAR_INTEGER, p) && Serialize(TY_VAR_INTEGER, p).Ok?
    ensures Deserialize(TY_VAR_INTEGER, Serialize(TY_VAR_INTEGER, p).value) == Ok(Normal(TY_VAR_INTEGER, p))
  {
    hide Truncated, Canonical, Deserialize, VarInt.Zigzag, VarInt.Bytes;
    IntegerReads(if p.I32? then p.i32 else if p.I64? then p.i64 else Truncated(p).value);
  }

  lemma VarRealRoundTrip(dt: DataType, p: Payload)
    requires dt == TY_VAR_DOUBLE || dt == TY_VAR_FLOAT
    requires Modelled(dt, p) && Serialize(dt, p).Ok?
    ensures Deserialize(dt, Serialize(dt, p).value) == Ok(Normal(dt, p))
  {
    hide Deserialize, Truncated;
    match p
    case F32(v) => RawReads(v, 0);
    case F64(v) => RawReads(0, v);
    case Decimal(n, s, m) => DecimalReads(dt, n, s, m);
    case FloatDecimal(n, s, m) => DecimalReads(dt, n, s, m);
    case Scientific(n, _, _) => DecimalReads(dt, n, 0, 0);
    case FloatScientific(n, _, _) => DecimalReads(dt, n, 0, 0);
    case _ => assert false;
  }

  lemma DecimalReads(dt: DataType, negative: bool, scale: nat, mantissa: nat)
    requires (dt == TY_VAR_DOUBLE || dt == TY_VAR_FLOAT) && VarDecimal.InForm(scale, mantissa)
    ensures Deserialize(dt, VarDecimal.Write(negative, scale, mantissa)) == Ok(Decimal(negative, scale, mantissa))
  {
    hide VarDecimal.Read;
    VarDecimal.ReadWrite(negative, scale, mantissa);
  }

  lemma RawReads(single: u32, double: u64)
    ensures Deserialize(TY_VAR_FLOAT, [0x80] + BigEndian.Bytes(4, single)) == Ok(Widened(single))
    ensures Deserialize(TY_VAR_DOUBLE, [0x80] + BigEndian.Bytes(8, double)) == Ok(F64(double))
  {
    BigEndian.Powers();
    FixedWord(4, single);
    FixedWord(8, double);
    assert ([0x80] + BigEndian.Bytes(4, single))[1..5] == BigEndian.Bytes(4, single);
    assert ([0x80] + BigEndian.Bytes(8, double))[1..9] == BigEndian.Bytes(8, double);
  }

  /** Every payload that can be serialized reads back as its normal form. */
  lemma RoundTrip(dt: DataType, p: Payload)
    requires Modelled(dt, p) && Serialize(dt, p).Ok?
    ensures Deserialize(dt, Serialize(dt, p).value) == Ok(Normal(dt, p))
  {
    if DataTypeSize(dt) > 1 {
      FixedRoundTrip(dt, p);
    } else if dt == TY_VAR_INTEGER {
      VarIntegerRoundTrip(p);
    } else if dt == TY_VAR_DOUBLE || dt == TY_VAR_FLOAT {
      VarRealRoundTrip(dt, p);
    } else if p.Str? {
      StringRoundTrip(p.text);
    }
  }

  /** The types whose bytes are the value, with nothing to choose. */
  predicate IsDirect(dt: DataType) { DataTypeSize(dt) >= 0 || dt == TY_STRING || dt == TY_BINARY }

  /** Whatever can be read can be written under the same type, and for the direct
      types as the very bytes it was read from. */
  lemma ReadableIsWritable(dt: DataType, data: seq<byte>)
    requires Deserialize(dt, data).Ok? && Modelled(dt, Deserialize(dt, data).value)
    ensures Serialize(dt, Deserialize(dt, data).value).Ok?
    ensures IsDirect(dt) ==> Serialize(dt, Deserialize(dt, data).value) == Ok(data)
  {
    hide Truncated;
    if DataTypeSize(dt) > 1 {
      FixedIsWritable(dt, data);
    } else if dt == TY_VAR_DOUBLE || dt == TY_VAR_FLOAT || dt == TY_VAR_INTEGER {
      VariableIsWritable(dt, data);
    } else {
      BytesRoundTrip(data);
      assert |data| == 1 ==> data == [data[0]];
    }
  }

  lemma FixedIsWritable(dt: DataType, data: seq<byte>)
    requires DataTypeSize(dt) > 1 && Deserialize(dt, data).Ok? && Modelled(dt, Deserialize(dt, data).value)
    ensures Serialize(dt, Deserialize(dt, data).value) == Ok(data)
  {
    hide Truncated;
    BigEndian.WriteRead(data);
  }

  lemma VariableIsWritable(dt: DataType, data: seq<byte>)
    requires dt == TY_VAR_DOUBLE || dt == TY_VAR_FLOAT || dt == TY_VAR_INTEGER
    requires Deserialize(dt, data).Ok? && Modelled(dt, Deserialize(dt, data).value)
    ensures Serialize(dt, Deserialize(dt, data).value).Ok?
  {
    hide Truncated, VarInt.Zigzag, VarInt.Bytes, VarInt.Sum, VarInt.Unzigzag;
  }

  // ---------- What is refused, and how ----------

  /** The type code says which alternative it takes; Null takes any, VarInteger
      also an int64 or a double, VarFloat also a decimal double. */
  predicate Takes(dt: DataType, p: Payload) {
    || dt == 0x00
    || (dt == 0x01 && p.Bool?) || (dt == 0x02 && p.U8?) || (dt == 0x03 && p.U16?)
    || (dt == 0x04 && p.U32?) || (dt == 0x05 && p.U64?) || (dt == 0x06 && p.I32?)
    || (dt in {0x07, 0x0C} && p.I64?) || (dt == 0x08 && p.F32?) || (dt == 0x09 && p.F64?)
    || (dt == 0x0A && p.Str?) || (dt == 0x0B && p.Bin?)
    || (dt == 0x0D && (p.I32? || p.I64? || IsDouble(p)))
    || (dt == 0x0E && IsDouble(p)) || (dt == 0x0F && (IsFloat(p) || p.Decimal?))
  }

  /** A payload of another alternative is a bad variant access, or the error VarInteger
      raises itself; a code beyond the sixteen is an unknown type. */
  lemma WritableIff(dt: DataType, p: Payload)
    requires Modelled(dt, p)
    ensures Serialize(dt, p).Ok? <==> Takes(dt, p)
    ensures !Takes(dt, p) ==>
              Serialize(dt, p) == Err(if dt > 0x0F then UnknownDataType else if dt == 0x0D then InvalidValueType else BadVariantAccess)
  {
    hide Truncated, Canonical, VarDecimal.Write, VarInt.Bytes, BigEndian.Bytes;
  }

  /** The bytes a type can be read from: as many as it needs, and a bool is 0 or 1. */
  predicate Readable(dt: DataType, data: seq<byte>) {
    || (dt == 0x00 && data == []) || (dt == 0x01 && data in {[0], [1]}) || (dt == 0x02 && |data| == 1)
    || (dt == 0x03 && |data| == 2) || (dt in {0x04, 0x06, 0x08} && |data| == 4)
    || (dt in {0x05, 0x07, 0x09, 0x0C} && |data| == 8) || dt in {0x0A, 0x0B}
    || (dt in {0x0D, 0x0E, 0x0F} && data != [] && (dt == 0x0E && data[0] == 0x80 ==> |data| >= 9)
        && (dt == 0x0F && data[0] == 0x80 ==> |data| >= 5))
  }

  lemma ReadableIff(dt: DataType, data: seq<byte>)
    ensures Deserialize(dt, data).Ok? <==> Readable(dt, data)
    ensures !Readable(dt, data) ==>
              Deserialize(dt, data) == Err(if dt > 0x0F then UnknownDataType
                                           else if dt == 0x01 && |data| == 1 then InvalidValueType else PayloadSizeMismatch)
  {
    hide DeserializeDecimal, BigEndian.Value, StringOf, VarInt.Sum;
    assert |data| == 1 ==> data == [data[0]];
  }

  lemma {:induction false} BytesRoundTrip(bs: seq<byte>)
    ensures BytesOf(StringOf(bs)) == bs
  {
    if bs != [] { BytesRoundTrip(bs[1..]); }
  }

  /** The cast of a double to an integer truncates toward zero. */
  lemma TruncatesDecimal(p: Payload)
    requires p.Decimal? && Canonical(p) && Truncated(p).Some?
    ensures
      var t := Truncated(p).value;
      && (p.negative ==> t <= 0 && -t * VarDecimal.Pow10(p.scale) <= p.mantissa < (1 - t) * VarDecimal.Pow10(p.scale))
      && (!p.negative ==> t >= 0 && t * VarDecimal.Pow10(p.scale) <= p.mantissa < (t + 1) * VarDecimal.Pow10(p.scale))
  {
    TruncatedDecimalIs(p);
    hide *;
    IntegerPart(p.mantissa, VarDecimal.Pow10(p.scale));
  }

  lemma TruncatedDecimalIs(p: Payload)
    requires p.Decimal? && Canonical(p) && Truncated(p).Some?
    ensures p.mantissa / VarDecimal.Pow10(p.scale) == if p.negative then -Truncated(p).value else Truncated(p).value
    ensures VarDecimal.Pow10(p.scale) > 0 && p.mantissa / VarDecimal.Pow10(p.scale) >= 0
  {
    hide TruncatedDouble, TruncatedFloat, VarDecimal.Pow10;
  }

  lemma IntegerPart(m: nat, d: nat)
    requires d > 0
    ensures m / d * d <= m < (m / d + 1) * d
  {
    assert m == m / d * d + m % d;
  }

  lemma {:induction false} PowersOfTwo(a: nat, b: nat)
    ensures Pow2(a + b) == Pow2(a) * Pow2(b)
  {
    if a > 0 { PowersOfTwo(a - 1, b); }
  }

  lemma SmallPowersOfTwo()
    ensures Pow2(0) == 1 && Pow2(1) == 2 && Pow2(3) == 8 && Pow2(5) == 32
  {
    assert Pow2(2) == 4;
    assert Pow2(4) == 16;
  }

  lemma SomePowersOfTwo()
    ensures Pow2(0) == 1 && Pow2(1) == 2 && Pow2(23) == 0x80_0000
    ensures Pow2(51) == 0x8_0000_0000_0000 && Pow2(53) == 0x20_0000_0000_0000
  {
    hide Pow2;
    SmallPowersOfTwo();
    PowersOfTwo(5, 5);
    PowersOfTwo(10, 10);
    PowersOfTwo(20, 3);
    PowersOfTwo(20, 20);
    PowersOfTwo(40, 10);
    PowersOfTwo(50, 1);
    PowersOfTwo(50, 3);
  }

  /** Known bit patterns: pi and minus e; 2^53, a half and infinity; the floats 1.5 and minus infinity. */
  lemma TruncatedPatterns()
    ensures TruncatedDouble(0x4009_21FB_5444_2D18) == Some(3) && TruncatedDouble(0xC005_BF0A_8B14_5769) == Some(-2)
  {
    TruncatedPi();
    TruncatedMinusE();
  }

  lemma TruncatedPi()
    ensures TruncatedDouble(0x4009_21FB_5444_2D18) == Some(3)
  {
    hide Pow2;
    SomePowersOfTwo();
  }

  lemma TruncatedMinusE()
    ensures TruncatedDouble(0xC005_BF0A_8B14_5769) == Some(-2)
  {
    hide Pow2;
    SomePowersOfTwo();
  }

  lemma MoreTruncatedPatterns()
    ensures TruncatedDouble(0x4340_0000_0000_0000) == Some(0x20_0000_0000_0000)
    ensures TruncatedDouble(0x3FE0_0000_0000_0000) == Some(0) && TruncatedDouble(0x7FF0_0000_0000_0000) == None
  {
    hide Pow2;
    SomePowersOfTwo();
  }

  lemma TruncatedFloatPattern()
    ensures TruncatedFloat(0x3FC0_0000) == Some(1) && TruncatedFloat(0xFF80_0000) == None
  {
    hide Pow2;
    SomePowersOfTwo();
  }

  /** Under the type the state layer detects, every value serializes, and reads
      back unchanged if and only if it is not a float and does not print with a
      negative exponent and no dot. */
  lemma DetectedTypeIsExactIff(p: Payload)
    requires Modelled(DetectDataType(p), p)
    ensures Serialize(DetectDataType(p), p).Ok?
    ensures Deserialize(DetectDataType(p), Serialize(DetectDataType(p), p).value) == Ok(p) <==> !IsFloat(p) && !p.Scientific?
  {
    RoundTrip(DetectDataType(p), p);
  }
}
