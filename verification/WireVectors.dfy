/** The wire format in literal bytes: the type codes a set announces, and the
    reference vectors of the repository's own cases (types.h, flat_state.cpp,
    tests/test_codec.cpp). */
module WireVectors {
  import opened Types
  import opened Serializer
  import opened Codec
  import opened Replica
  import opened FlatState
  import BigEndian
  import VarInt
  import VarDecimal

  // ---------- Type codes ----------

  /** The alternatives of the C++ variant that several payloads share. */
  predicate SameAlternative(a: Payload, b: Payload) {
    || (a.Null? && b.Null?) || (a.Bool? && b.Bool?)
    || (a.U8? && b.U8?) || (a.U16? && b.U16?) || (a.U32? && b.U32?) || (a.U64? && b.U64?)
    || (a.I32? && b.I32?) || (a.I64? && b.I64?)
    || (IsFloat(a) && IsFloat(b)) || (IsDouble(a) && IsDouble(b))
    || (a.Str? && b.Str?) || (a.Bin? && b.Bin?)
  }

  lemma TypeByte(f: Frame)
    requires Encodable(f)
    ensures Body(f)[0] == f.frameType && Body(f)[5] == f.dataType
  {
  }

  /** The codes of the variant's alternatives. */
  predicate Codes(value: Payload, code: byte) {
    && (value.Null? ==> code == 0x00) && (value.Bool? ==> code == 0x01)
    && (value.U8? ==> code == 0x02) && (value.U16? ==> code == 0x03)
    && (value.U32? ==> code == 0x04) && (value.U64? ==> code == 0x05)
    && (value.I64? ==> code == 0x07) && (value.I32? ==> code == 0x0D)
    && (IsDouble(value) ==> code == 0x0E) && (IsFloat(value) ==> code == 0x0F)
    && (value.Str? ==> code == 0x0A) && (value.Bin? ==> code == 0x0B)
  }

  /** The data type byte of the frame is the code of the value's alternative. */
  ghost predicate Carries(f: Frame, value: Payload) {
    Encodable(f) && Codes(value, Body(f)[5])
  }

  lemma DetectedCodes(value: Payload)
    ensures Codes(value, DetectDataType(value))
  {
  }

  /** A set announces a new key, and sends its value, under the type code of the
      value's alternative. */
  lemma SetCarriesType(flat: Flat, prefix: string, next: u32, key: string, value: Payload)
    requires Allocates(flat, key, value) && Narrow(prefix + key) && Modelled(DetectDataType(value), value)
    ensures
      var frames := SetLeaf(flat, prefix, next, key, value).frames;
      |frames| >= 3 && forall f :: f in [frames[|frames| - 3], frames[|frames| - 1]] ==> Carries(f, value)
  {
    hide Modelled, Serialize, Body, Narrow, ClearKey, DetectDataType, Codes;
    var frames := SetLeaf(flat, prefix, next, key, value).frames;
    var item := Item(prefix + key, DetectDataType(value), value);
    assert frames[|frames| - 3] == KeyFrame(next, item) && frames[|frames| - 1] == ValueFrame(next, item);
    DetectedTypeIsExactIff(value);
    DetectedCodes(value);
    TypeByte(KeyFrame(next, item));
    TypeByte(ValueFrame(next, item));
  }

  /** Setting a live key gives it a new id and type if and only if the old and the
      new value are different alternatives. */
  lemma RetypesIff(flat: Flat, key: string, value: Payload)
    requires FlatInv(flat) && key in flat.entries
    ensures Allocates(flat, key, value) <==> !SameAlternative(flat.entries[key].value, value)
  {
  }

  // ---------- Frame codes ----------

  /** The first body byte of the frames of the state layer and the client. */
  lemma FrameCodes(id: u32, item: Item)
    requires Narrow(item.path) && Encodable(ValueFrame(id, item))
    ensures Body(KeyFrame(id, item))[0] == 0x00 && Body(ValueFrame(id, item))[0] == 0x01
    ensures Encodable(SYNC) && Body(SYNC)[0] == 0x04 && Encodable(RESET) && Body(RESET)[0] == 0x09
    ensures Encodable(DeleteFrame(id)) && Body(DeleteFrame(id))[0] == 0x22
  {
    hide Serialize, Modelled;
  }

  const SIGNALS: set<byte> := {0x04, 0x05, 0x06, 0x07, 0x09, 0x0A, 0x0B, 0x0C, 0x0F, 0x22, 0x23, 0xFF}

  /** Signals encode whatever payload they are given, and carry none. */
  lemma SignalsCarryNothing(f: Frame)
    requires f.frameType in SIGNALS
    ensures Encodable(f) && |Body(f)| == 6 && ParseBody(Body(f)) == Ok(f.(payload := Null))
  {
    hide Serialize, Modelled, ParseBody;
    ParseBodyOf(f);
  }

  /** Registrations take a path whatever their type; every other frame needs a
      payload its type takes, and is refused without one. */
  lemma OthersEncodeIff(f: Frame)
    requires f.frameType !in SIGNALS && ModelledFrame(f)
    ensures Encodable(f) <==> if f.frameType in {0x00, 0x02} then f.payload.Str? else Takes(f.dataType, f.payload)
    ensures Encodable(f) && f.frameType in {0x00, 0x02} ==> Body(f)[6..] == BytesOf(f.payload.text)
  {
    hide Serialize, Modelled, Takes;
    if f.frameType !in {0x00, 0x02} { WritableIff(f.dataType, f.payload); }
  }

  // ---------- Reference vectors ----------

  lemma PlainWrap(body: seq<byte>)
    requires DLE !in body
    ensures Wrap(body) == [0x10, 0x02] + body + [0x10, 0x03]
  {
    EscapePlain(body);
  }

  lemma NoBytes()
    ensures BigEndian.Bytes(0, 0) == []
  {
  }

  /** Bytes are the digits of a number in base 256. */
  lemma Append(n: nat, v: nat, b: byte)
    ensures BigEndian.Bytes(n + 1, 256 * v + b) == BigEndian.Bytes(n, v) + [b]
  {
  }

  lemma FourBytes(a: byte, b: byte, c: byte, d: byte)
    ensures BigEndian.Bytes(2, 0x100 * a + b) == [a, b]
    ensures BigEndian.Bytes(4, 0x100_0000 * a + 0x1_0000 * b + 0x100 * c + d) == [a, b, c, d]
  {
    hide BigEndian.Bytes;
    NoBytes();
    Append(0, 0, a);
    Append(1, a, b);
    Append(2, 0x100 * a + b, c);
    Append(3, 0x1_0000 * a + 0x100 * b + c, d);
  }

  /** A frame whose payload is these bytes. */
  lemma FrameOf(f: Frame, id: byte, payload: seq<byte>)
    requires Encodable(f) && RawPayload(f) == Ok(payload) && f.keyId == id
    requires DLE !in payload && f.frameType != DLE && f.dataType != DLE && id != DLE
    ensures FrameBytes(f) == [0x10, 0x02, f.frameType, 0x00, 0x00, 0x00, id, f.dataType] + payload + [0x10, 0x03]
  {
    hide Serialize, Modelled, Escape, BigEndian.Bytes;
    FourBytes(0, 0, 0, id);
    PlainWrap(Body(f));
  }

  lemma TrueVector()
    ensures
      var f := Frame(SERVER_VALUE, 1, TY_BOOL, Bool(true));
      Encodable(f) && FrameBytes(f) == [0x10, 0x02, 0x01, 0x00, 0x00, 0x00, 0x01, 0x01, 0x01, 0x10, 0x03]
  {
    hide Wrap, BigEndian.Bytes;
    FrameOf(Frame(SERVER_VALUE, 1, TY_BOOL, Bool(true)), 1, [0x01]);
  }

  lemma SyncVector()
    ensures Encodable(SYNC) && FrameBytes(SYNC) == [0x10, 0x02, 0x04, 0x00, 0x00, 0x00, 0x00, 0x00, 0x10, 0x03]
  {
    hide Wrap, BigEndian.Bytes;
    FrameOf(SYNC, 0, []);
  }

  lemma IntegerVector()
    ensures
      var f := Frame(SERVER_VALUE, 3, TY_VAR_INTEGER, I32(42));
      Encodable(f) && FrameBytes(f) == [0x10, 0x02, 0x01, 0x00, 0x00, 0x00, 0x03, 0x0D, 0x54, 0x10, 0x03]
  {
    hide Wrap, BigEndian.Bytes, Truncated;
    FrameOf(Frame(SERVER_VALUE, 3, TY_VAR_INTEGER, I32(42)), 3, [0x54]);
  }

  /** 3.14 in decimal form. */
  lemma DecimalVector()
    ensures
      var f := Frame(SERVER_VALUE, 4, TY_VAR_DOUBLE, Decimal(false, 2, 314));
      Encodable(f) && FrameBytes(f) == [0x10, 0x02, 0x01, 0x00, 0x00, 0x00, 0x04, 0x0E, 0x02, 0xBA, 0x02, 0x10, 0x03]
  {
    hide Wrap, BigEndian.Bytes, Truncated;
    assert VarInt.Bytes(314) == [0xBA] + VarInt.Bytes(2);
    assert VarDecimal.Write(false, 2, 314) == [0x02, 0xBA, 0x02];
    FrameOf(Frame(SERVER_VALUE, 4, TY_VAR_DOUBLE, Decimal(false, 2, 314)), 4, [0x02, 0xBA, 0x02]);
  }

  ghost predicate Writes(dt: DataType, p: Payload, bytes: seq<byte>) {
    Modelled(dt, p) && Serialize(dt, p) == Ok(bytes)
  }

  /** Numbers are big-endian, with signs by two's complement in the fixed fields. */
  lemma FixedFieldVectors()
    ensures Writes(TY_BOOL, Bool(false), [0x00]) && Writes(TY_UINT8, U8(7), [0x07])
    ensures Writes(TY_UINT16, U16(0x0102), [0x01, 0x02])
    ensures Writes(TY_UINT32, U32(0xDEAD_BEEF), [0xDE, 0xAD, 0xBE, 0xEF])
    ensures Writes(TY_INT32, I32(-2), [0xFF, 0xFF, 0xFF, 0xFE])
    ensures Writes(TY_FLOAT32, F32(0x0102_0304), [1, 2, 3, 4])
    ensures Writes(TY_VAR_FLOAT, F32(0x0102_0304), [0x80, 1, 2, 3, 4])
  {
    hide BigEndian.Bytes, Truncated;
    FourBytes(0x01, 0x02, 0x03, 0x04);
    FourBytes(0xDE, 0xAD, 0xBE, 0xEF);
    FourBytes(0xFF, 0xFF, 0xFF, 0xFE);
    assert [0x80] + [1, 2, 3, 4] == [0x80, 1, 2, 3, 4];
  }

  /** Zigzag puts the sign of a VarInteger last, a decimal has it in its first byte. */
  lemma VariableFieldVectors()
    ensures Writes(TY_VAR_INTEGER, I32(-1), [0x01]) && Writes(TY_VAR_INTEGER, I64(-2), [0x03])
    ensures Writes(TY_VAR_DOUBLE, Decimal(true, 1, 75), [0x41, 0x4B])
  {
    hide BigEndian.Bytes, Truncated;
    assert VarDecimal.Write(true, 1, 75) == [0x41, 0x4B];
  }

  lemma TextVectors(c: char, b: byte)
    requires c < 256 as char && c as int == b
    ensures Writes(TY_STRING, Str([c]), [b]) && Writes(TY_BINARY, Bin([b]), [b])
  {
    hide Truncated;
    var s := [c];
    assert Narrow(s) && s[1..] == [];
    assert BytesOf(s) == [b] + BytesOf(s[1..]) == [b];
  }

  lemma EightBytes()
    ensures BigEndian.Bytes(8, 0x0102_0304_0506_0708) == [1, 2, 3, 4, 5, 6, 7, 8]
  {
    hide BigEndian.Bytes;
    FourBytes(1, 2, 3, 4);
    Append(4, 0x0102_0304, 5);
    Append(5, 0x01_0203_0405, 6);
    Append(6, 0x0102_0304_0506, 7);
    Append(7, 0x01_0203_0405_0607, 8);
  }

  /** An int64, a timestamp, a uint64 and a double are the same eight bytes, under their own codes. */
  lemma WideFieldVectors()
    ensures Writes(TY_TIMESTAMP, I64(0x0102_0304_0506_0708), [1, 2, 3, 4, 5, 6, 7, 8])
    ensures Writes(TY_INT64, I64(0x0102_0304_0506_0708), [1, 2, 3, 4, 5, 6, 7, 8])
    ensures Writes(TY_UINT64, U64(0x0102_0304_0506_0708), [1, 2, 3, 4, 5, 6, 7, 8])
    ensures Writes(TY_FLOAT64, F64(0x0102_0304_0506_0708), [1, 2, 3, 4, 5, 6, 7, 8])
    ensures Writes(TY_VAR_DOUBLE, F64(0x0102_0304_0506_0708), [0x80, 1, 2, 3, 4, 5, 6, 7, 8])
  {
    hide BigEndian.Bytes, Truncated;
    EightBytes();
    assert [0x80] + [1, 2, 3, 4, 5, 6, 7, 8] == [0x80, 1, 2, 3, 4, 5, 6, 7, 8];
  }

  // ---------- Numbers that need all 17 digits ----------

  /** A number that prints with 17 significant digits never fits the decimal form. */
  lemma SeventeenDigitsAreRaw(whole: string, fraction: string)
    requires VarDecimal.AllDigits(whole) && VarDecimal.AllDigits(fraction) && whole != "" && whole[0] != '0'
    requires |whole| + |VarDecimal.TrimZeros(fraction)| == 17
    ensures VarDecimal.Form(whole, fraction).None?
  {
    hide VarDecimal.NatOf, VarDecimal.TrimZeros;
    var s := whole + VarDecimal.TrimZeros(fraction);
    LeadingDigit(s);
    VarDecimal.PowSeventeen();
    VarDecimal.PowSplit(1, 16);
    assert VarDecimal.Pow10(1) == 10 by { VarDecimal.PowZero(); }
  }

  lemma {:induction false} LeadingDigit(s: string)
    requires VarDecimal.AllDigits(s) && s != "" && s[0] != '0'
    ensures VarDecimal.NatOf(s) >= VarDecimal.Pow10(|s| - 1)
  {
    if |s| == 1 {
      assert s[..0] == "";
    } else {
      LeadingDigit(s[..|s| - 1]);
    }
  }

  /** So 3.14, which prints as 3.1400000000000001, is written raw and not as DecimalVector. */
  lemma PiIsRaw()
    ensures VarDecimal.Form("3", "1400000000000001").None?
  {
    var f := "1400000000000001";
    assert VarDecimal.TrimZeros(f) == f;
    SeventeenDigitsAreRaw("3", f);
  }
}
