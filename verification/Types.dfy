/** Wire constants, payload values and frames (types.h), and the error codes of DanWSError. */
module Types {

  // Integer widths of the C++ types, as ranges of int.
  type byte = x: int | 0 <= x < 0x100
  type u16 = x: int | 0 <= x < 0x1_0000
  type u32 = x: int | 0 <= x < 0x1_0000_0000
  type u64 = x: int | 0 <= x < 0x1_0000_0000_0000_0000
  type i32 = x: int | -0x8000_0000 <= x < 0x8000_0000
  type i64 = x: int | -0x8000_0000_0000_0000 <= x < 0x8000_0000_0000_0000

  const TWO_32: int := 0x1_0000_0000
  const TWO_64: int := 0x1_0000_0000_0000_0000

  // Control characters
  const DLE: byte := 0x10
  const STX: byte := 0x02
  const ETX: byte := 0x03
  const ENQ: byte := 0x05

  // A C++ `enum class : uint8_t` can hold any byte, named or not, and the
  // decoders cast without checking; both enums are therefore bytes here.
  type DataType = byte
  const TY_NULL: DataType := 0x00
  const TY_BOOL: DataType := 0x01
  const TY_UINT8: DataType := 0x02
  const TY_UINT16: DataType := 0x03
  const TY_UINT32: DataType := 0x04
  const TY_UINT64: DataType := 0x05
  const TY_INT32: DataType := 0x06
  const TY_INT64: DataType := 0x07
  const TY_FLOAT32: DataType := 0x08
  const TY_FLOAT64: DataType := 0x09
  const TY_STRING: DataType := 0x0A
  const TY_BINARY: DataType := 0x0B
  const TY_TIMESTAMP: DataType := 0x0C
  const TY_VAR_INTEGER: DataType := 0x0D
  const TY_VAR_DOUBLE: DataType := 0x0E
  const TY_VAR_FLOAT: DataType := 0x0F

  type FrameType = byte
  const SERVER_KEY_REGISTRATION: FrameType := 0x00
  const SERVER_VALUE: FrameType := 0x01
  const CLIENT_KEY_REGISTRATION: FrameType := 0x02
  const CLIENT_VALUE: FrameType := 0x03
  const SERVER_SYNC: FrameType := 0x04
  const CLIENT_READY: FrameType := 0x05
  const CLIENT_SYNC: FrameType := 0x06
  const SERVER_READY: FrameType := 0x07
  const ERROR_FRAME: FrameType := 0x08
  const SERVER_RESET: FrameType := 0x09
  const CLIENT_RESYNC_REQ: FrameType := 0x0A
  const CLIENT_RESET: FrameType := 0x0B
  const SERVER_RESYNC_REQ: FrameType := 0x0C
  const IDENTIFY: FrameType := 0x0D
  const AUTH: FrameType := 0x0E
  const AUTH_OK: FrameType := 0x0F
  const AUTH_FAIL: FrameType := 0x11
  const ARRAY_SHIFT_LEFT: FrameType := 0x20
  const ARRAY_SHIFT_RIGHT: FrameType := 0x21
  const SERVER_KEY_DELETE: FrameType := 0x22
  const CLIENT_KEY_REQUEST: FrameType := 0x23
  const SERVER_FLUSH_END: FrameType := 0xFF

  /** The payload variant. A floating-point value is one of these, by how the
      stream prints its absolute value (module Doubles makes the choice):
      - Decimal, FloatDecimal: it prints as a decimal number that fits the form of
        VarDouble; it is (-1)^negative * mantissa / 10^scale, not negative zero;
      - Scientific, FloatScientific: it prints as one digit and an exponent, without
        a dot, and is below one or at least 2^64: (-1)^negative * digit * 10^exponent;
      - F64, F32: every other, by its bit pattern.
      Widened is the double a float becomes when VarFloat's raw form is read back. */
  datatype Payload =
    | Null
    | Bool(b: bool)
    | U8(u8: byte)
    | U16(u16: u16)
    | U32(u32: u32)
    | U64(u64: u64)
    | I32(i32: i32)
    | I64(i64: i64)
    | F32(f32: u32)
    | F64(f64: u64)
    | Decimal(negative: bool, scale: nat, mantissa: nat)
    | FloatDecimal(negative: bool, scale: nat, mantissa: nat)
    | Scientific(negative: bool, digit: nat, exponent: int)
    | FloatScientific(negative: bool, digit: nat, exponent: int)
    | Widened(widened: u32)
    | Str(text: string)
    | Bin(bytes: seq<byte>)

  datatype Frame = Frame(frameType: FrameType, keyId: u32, dataType: DataType, payload: Payload)

  datatype Error =
    | FrameParseError
    | InvalidDleSequence
    | UnexpectedByte
    | BufferExceeded
    | PayloadSizeMismatch
    | InvalidValueType
    | UnknownDataType
    | BadVariantAccess
    | InvalidKeyPath
    | KeyLimitExceeded
    | InvalidMode
    | InvalidPrincipal

  datatype Result<+T> = Ok(value: T) | Err(error: Error)

  datatype Option<+T> = None | Some(value: T)

  predicate IsSignalFrame(ft: FrameType) {
    || ft == SERVER_SYNC || ft == CLIENT_READY || ft == CLIENT_SYNC || ft == SERVER_READY
    || ft == SERVER_RESET || ft == CLIENT_RESYNC_REQ || ft == CLIENT_RESET
    || ft == SERVER_RESYNC_REQ || ft == AUTH_OK || ft == SERVER_FLUSH_END
    || ft == SERVER_KEY_DELETE || ft == CLIENT_KEY_REQUEST
  }

  predicate IsKeyRegistrationFrame(ft: FrameType) {
    ft == SERVER_KEY_REGISTRATION || ft == CLIENT_KEY_REGISTRATION
  }

  /** Fixed payload sizes; -1 means variable length or unknown type. */
  function DataTypeSize(dt: DataType): int {
    if dt == TY_NULL then 0
    else if dt == TY_BOOL || dt == TY_UINT8 then 1
    else if dt == TY_UINT16 then 2
    else if dt == TY_UINT32 || dt == TY_INT32 || dt == TY_FLOAT32 then 4
    else if dt == TY_UINT64 || dt == TY_INT64 || dt == TY_FLOAT64 || dt == TY_TIMESTAMP then 8
    else -1
  }

  /** The type a value is announced with (FlatState::detectDataType and its twin in the client). */
  function DetectDataType(value: Payload): DataType {
    match value
    case Null => TY_NULL
    case Bool(_) => TY_BOOL
    case U8(_) => TY_UINT8
    case U16(_) => TY_UINT16
    case U32(_) => TY_UINT32
    case U64(_) => TY_UINT64
    case I32(_) => TY_VAR_INTEGER
    case I64(_) => TY_INT64
    case F32(_) => TY_VAR_FLOAT
    case F64(_) => TY_VAR_DOUBLE
    case Decimal(_, _, _) => TY_VAR_DOUBLE
    case FloatDecimal(_, _, _) => TY_VAR_FLOAT
    case Scientific(_, _, _) => TY_VAR_DOUBLE
    case FloatScientific(_, _, _) => TY_VAR_FLOAT
    case Widened(_) => TY_VAR_DOUBLE
    case Str(_) => TY_STRING
    case Bin(_) => TY_BINARY
  }

  /** A std::string holds 8-bit characters. */
  predicate Narrow(s: string) {
    forall i :: 0 <= i < |s| ==> s[i] < 256 as char
  }
}
