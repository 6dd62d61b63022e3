/** VarInt and zigzag VarInteger (serializer.cpp): base-128 digits, low digit
    first, high bit set on every digit but the last. */
module VarInt {
  import opened Types

  // ---------- Specification ----------

  /** The canonical encoding of v. */
  function Bytes(v: nat): (bs: seq<byte>)
    ensures |bs| > 0 && bs[|bs| - 1] < 128
    ensures forall i :: 0 <= i < |bs| - 1 ==> bs[i] >= 128
  {
    if v < 128 then [v] else [v % 128 + 128] + Bytes(v / 128)
  }

  /** Number of bytes a decoder consumes: up to and including the first byte
      below 128, or everything when there is none. */
  function Span(bs: seq<byte>): (n: nat)
    ensures n <= |bs|
  {
    if bs == [] then 0 else if bs[0] < 128 then 1 else 1 + Span(bs[1..])
  }

  /** The base-128 sum of that prefix, unbounded. */
  function Sum(bs: seq<byte>): nat {
    if bs == [] then 0
    else if bs[0] < 128 then bs[0]
    else bs[0] - 128 + 128 * Sum(bs[1..])
  }

  function Pow128(n: nat): (p: nat)
    ensures p > 0
  {
    if n == 0 then 1 else 128 * Pow128(n - 1)
  }

  // ---------- Theorems ----------

  /** Reading back an encoding, whatever follows it, gives the number and consumes exactly the encoding. */
  lemma {:induction false} DecodeEncode(v: nat, suffix: seq<byte>)
    ensures Sum(Bytes(v) + suffix) == v
    ensures Span(Bytes(v) + suffix) == |Bytes(v)|
  {
    var bs := Bytes(v) + suffix;
    if v >= 128 {
      DecodeEncode(v / 128, suffix);
      assert bs[1..] == Bytes(v / 128) + suffix;
    }
  }

  /** A number below 128^n takes at most n bytes. */
  lemma {:induction false} LengthBound(v: nat, n: nat)
    requires n > 0 && v < Pow128(n)
    ensures |Bytes(v)| <= n
  {
    if v >= 128 {
      assert n > 1 by { assert Pow128(1) == 128 * Pow128(0); }
      assert v / 128 < Pow128(n - 1);
      LengthBound(v / 128, n - 1);
    }
  }

  /** Every 64-bit value takes at most 10 bytes. */
  lemma TenBytes(v: u64)
    ensures |Bytes(v)| <= 10
  {
    assert Pow128(10) > v by {
      assert Pow128(2) == 128 * 128;
      assert Pow128(4) == 128 * 128 * 128 * 128;
      assert Pow128(6) == 128 * 128 * 128 * 128 * 128 * 128;
      assert Pow128(8) == 128 * 128 * 128 * 128 * 128 * 128 * 128 * 128;
      assert Pow128(10) == 128 * 128 * 128 * 128 * 128 * 128 * 128 * 128 * 128 * 128;
    }
    LengthBound(v, 10);
  }

  /** The printer is the only one of its kind: a terminated byte string with no
      redundant leading zero digit is the encoding of the number it denotes. */
  lemma {:induction false} EncodeDecode(bs: seq<byte>)
    requires bs != [] && Span(bs) == |bs| && bs[|bs| - 1] < 128
    requires |bs| > 1 ==> bs[|bs| - 1] > 0
    ensures Bytes(Sum(bs)) == bs
    ensures |bs| > 1 ==> Sum(bs) > 0
  {
    if bs[0] >= 128 {
      var tail := bs[1..];
      assert tail[|tail| - 1] == bs[|bs| - 1];
      EncodeDecode(tail);
      assert Sum(tail) > 0;
      assert Sum(bs) / 128 == Sum(tail) && Sum(bs) % 128 + 128 == bs[0];
    }
  }

  // ---------- Operations ----------

  /** The digits already printed, and those of what is left of the value. */
  ghost predicate Printing(value: nat, v: nat, done: seq<byte>) {
    done + (if v > 0 then Bytes(v) else []) == Bytes(value)
  }

  /** One turn of the encoding loop. */
  lemma PrintDigit(value: nat, v: nat, done: seq<byte>)
    requires v > 0 && Printing(value, v, done)
    ensures v / 128 > 0 ==> Printing(value, v / 128, done + [v % 128 + 128])
    ensures v / 128 == 0 ==> Printing(value, 0, done + [v % 128])
  {
    if v >= 128 {
      assert done + ([v % 128 + 128] + Bytes(v / 128)) == done + [v % 128 + 128] + Bytes(v / 128);
    } else {
      assert done + [v] == done + [v] + [];
    }
  }

  lemma PrintStart(value: nat)
    ensures value > 0 ==> Printing(value, value, [])
    ensures value == 0 ==> Bytes(value) == [0]
  {
    assert [] + Bytes(value) == Bytes(value);
  }

  lemma PrintDone(value: nat, done: seq<byte>)
    requires Printing(value, 0, done)
    ensures done == Bytes(value)
  {
    assert done + [] == done;
  }

  method EncodeVarInt(value: u64) returns (bytes: seq<byte>)
    ensures bytes == Bytes(value)
  {
    hide *;
    PrintStart(value);
    if value == 0 {
      return [0];
    }
    bytes := [];
    var v: nat := value;
    while v > 0
      invariant Printing(value, v, bytes)
    {
      PrintDigit(value, v, bytes);
      var b: byte := v % 128;
      v := v / 128;
      if v > 0 { b := b + 128; }
      bytes := bytes + [b];
    }
    PrintDone(value, bytes);
  }

  lemma ModAddMul(x: int, k: int, m: int)
    requires m > 0
    ensures (x + k * m) % m == x % m
  {
    var q, r := x / m, x % m;
    assert x + k * m == (q + k) * m + r by {
      assert (q + k) * m == q * m + k * m;
      assert x == q * m + r;
    }
    QuotientUnique(q + k, r, m);
  }

  lemma QuotientUnique(q: int, r: int, m: int)
    requires m > 0 && 0 <= r < m
    ensures (q * m + r) % m == r
  {
    var x := q * m + r;
    var d := x / m - q;
    assert x % m == r - d * m by {
      assert x == (x / m) * m + x % m;
      assert (x / m) * m == q * m + d * m;
    }
    assert d > 0 ==> d * m >= m;
    assert d < 0 ==> d * m <= -m;
  }

  /** One digit of the decoding loop, modulo the word size. */
  lemma DigitStep(value: int, digit: int, mult: int, rest: int, m: int)
    requires m > 0
    ensures ((value + digit * mult) % m + ((mult * 128) % m) * rest) % m
         == (value + mult * (digit + 128 * rest)) % m
  {
    var a, b := value + digit * mult, mult * 128;
    var qa, qb := a / m, b / m;
    var k := -qa - qb * rest;
    assert a % m == a - qa * m && b % m == b - qb * m;
    calc {
      a % m + (b % m) * rest;
      a - qa * m + (b - qb * m) * rest;
      { assert (b - qb * m) * rest == b * rest - qb * m * rest; assert qb * m * rest == (qb * rest) * m; }
      a - qa * m + b * rest - (qb * rest) * m;
      { assert k * m == -(qa * m) - (qb * rest) * m; }
      a + b * rest + k * m;
    }
    ModAddMul(a + b * rest, k, m);
    assert a + b * rest == value + mult * (digit + 128 * rest) by {
      assert mult * (digit + 128 * rest) == mult * digit + mult * (128 * rest);
      assert mult * (128 * rest) == (mult * 128) * rest;
    }
  }

  /** What is still to be read, joined to what has been read. */
  ghost predicate Reading(value: int, multiplier: int, data: seq<byte>, start: nat, offset: nat)
    requires start <= offset <= |data|
  {
    && (value + multiplier * Sum(data[offset..])) % TWO_64 == Sum(data[start..]) % TWO_64
    && offset + Span(data[offset..]) == start + Span(data[start..])
  }

  /** value + digit * multiplier in 64-bit arithmetic. */
  function AddDigit(value: int, digit: int, multiplier: int): u64 {
    (value + digit * multiplier) % TWO_64
  }

  lemma ReadDigit(value: int, multiplier: int, data: seq<byte>, start: nat, offset: nat)
    requires start <= offset < |data|
    requires Reading(value, multiplier, data, start, offset)
    ensures data[offset] < 128 ==>
              && AddDigit(value, data[offset] % 128, multiplier) == Sum(data[start..]) % TWO_64
              && offset + 1 == start + Span(data[start..])
    ensures data[offset] >= 128 ==>
              Reading(AddDigit(value, data[offset] % 128, multiplier), AddDigit(0, 128, multiplier),
                      data, start, offset + 1)
  {
    Unfold(data, offset);
    hide Sum, Span;
    if data[offset] >= 128 {
      DigitStep(value, data[offset] - 128, multiplier, Sum(data[offset + 1..]), TWO_64);
      assert AddDigit(0, 128, multiplier) == (multiplier * 128) % TWO_64;
    } else {
      assert multiplier * data[offset] == data[offset] * multiplier;
    }
  }

  lemma Unfold(data: seq<byte>, i: nat)
    requires i < |data|
    ensures Sum(data[i..]) == if data[i] < 128 then data[i] else data[i] - 128 + 128 * Sum(data[i + 1..])
    ensures Span(data[i..]) == if data[i] < 128 then 1 else 1 + Span(data[i + 1..])
  {
    assert data[i..][1..] == data[i + 1..];
  }

  /** Every byte string decodes to its base-128 sum modulo 2^64, however long it is. */
  method DecodeVarInt(data: seq<byte>, start: nat) returns (value: u64, offset: nat)
    requires start <= |data|
    ensures value == Sum(data[start..]) % TWO_64
    ensures offset == start + Span(data[start..])
  {
    value := 0;
    var multiplier: u64 := 1;
    offset := start;
    while offset < |data|
      invariant start <= offset <= |data|
      invariant Reading(value, multiplier, data, start, offset)
    {
      var b := data[offset];
      ReadDigit(value, multiplier, data, start, offset);
      hide *;
      value := AddDigit(value, b % 128, multiplier);
      multiplier := AddDigit(0, 128, multiplier);
      offset := offset + 1;
      if b < 128 {
        return;
      }
    }
    AllRead(value, multiplier, data, start);
  }

  lemma AllRead(value: u64, multiplier: int, data: seq<byte>, start: nat)
    requires start <= |data|
    requires Reading(value, multiplier, data, start, |data|)
    ensures value == Sum(data[start..]) % TWO_64 && |data| == start + Span(data[start..])
  {
    assert data[|data|..] == [];
  }

  // ---------- Zigzag ----------

  /** INT64_MIN is not encodable: its negation overflows in the source. */
  function Zigzag(v: i64): (z: u64)
    requires v > -0x8000_0000_0000_0000
  {
    if v >= 0 then v * 2 else -v * 2 - 1
  }

  function Unzigzag(z: u64): i64 {
    if z % 2 == 1 then -(z / 2) - 1 else z / 2
  }

  lemma ZigzagRoundTrip(v: i64, suffix: seq<byte>)
    requires v > -0x8000_0000_0000_0000
    ensures Unzigzag(Sum(Bytes(Zigzag(v)) + suffix) % TWO_64) == v
    ensures |Bytes(Zigzag(v))| <= 10
  {
    DecodeEncode(Zigzag(v), suffix);
    TenBytes(Zigzag(v));
  }

  /** Zigzag is a bijection between the encodable integers and all 64-bit words but the largest. */
  lemma UnzigzagRoundTrip(z: u64)
    ensures Unzigzag(z) == -0x8000_0000_0000_0000 <==> z == TWO_64 - 1
    ensures z < TWO_64 - 1 ==> Zigzag(Unzigzag(z)) == z
  {
  }
}
