/** Big-endian integer fields (serializer.cpp) and the casts between signed and unsigned words. */
module BigEndian {
  import opened Types

  function Pow256(n: nat): (p: nat)
    ensures p > 0
  {
    if n == 0 then 1 else 256 * Pow256(n - 1)
  }

  /** The n low bytes of v, most significant first. */
  function Bytes(n: nat, v: nat): (bs: seq<byte>)
    ensures |bs| == n
  {
    if n == 0 then [] else Bytes(n - 1, v / 256) + [v % 256]
  }

  function Value(bs: seq<byte>): nat {
    if bs == [] then 0 else 256 * Value(bs[..|bs| - 1]) + bs[|bs| - 1]
  }

  lemma {:induction false} ReadWrite(n: nat, v: nat)
    requires v < Pow256(n)
    ensures Value(Bytes(n, v)) == v
  {
    if n > 0 {
      ReadWrite(n - 1, v / 256);
      assert Bytes(n, v)[..n - 1] == Bytes(n - 1, v / 256);
    }
  }

  lemma {:induction false} WriteRead(bs: seq<byte>)
    ensures Value(bs) < Pow256(|bs|)
    ensures Bytes(|bs|, Value(bs)) == bs
  {
    if bs != [] {
      var front := bs[..|bs| - 1];
      WriteRead(front);
      assert bs == front + [bs[|bs| - 1]];
    }
  }

  lemma Powers()
    ensures Pow256(1) == 0x100 && Pow256(2) == 0x1_0000
    ensures Pow256(4) == TWO_32 && Pow256(8) == TWO_64
  {
    assert Pow256(3) == 256 * Pow256(2);
    assert Pow256(5) == 256 * Pow256(4);
    assert Pow256(7) == 256 * Pow256(6);
  }

  /** v >> 8i. */
  function ShiftRight(v: nat, i: nat): nat {
    if i == 0 then v else ShiftRight(v, i - 1) / 256
  }

  lemma {:induction false} ShiftIsDivision(v: nat, i: nat)
    ensures ShiftRight(v, i) == v / Pow256(i)
  {
    if i > 0 {
      ShiftIsDivision(v, i - 1);
      DivDiv(v, Pow256(i - 1));
    }
  }

  lemma DivDiv(v: nat, p: nat)
    requires p > 0
    ensures (v / p) / 256 == v / (256 * p)
  {
    var q, r := (v / p) / 256, (v / p) % 256;
    Regroup(v / p, q, r, p);
    Scale(r, 255, p);
    QuotientIs(v, q, r * p + v % p, 256 * p);
  }

  lemma Regroup(s: int, q: int, r: int, p: int)
    requires s == 256 * q + r
    ensures s * p == q * (256 * p) + r * p
  {
  }

  lemma Scale(r: nat, bound: nat, p: nat)
    requires r <= bound
    ensures r * p <= bound * p
  {
  }

  lemma QuotientIs(x: int, q: int, r: int, m: int)
    requires m > 0 && 0 <= r < m && x == q * m + r
    ensures x / m == q
  {
    var d := x / m - q;
    assert x % m == r - d * m by {
      assert x == (x / m) * m + x % m;
      assert (x / m) * m == q * m + d * m;
    }
    assert d > 0 ==> d * m >= m;
    assert d < 0 ==> d * m <= -m;
  }

  /** writeBE64's loop: byte i of v is (v >> 8i) & 0xFF, high byte first. */
  method WriteBE64(v: u64) returns (out: seq<byte>)
    ensures out == Bytes(8, v)
  {
    out := [];
    var i := 7;
    ShiftIsDivision(v, 8);
    Powers();
    while i >= 0
      invariant -1 <= i <= 7
      invariant out == Bytes(7 - i, ShiftRight(v, i + 1))
      decreases i
    {
      out := out + [ShiftRight(v, i) % 256];
      i := i - 1;
    }
  }

  /** readBE64's loop: shift the accumulator left by a byte and add the next one. */
  method ReadBE64(data: seq<byte>) returns (result: u64)
    requires |data| >= 8
    ensures result == Value(data[..8])
    ensures Bytes(8, result) == data[..8]
  {
    WriteRead(data[..8]);
    Powers();
    result := 0;
    var i := 0;
    while i < 8
      invariant 0 <= i <= 8
      invariant result == Value(data[..i]) && result < Pow256(i)
    {
      assert data[..i + 1][..i] == data[..i];
      WriteRead(data[..i + 1]);
      Bounded(i + 1);
      result := 256 * result + data[i];
      i := i + 1;
    }
  }

  lemma Bounded(n: nat)
    requires n <= 8
    ensures Pow256(n) <= TWO_64
  {
    Powers();
    assert Pow256(3) == 256 * Pow256(2);
    assert Pow256(5) == 256 * Pow256(4);
    assert Pow256(7) == 256 * Pow256(6);
  }

  // ---------- Signed words ----------

  function Unsigned32(v: i32): u32 { if v < 0 then v + TWO_32 else v }
  function Signed32(v: u32): i32 { if v >= 0x8000_0000 then v - TWO_32 else v }
  function Unsigned64(v: i64): u64 { if v < 0 then v + TWO_64 else v }
  function Signed64(v: u64): i64 { if v >= 0x8000_0000_0000_0000 then v - TWO_64 else v }
}
