/** Bytes, fixed-width unsigned integers and their little-endian encodings
    (src/convert.rs, and the `to_le_bytes`/`from_le_bytes` calls of the accessors). */
module Bytes {

  type byte = x: int | 0 <= x < 0x100
  type u16 = x: int | 0 <= x < 0x1_0000
  type u32 = x: int | 0 <= x < 0x1_0000_0000

  /** 256^n: one more than the largest value n bytes can hold. */
  function Pow256(n: nat): (p: nat)
    ensures p >= 1
  {
    if n == 0 then 1 else 256 * Pow256(n - 1)
  }

  /** The unsigned value of `s` read little-endian (first byte least significant). */
  function FromLe(s: seq<byte>): (v: nat)
    ensures v < Pow256(|s|)
  {
    if s == [] then 0 else s[0] + 256 * FromLe(s[1..])
  }

  /** The n-byte little-endian encoding of v; each byte is the shifted value cast to u8. */
  function ToLe(v: nat, n: nat): (s: seq<byte>)
    ensures |s| == n
  {
    if n == 0 then [] else [v % 256] + ToLe(v / 256, n - 1)
  }

  lemma {:induction false} FromLeToLe(v: nat, n: nat)
    requires v < Pow256(n)
    ensures FromLe(ToLe(v, n)) == v
  {
    if n > 0 {
      FromLeToLe(v / 256, n - 1);
      assert ToLe(v, n)[1..] == ToLe(v / 256, n - 1);
    }
  }

  lemma {:induction false} ToLeFromLe(s: seq<byte>)
    ensures ToLe(FromLe(s), |s|) == s
  {
    if s != [] {
      ToLeFromLe(s[1..]);
      assert FromLe(s) % 256 == s[0];
      assert FromLe(s) / 256 == FromLe(s[1..]);
    }
  }

  /** Two byte sequences of equal length with the same little-endian value are equal. */
  lemma FromLeInjective(a: seq<byte>, b: seq<byte>)
    requires |a| == |b| && FromLe(a) == FromLe(b)
    ensures a == b
  {
    ToLeFromLe(a);
    ToLeFromLe(b);
  }

  /** Padding with zero bytes on the most significant side keeps the value. */
  lemma {:induction false} FromLeZeroPadded(s: seq<byte>, k: nat)
    ensures FromLe(s + Zeros(k)) == FromLe(s)
  {
    if s == [] {
      assert s + Zeros(k) == Zeros(k);
      ZerosValue(k);
    } else {
      assert (s + Zeros(k))[1..] == s[1..] + Zeros(k);
      FromLeZeroPadded(s[1..], k);
    }
  }

  function Zeros(k: nat): (z: seq<byte>)
    ensures |z| == k && forall i :: 0 <= i < k ==> z[i] == 0
  {
    seq(k, _ => 0)
  }

  lemma {:induction false} ZerosValue(k: nat)
    ensures FromLe(Zeros(k)) == 0
  {
    if k > 0 {
      assert Zeros(k)[1..] == Zeros(k - 1);
      ZerosValue(k - 1);
    }
  }

  function Min(a: int, b: int): int { if a <= b then a else b }

  // ---- src/convert.rs ----

  /** `u8_to_bytes`: the one-byte encoding. */
  function U8ToBytes(data: byte): (r: seq<byte>)
    ensures |r| == 1 && FromLe(r) == data
  {
    [data]
  }

  /** `u16_to_bytes`: `[data as u8, (data >> 8) as u8]`. */
  function U16ToBytes(data: u16): (r: seq<byte>)
    ensures |r| == 2 && FromLe(r) == data
  {
    [data % 256, (data / 256) % 256]
  }

  /** `u32_to_bytes`: the four shifted parts, each cast to u8; `data >> 16` and `data >> 24` are
      written as repeated shifts by 8. */
  function U32ToBytes(data: u32): (r: seq<byte>)
    ensures |r| == 4 && FromLe(r) == data
  {
    var q1 := data / 0x100;
    var q2 := q1 / 0x100;
    var q3 := q2 / 0x100;
    var r := [data % 256, q1 % 256, q2 % 256, q3 % 256];
    assert q3 < 256;
    assert FromLe(r[3..]) == q3 by { assert r[3..][1..] == []; }
    assert FromLe(r[2..]) == q2 by { assert r[2..][1..] == r[3..]; }
    assert FromLe(r[1..]) == q1 by { assert r[1..][1..] == r[2..]; }
    r
  }

  /** `bytes_to_u8`: indexing panics on an empty slice, hence the precondition. */
  function BytesToU8(data: seq<byte>): (r: byte)
    requires |data| >= 1
    ensures r == FromLe(data[..1])
  {
    data[0]
  }

  /** `bytes_to_u16`: the shifted terms do not overlap, so the u16 sum cannot overflow;
      only the first two bytes are read. */
  function BytesToU16(data: seq<byte>): (r: u16)
    requires |data| >= 2
    ensures r == FromLe(data[..2])
  {
    assert data[..2][1..] == [data[1]];
    data[0] as int + data[1] as int * 0x100
  }

  /** `bytes_to_u32`: as BytesToU16, over the first four bytes. */
  function BytesToU32(data: seq<byte>): (r: u32)
    requires |data| >= 4
    ensures r == FromLe(data[..4])
  {
    var p := data[..4];
    assert p[1..][1..][1..] == [data[3]];
    assert p[1..][1..] == [data[2], data[3]];
    assert p[1..] == [data[1], data[2], data[3]];
    assert FromLe(p[1..][1..]) == data[2] as int + 256 * (data[3] as int);
    assert FromLe(p[1..]) == data[1] as int + 256 * FromLe(p[1..][1..]);
    data[0] as int + data[1] as int * 0x100 + data[2] as int * 0x1_0000 + data[3] as int * 0x100_0000
  }

  /** `distance_u32`: the absolute difference, computed without underflow. */
  function DistanceU32(a: u32, b: u32): (r: u32)
    ensures a == b + r || b == a + r
  {
    if a >= b then a - b else b - a
  }

  lemma U8RoundTrip(x: byte)
    ensures BytesToU8(U8ToBytes(x)) == x
  {
  }

  lemma U16RoundTrip(x: u16)
    ensures BytesToU16(U16ToBytes(x)) == x
  {
    assert U16ToBytes(x)[..2] == U16ToBytes(x);
  }

  lemma U32RoundTrip(x: u32)
    ensures BytesToU32(U32ToBytes(x)) == x
  {
    assert U32ToBytes(x)[..4] == U32ToBytes(x);
  }

  /** Decoding then re-encoding gives back exactly the bytes that were read. */
  lemma U16Prefix(b: seq<byte>)
    requires |b| >= 2
    ensures U16ToBytes(BytesToU16(b)) == b[..2]
  {
    FromLeInjective(U16ToBytes(BytesToU16(b)), b[..2]);
  }

  lemma U32Prefix(b: seq<byte>)
    requires |b| >= 4
    ensures U32ToBytes(BytesToU32(b)) == b[..4]
  {
    FromLeInjective(U32ToBytes(BytesToU32(b)), b[..4]);
  }

  /** The fixed-width encoders agree with the general little-endian encoding. */
  lemma ToBytesIsToLe(x: u32)
    ensures x < 0x100 ==> U8ToBytes(x) == ToLe(x, 1)
    ensures x < 0x1_0000 ==> U16ToBytes(x) == ToLe(x, 2)
    ensures U32ToBytes(x) == ToLe(x, 4)
  {
    FromLeToLe(x, 4);
    FromLeInjective(U32ToBytes(x), ToLe(x, 4));
    if x < 0x1_0000 {
      FromLeToLe(x, 2);
      FromLeInjective(U16ToBytes(x), ToLe(x, 2));
    }
    if x < 0x100 {
      FromLeToLe(x, 1);
      FromLeInjective(U8ToBytes(x), ToLe(x, 1));
    }
  }

  lemma DistanceSymmetric(a: u32, b: u32)
    ensures DistanceU32(a, b) == DistanceU32(b, a)
    ensures DistanceU32(a, b) == 0 <==> a == b
  {
  }
}
