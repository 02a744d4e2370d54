/** Fixed-width unsigned integers and their little-endian byte encodings, as used by
    `u64::from_le_bytes` and by `read_u16_into::<LittleEndian>` / `read_f32_into::<LittleEndian>`.
    Floating-point elements are kept as their raw bit patterns: `f16` and `bf16` as `u16`,
    `f32` as `u32`. */
module Bytes {

  const U64_LIMIT: int := 0x1_0000_0000_0000_0000
  /** One past the largest `i64`: the offsets a file seek accepts lie below it. */
  const I64_LIMIT: int := 0x8000_0000_0000_0000

  type u8 = x: int | 0 <= x < 0x100
  type u16 = x: int | 0 <= x < 0x1_0000
  type u32 = x: int | 0 <= x < 0x1_0000_0000
  type u64 = x: int | 0 <= x < U64_LIMIT
  /** The source targets 64-bit platforms, where `usize` and `u64` coincide. */
  type usize = u64

  function Pow256(n: nat): (p: nat)
    ensures p > 0
  {
    if n == 0 then 1 else 256 * Pow256(n - 1)
  }

  /** The unsigned number whose little-endian encoding is `s`. */
  function LeValue(s: seq<u8>): (v: nat)
    ensures v < Pow256(|s|)
  {
    if s == [] then 0 else s[0] + 256 * LeValue(s[1..])
  }

  /** The `n`-byte little-endian encoding of `v` (the high bytes of a too-large `v` are dropped). */
  function LeBytes(v: nat, n: nat): (s: seq<u8>)
    ensures |s| == n
  {
    if n == 0 then [] else [v % 256] + LeBytes(v / 256, n - 1)
  }

  lemma {:induction false} LeValueOfLeBytes(v: nat, n: nat)
    requires v < Pow256(n)
    ensures LeValue(LeBytes(v, n)) == v
  {
    if n > 0 {
      var s := LeBytes(v, n);
      assert s[1..] == LeBytes(v / 256, n - 1);
      LeValueOfLeBytes(v / 256, n - 1);
    }
  }

  /** The low byte and the rest of `lo + 256 * hi` are `lo` and `hi`. */
  lemma SplitByte(lo: u8, hi: nat)
    ensures (lo + 256 * hi) % 256 == lo && (lo + 256 * hi) / 256 == hi
  {
  }

  lemma {:induction false} LeBytesOfLeValue(s: seq<u8>)
    ensures LeBytes(LeValue(s), |s|) == s
  {
    if s != [] {
      SplitByte(s[0], LeValue(s[1..]));
      LeBytesOfLeValue(s[1..]);
    }
  }

  /** `u64::from_le_bytes`: the value of an 8-byte little-endian prefix always fits in a `u64`. */
  function U64FromLe(s: seq<u8>): (v: u64)
    requires |s| == 8
    ensures LeBytes(v, 8) == s
  {
    assert Pow256(8) == U64_LIMIT;
    LeBytesOfLeValue(s);
    LeValue(s)
  }

  /** `u64::to_le_bytes` followed by `u64::from_le_bytes` gives back the value. */
  lemma U64FromLeOfLeBytes(v: u64)
    ensures U64FromLe(LeBytes(v, 8)) == v
  {
    assert Pow256(8) == U64_LIMIT;
    LeValueOfLeBytes(v, 8);
  }

  /** One little-endian 16-bit word. */
  function Le16(lo: u8, hi: u8): (v: u16)
    ensures v == LeValue([lo, hi])
  {
    assert [lo, hi][1..] == [hi];
    lo + 256 * hi
  }

  /** One little-endian 32-bit word. */
  function Le32(b0: u8, b1: u8, b2: u8, b3: u8): (v: u32)
    ensures v == LeValue([b0, b1, b2, b3])
  {
    assert [b0, b1, b2, b3][1..] == [b1, b2, b3];
    assert [b1, b2, b3][1..] == [b2, b3];
    assert [b2, b3][1..] == [b3];
    assert LeValue([b2, b3]) == b2 + 256 * LeValue([b3]);
    b0 + 0x100 * b1 + 0x1_0000 * b2 + 0x100_0000 * b3
  }

  /** The 16-bit words of `b`, read two bytes at a time, little-endian first. */
  function U16s(b: seq<u8>): (r: seq<u16>)
    requires |b| % 2 == 0
    ensures |r| == |b| / 2
  {
    if b == [] then [] else [Le16(b[0], b[1])] + U16s(b[2..])
  }

  /** The 32-bit words of `b`, read four bytes at a time, little-endian first. */
  function U32s(b: seq<u8>): (r: seq<u32>)
    requires |b| % 4 == 0
    ensures |r| == |b| / 4
  {
    if b == [] then [] else [Le32(b[0], b[1], b[2], b[3])] + U32s(b[4..])
  }

  /** The little-endian byte image of a sequence of 16-bit words. */
  function EncodeU16s(w: seq<u16>): (b: seq<u8>)
    ensures |b| == 2 * |w|
  {
    if w == [] then [] else LeBytes(w[0], 2) + EncodeU16s(w[1..])
  }

  /** The little-endian byte image of a sequence of 32-bit words. */
  function EncodeU32s(w: seq<u32>): (b: seq<u8>)
    ensures |b| == 4 * |w|
  {
    if w == [] then [] else LeBytes(w[0], 4) + EncodeU32s(w[1..])
  }

  lemma {:induction false} U16sAt(b: seq<u8>, i: nat)
    requires |b| % 2 == 0 && i < |b| / 2
    ensures U16s(b)[i] == b[2 * i] as int + 256 * b[2 * i + 1] as int
  {
    if i > 0 {
      U16sAt(b[2..], i - 1);
    }
  }

  lemma {:induction false} U32sAt(b: seq<u8>, i: nat)
    requires |b| % 4 == 0 && i < |b| / 4
    ensures U32s(b)[i] == b[4 * i] as int + 0x100 * b[4 * i + 1] as int
                          + 0x1_0000 * b[4 * i + 2] as int + 0x100_0000 * b[4 * i + 3] as int
  {
    if i > 0 {
      U32sAt(b[4..], i - 1);
    }
  }

  lemma {:induction false} U16sOfEncode(w: seq<u16>)
    ensures U16s(EncodeU16s(w)) == w
  {
    if w != [] {
      var b := EncodeU16s(w);
      assert Pow256(2) == 0x1_0000;
      LeValueOfLeBytes(w[0], 2);
      LeBytesOfLeValue(b[..2]);
      assert b[..2] == LeBytes(w[0], 2) && b[2..] == EncodeU16s(w[1..]);
      U16sOfEncode(w[1..]);
    }
  }

  lemma {:induction false} EncodeOfU16s(b: seq<u8>)
    requires |b| % 2 == 0
    ensures EncodeU16s(U16s(b)) == b
  {
    if b != [] {
      assert b[..2] == [b[0], b[1]];
      LeBytesOfLeValue(b[..2]);
      EncodeOfU16s(b[2..]);
      assert b == b[..2] + b[2..];
    }
  }

  lemma {:induction false} U32sOfEncode(w: seq<u32>)
    ensures U32s(EncodeU32s(w)) == w
  {
    if w != [] {
      var b := EncodeU32s(w);
      assert Pow256(4) == 0x1_0000_0000;
      LeValueOfLeBytes(w[0], 4);
      assert b[..4] == LeBytes(w[0], 4) && b[4..] == EncodeU32s(w[1..]);
      assert b[..4] == [b[0], b[1], b[2], b[3]];
      U32sOfEncode(w[1..]);
    }
  }

  lemma {:induction false} EncodeOfU32s(b: seq<u8>)
    requires |b| % 4 == 0
    ensures EncodeU32s(U32s(b)) == b
  {
    if b != [] {
      assert b[..4] == [b[0], b[1], b[2], b[3]];
      LeBytesOfLeValue(b[..4]);
      EncodeOfU32s(b[4..]);
      assert b == b[..4] + b[4..];
    }
  }
}
