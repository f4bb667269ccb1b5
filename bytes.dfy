/** Byte-level encodings shared by the cast writer and the logger: fixed-width
    little-endian integers (Rust's `to_le_bytes`) and the unsigned LEB128 varint that
    the `unsigned_varint` crate writes (section 7.6 of DWARF version 5; the same wire
    form as the multiformats unsigned-varint). */
module Bytes {
  import opened Wrappers

  type Byte = b: int | 0 <= b < 256

  /** A Rust `u16` and a Rust `u32`. */
  type U16 = x: nat | x < 0x1_0000
  type U32 = x: nat | x < 0x1_0000_0000

  const U32_LIMIT: nat := 0x1_0000_0000

  function Pow256(n: nat): (p: nat)
    ensures p >= 1
  {
    if n == 0 then 1 else 256 * Pow256(n - 1)
  }

  function Pow128(n: nat): (p: nat)
    ensures p >= 1
  {
    if n == 0 then 1 else 128 * Pow128(n - 1)
  }

  lemma PowersOfU32()
    ensures Pow256(2) == 0x1_0000
    ensures Pow256(4) == U32_LIMIT
    ensures Pow128(5) == 0x8_0000_0000
  {
    assert Pow256(2) == 0x1_0000 by {
      assert Pow256(1) == 256;
    }
    assert Pow256(4) == U32_LIMIT by {
      assert Pow256(3) == 0x100_0000;
    }
    assert Pow128(5) == 0x8_0000_0000 by {
      assert Pow128(3) == 0x20_0000;
    }
  }

  /** The `width` bytes of `x`, least significant first. */
  function LittleEndian(x: nat, width: nat): (r: seq<Byte>)
    requires x < Pow256(width)
    ensures |r| == width
  {
    if width == 0 then []
    else
      assert x / 256 < Pow256(width - 1);
      [x % 256] + LittleEndian(x / 256, width - 1)
  }

  /** The value of a little-endian byte string (`from_le_bytes`). */
  function FromLittleEndian(s: seq<Byte>): (x: nat)
    ensures x < Pow256(|s|)
  {
    if s == [] then 0 else s[0] + 256 * FromLittleEndian(s[1..])
  }

  function U16LE(x: U16): (r: seq<Byte>)
    ensures |r| == 2
  {
    PowersOfU32();
    LittleEndian(x, 2)
  }

  function U32LE(x: U32): (r: seq<Byte>)
    ensures |r| == 4
  {
    PowersOfU32();
    LittleEndian(x, 4)
  }

  /** Reading back what `LittleEndian` wrote yields the original number. */
  lemma {:induction false} LittleEndianRoundTrip(x: nat, width: nat)
    requires x < Pow256(width)
    ensures FromLittleEndian(LittleEndian(x, width)) == x
  {
    if width > 0 {
      assert x / 256 < Pow256(width - 1);
      var r := LittleEndian(x, width);
      assert r[1..] == LittleEndian(x / 256, width - 1);
      LittleEndianRoundTrip(x / 256, width - 1);
    }
  }

  /** Every byte string of length `width` is the encoding of exactly one number. */
  lemma {:induction false} LittleEndianOfValue(s: seq<Byte>)
    ensures LittleEndian(FromLittleEndian(s), |s|) == s
  {
    if s != [] {
      LittleEndianOfValue(s[1..]);
      var x := FromLittleEndian(s);
      assert x % 256 == s[0] && x / 256 == FromLittleEndian(s[1..]);
    }
  }

  lemma U16RoundTrip(x: U16)
    ensures FromLittleEndian(U16LE(x)) == x
  {
    PowersOfU32();
    LittleEndianRoundTrip(x, 2);
  }

  lemma U32RoundTrip(x: U32)
    ensures FromLittleEndian(U32LE(x)) == x
  {
    PowersOfU32();
    LittleEndianRoundTrip(x, 4);
  }

  /** Unsigned LEB128: seven value bits per byte, least significant group first,
      bit 7 set on every byte except the last (`unsigned_varint::encode::u32`). */
  function Varint(n: nat): (r: seq<Byte>)
    ensures |r| >= 1
    ensures r[|r| - 1] < 128
    ensures forall k :: 0 <= k < |r| - 1 ==> r[k] >= 128
    decreases n
  {
    if n < 128 then [n] else [n % 128 + 128] + Varint(n / 128)
  }

  lemma {:induction false} VarintLengthBound(n: nat, k: nat)
    requires k >= 1 && n < Pow128(k)
    ensures |Varint(n)| <= k
    decreases k
  {
    if n >= 128 {
      assert Pow128(1) == 128;
      assert k >= 2;
      assert n / 128 < Pow128(k - 1);
      VarintLengthBound(n / 128, k - 1);
    }
  }

  /** A `u32` needs between one and five varint bytes (the five-byte buffer of the source). */
  lemma VarintLengthOfU32(n: U32)
    ensures 1 <= |Varint(n)| <= 5
  {
    PowersOfU32();
    VarintLengthBound(n, 5);
  }

  /** Reads one varint from the front of `s`: its value and the number of bytes it
      occupies, or None when `s` ends before a byte with bit 7 clear. */
  function DecodeVarint(s: seq<Byte>): (r: Option<(nat, nat)>)
    ensures r.Some? ==> 1 <= r.value.1 <= |s|
  {
    if s == [] then None
    else if s[0] < 128 then Some((s[0], 1))
    else
      match DecodeVarint(s[1..])
      case None => None
      case Some((v, k)) => Some((s[0] - 128 + 128 * v, k + 1))
  }

  /** Decoding a varint followed by anything returns its value and consumes exactly
      its bytes. */
  lemma {:induction false} VarintRoundTrip(n: nat, rest: seq<Byte>)
    ensures DecodeVarint(Varint(n) + rest) == Some((n, |Varint(n)|))
    decreases n
  {
    var s := Varint(n) + rest;
    if n >= 128 {
      assert s[1..] == Varint(n / 128) + rest;
      VarintRoundTrip(n / 128, rest);
    }
  }
}
