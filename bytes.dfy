/**
 * Fixed-width integers and their byte representations.
 *
 * The container format stores every integer big-endian. The reader copies
 * the bytes of a field in reverse order into a host integer and lets a
 * little-endian host reinterpret them, so both byte orders are defined here,
 * together with the reversal that links them.
 */
module Bytes {

  type u8 = x: int | 0 <= x < 0x100
  type u16 = x: int | 0 <= x < 0x1_0000
  type u32 = x: int | 0 <= x < 0x1_0000_0000
  type u64 = x: int | 0 <= x < 0x1_0000_0000_0000_0000
  type i8 = x: int | -0x80 <= x < 0x80
  type i16 = x: int | -0x8000 <= x < 0x8000
  type i32 = x: int | -0x8000_0000 <= x < 0x8000_0000
  type i64 = x: int | -0x8000_0000_0000_0000 <= x < 0x8000_0000_0000_0000

  /** 256 to the power n: the number of values n bytes can hold. */
  function Pow256(n: nat): (r: nat)
    ensures r >= 1
  {
    if n == 0 then 1 else 256 * Pow256(n - 1)
  }

  /** The value of s read most significant byte first. */
  function BigEndian(s: seq<u8>): (r: nat)
    ensures r < Pow256(|s|)
  {
    if |s| == 0 then 0 else BigEndian(s[..|s| - 1]) * 256 + s[|s| - 1]
  }

  /** The value of s read least significant byte first (the host's order). */
  function LittleEndian(s: seq<u8>): (r: nat)
    ensures r < Pow256(|s|)
  {
    if |s| == 0 then 0 else s[0] + 256 * LittleEndian(s[1..])
  }

  /** s with its bytes in the opposite order. */
  function Reverse(s: seq<u8>): (r: seq<u8>)
    ensures |r| == |s|
    ensures forall i :: 0 <= i < |s| ==> r[i] == s[|s| - 1 - i]
  {
    if |s| == 0 then [] else [s[|s| - 1]] + Reverse(s[..|s| - 1])
  }

  /** Reversing twice gives back the original bytes. */
  lemma ReverseInvolution(s: seq<u8>)
    ensures Reverse(Reverse(s)) == s
  {
    var r := Reverse(Reverse(s));
    assert forall i | 0 <= i < |s| :: r[i] == s[i];
  }

  /**
   * Reading the reversed bytes least significant first is reading the
   * original bytes most significant first: swap-then-reinterpret on a
   * little-endian host is big-endian decoding.
   */
  lemma {:induction false} LittleEndianOfReverse(s: seq<u8>)
    ensures LittleEndian(Reverse(s)) == BigEndian(s)
  {
    if |s| > 0 {
      var init := s[..|s| - 1];
      var r := Reverse(s);
      assert r == [s[|s| - 1]] + Reverse(init);
      assert r[1..] == Reverse(init);
      LittleEndianOfReverse(init);
    }
  }

  /** The n bytes that hold v most significant first. */
  function BigEndianBytes(v: nat, n: nat): (r: seq<u8>)
    requires v < Pow256(n)
    ensures |r| == n
    ensures BigEndian(r) == v
  {
    if n == 0 then []
    else
      assert v / 256 < Pow256(n - 1) by {
        assert Pow256(n) == 256 * Pow256(n - 1);
      }
      var r := BigEndianBytes(v / 256, n - 1) + [v % 256];
      assert r[..n - 1] == BigEndianBytes(v / 256, n - 1);
      r
  }

  /** Every byte string is the encoding of its own big-endian value. */
  lemma {:induction false} BigEndianBytesOfValue(s: seq<u8>)
    ensures BigEndianBytes(BigEndian(s), |s|) == s
  {
    if |s| > 0 {
      var n := |s|;
      var init := s[..n - 1];
      var v := BigEndian(s);
      assert v / 256 == BigEndian(init) && v % 256 == s[n - 1];
      BigEndianBytesOfValue(init);
      assert BigEndianBytes(v, n) == BigEndianBytes(BigEndian(init), n - 1) + [s[n - 1]];
    }
  }

  /** Two's-complement reading of a byte (a C cast to int8_t). */
  function Signed8(u: u8): (r: i8)
    ensures r % 0x100 == u
    ensures (r < 0) == (u >= 0x80)
  {
    if u < 0x80 then u else u - 0x100
  }

  /** Two's-complement reading of a 16-bit value (a C cast to int16_t). */
  function Signed16(u: u16): (r: i16)
    ensures r % 0x1_0000 == u
    ensures (r < 0) == (u >= 0x8000)
  {
    if u < 0x8000 then u else u - 0x1_0000
  }

  /** Two's-complement reading of a 32-bit value (a C cast to int32_t or int). */
  function Signed32(u: u32): (r: i32)
    ensures r % 0x1_0000_0000 == u
    ensures (r < 0) == (u >= 0x8000_0000)
  {
    if u < 0x8000_0000 then u else u - 0x1_0000_0000
  }

  /** Two's-complement reading of a 64-bit value (a C cast to int64_t). */
  function Signed64(u: u64): (r: i64)
    ensures r % 0x1_0000_0000_0000_0000 == u
    ensures (r < 0) == (u >= 0x8000_0000_0000_0000)
  {
    if u < 0x8000_0000_0000_0000 then u else u - 0x1_0000_0000_0000_0000
  }

  /** Unsigned reading of a 32-bit two's-complement value (a C cast to uint32_t). */
  function Unsigned32(x: i32): (r: u32)
    ensures r % 0x1_0000_0000 == x % 0x1_0000_0000
    ensures x >= 0 ==> r == x
  {
    if x < 0 then x + 0x1_0000_0000 else x
  }

  /** Casting a 32-bit value to signed and back to unsigned loses nothing. */
  lemma UnsignedOfSigned32(u: u32)
    ensures Unsigned32(Signed32(u)) == u
  {
  }

  /** Extending a prefix by one byte shifts its value up by a byte and adds the byte. */
  lemma BigEndianStep(t: seq<u8>, n: nat)
    requires n < |t|
    ensures BigEndian(t[..n + 1]) == BigEndian(t[..n]) * 256 + t[n]
  {
    assert t[..n + 1][..n] == t[..n];
  }

  /** Two bytes most significant first, written out. */
  lemma BigEndianOfTwo(t: seq<u8>)
    requires |t| == 2
    ensures BigEndian(t) == t[0] as int * 0x100 + t[1]
  {
    assert t[..0] == [];
    BigEndianStep(t, 0);
    BigEndianStep(t, 1);
    assert t[..2] == t;
  }

  /** Four bytes most significant first, written out. */
  lemma BigEndianOfFour(t: seq<u8>)
    requires |t| == 4
    ensures BigEndian(t) ==
      t[0] as int * 0x100_0000 + t[1] as int * 0x1_0000 + t[2] as int * 0x100 + t[3]
  {
    assert t[..0] == [];
    BigEndianStep(t, 0);
    BigEndianStep(t, 1);
    BigEndianStep(t, 2);
    BigEndianStep(t, 3);
    assert t[..4] == t;
  }

  /** Eight bytes most significant first: the high four, then the low four. */
  lemma BigEndianOfEight(t: seq<u8>)
    requires |t| == 8
    ensures BigEndian(t) == BigEndian(t[..4]) * 0x1_0000_0000 + BigEndian(t[4..])
  {
    BigEndianStep(t, 4);
    BigEndianStep(t, 5);
    BigEndianStep(t, 6);
    BigEndianStep(t, 7);
    assert t[..8] == t;
    BigEndianOfFour(t[4..]);
  }

  /** The 2-byte big-endian encoding of a u16. */
  function U16Bytes(v: u16): (r: seq<u8>)
    ensures |r| == 2
  {
    [v / 0x100, v % 0x100]
  }

  /** The 2-byte encoding reads back as the value it encodes. */
  lemma U16BytesValue(v: u16)
    ensures BigEndian(U16Bytes(v)) == v
  {
    BigEndianOfTwo(U16Bytes(v));
  }

  /** The 4-byte big-endian encoding of a u32. */
  function U32Bytes(v: u32): (r: seq<u8>)
    ensures |r| == 4
  {
    [v / 0x100_0000, v / 0x1_0000 % 0x100, v / 0x100 % 0x100, v % 0x100]
  }

  /** The 4-byte encoding reads back as the value it encodes. */
  lemma U32BytesValue(v: u32)
    ensures BigEndian(U32Bytes(v)) == v
  {
    BigEndianOfFour(U32Bytes(v));
    var hi, lo := v / 0x1_0000, v % 0x1_0000;
    assert v == hi * 0x1_0000 + lo;
    ByteSplit(hi);
    assert hi / 0x100 == v / 0x100_0000;
    ByteSplit(lo);
    assert lo / 0x100 == v / 0x100 % 0x100 && lo % 0x100 == v % 0x100;
  }

  /** A 16-bit quantity is its high byte times 256 plus its low byte. */
  lemma ByteSplit(w: int)
    requires 0 <= w < 0x1_0000
    ensures w == w / 0x100 * 0x100 + w % 0x100 && w / 0x100 < 0x100
  {
  }

  /** The 8-byte big-endian encoding of a u64: its high word, then its low word. */
  function U64Bytes(v: u64): (r: seq<u8>)
    ensures |r| == 8
  {
    U32Bytes(v / 0x1_0000_0000) + U32Bytes(v % 0x1_0000_0000)
  }

  /** The 8-byte encoding reads back as the value it encodes. */
  lemma U64BytesValue(v: u64)
    ensures BigEndian(U64Bytes(v)) == v
  {
    var r := U64Bytes(v);
    assert r[..4] == U32Bytes(v / 0x1_0000_0000) && r[4..] == U32Bytes(v % 0x1_0000_0000);
    U32BytesValue(v / 0x1_0000_0000);
    U32BytesValue(v % 0x1_0000_0000);
    BigEndianOfEight(r);
  }
}
