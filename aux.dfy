/**
 * The cursor primitives of the reader.
 *
 * Every getter takes the address of a `char *` that walks over a byte buffer,
 * reads a field at the position it points to and moves it past the bytes it
 * consumed. A Cursor is that `char *`: the buffer it walks over, which the
 * reader never writes, and the offset it has reached. Each getter is proved
 * against the total decoder of module Wire that reads the same field.
 *
 * Integers are read by copying the field's bytes in reverse order into a host
 * integer and reinterpreting them; the host is taken to be little-endian, so
 * the reinterpretation is LittleEndian and, after the reversal, the value is
 * the field's big-endian value.
 */
module Aux {
  import opened Bytes
  import opened Wire

  /** Copies two bytes in reverse order: dest[i] is src[1 - i]. */
  method Swap16(src: seq<u8>, dest: array<u8>)
    requires |src| >= 2 && dest.Length == 2
    modifies dest
    ensures dest[0] == src[1] && dest[1] == src[0]
    ensures dest[..] == Reverse(src[..2])
  {
    dest[0] := src[1];
    dest[1] := src[0];
  }

  /** Copies four bytes in reverse order: dest[i] is src[3 - i]. */
  method Swap32(src: seq<u8>, dest: array<u8>)
    requires |src| >= 4 && dest.Length == 4
    modifies dest
    ensures forall i | 0 <= i < 4 :: dest[i] == src[3 - i]
    ensures dest[..] == Reverse(src[..4])
  {
    dest[0] := src[3];
    dest[1] := src[2];
    dest[2] := src[1];
    dest[3] := src[0];
  }

  /** Copies eight bytes in reverse order: dest[i] is src[7 - i]. */
  method Swap64(src: seq<u8>, dest: array<u8>)
    requires |src| >= 8 && dest.Length == 8
    modifies dest
    ensures forall i | 0 <= i < 8 :: dest[i] == src[7 - i]
    ensures dest[..] == Reverse(src[..8])
  {
    dest[0] := src[7];
    dest[1] := src[6];
    dest[2] := src[5];
    dest[3] := src[4];
    dest[4] := src[3];
    dest[5] := src[2];
    dest[6] := src[1];
    dest[7] := src[0];
  }

  /** A `char *` into a byte buffer: the buffer and the offset it points at. */
  class Cursor {
    const buf: seq<u8>
    var pos: nat

    constructor (buf: seq<u8>, pos: nat)
      ensures this.buf == buf && this.pos == pos
    {
      this.buf := buf;
      this.pos := pos;
    }

    /** A big-endian u16; the cursor moves 2 bytes. */
    method GetU16() returns (v: u16)
      requires pos + 2 <= |buf|
      modifies this
      ensures pos == old(pos) + 2
      ensures Yields(U16At(buf, old(pos)), v, pos)
    {
      var value := new u8[2];
      Swap16(buf[pos..], value);
      assert buf[pos..][..2] == buf[pos..pos + 2];
      LittleEndianOfReverse(buf[pos..pos + 2]);
      v := LittleEndian(value[..]);
      U16AtBigEndian(buf, pos);
      pos := pos + 2;
    }

    /** The u16 read as a two's-complement int16; the cursor moves 2 bytes. */
    method GetI16() returns (v: i16)
      requires pos + 2 <= |buf|
      modifies this
      ensures pos == old(pos) + 2
      ensures v == Signed16(U16At(buf, old(pos)).value.value)
    {
      var u := GetU16();
      v := Signed16(u);
    }

    /** A big-endian 32-bit field read into a signed int; the cursor moves 4 bytes. */
    method GetI32() returns (v: i32)
      requires pos + 4 <= |buf|
      modifies this
      ensures pos == old(pos) + 4
      ensures Yields(I32At(buf, old(pos)), v, pos)
    {
      var value := new u8[4];
      Swap32(buf[pos..], value);
      assert buf[pos..][..4] == buf[pos..pos + 4];
      LittleEndianOfReverse(buf[pos..pos + 4]);
      v := Signed32(LittleEndian(value[..]));
      U32AtBigEndian(buf, pos);
      pos := pos + 4;
    }

    /** The signed 32-bit read cast back to unsigned; the cursor moves 4 bytes. */
    method GetU32() returns (v: u32)
      requires pos + 4 <= |buf|
      modifies this
      ensures pos == old(pos) + 4
      ensures Yields(U32At(buf, old(pos)), v, pos)
    {
      var x := GetI32();
      v := Unsigned32(x);
      U32AtBigEndian(buf, old(pos));
      UnsignedOfSigned32(U32At(buf, old(pos)).value.value);
    }

    /** A big-endian u64; the cursor moves 8 bytes. */
    method GetU64() returns (v: u64)
      requires pos + 8 <= |buf|
      modifies this
      ensures pos == old(pos) + 8
      ensures Yields(U64At(buf, old(pos)), v, pos)
    {
      var value := new u8[8];
      Swap64(buf[pos..], value);
      assert buf[pos..][..8] == buf[pos..pos + 8];
      LittleEndianOfReverse(buf[pos..pos + 8]);
      v := LittleEndian(value[..]);
      U64AtBigEndian(buf, pos);
      pos := pos + 8;
    }

    /** The u64 read as a two's-complement int64; the cursor moves 8 bytes. */
    method GetI64() returns (v: i64)
      requires pos + 8 <= |buf|
      modifies this
      ensures pos == old(pos) + 8
      ensures v == Signed64(U64At(buf, old(pos)).value.value)
    {
      var u := GetU64();
      v := Signed64(u);
    }

    /**
     * A record version: one u16, or, when its bit 0x4000 is set, a byte count
     * spread over it and the next u16 that is computed and dropped, and then
     * the version as a third u16.
     */
    method GetVersion() returns (v: u32)
      requires VersionAt(buf, pos).Success?
      modifies this
      ensures Yields(VersionAt(buf, old(pos)), v, pos)
      ensures v < 0x1_0000
    {
      var first := GetU16();
      if !ExtendedVersion(first) {
        return first;
      }
      var low := GetU16();
      var nbytes: u32 := (first as int % 0x4000) * 0x1_0000 + low;
      var res := GetU16();
      return res;
    }

    /**
     * A length-prefixed string, with the cursor left just past the bytes
     * consumed. This is the reader the record decoders use; it differs from
     * GetStringAsWritten only in where the cursor ends after the escape form.
     */
    method GetString() returns (str: seq<u8>)
      requires StringAt(buf, pos).Success?
      modifies this
      ensures Yields(StringAt(buf, old(pos)), str, pos)
    {
      var len := buf[pos];
      var size := Signed8(len);
      pos := pos + 1;
      if size == 0 {
        return [];
      }
      if size == -1 {
        var n := GetI32();
        str := buf[pos..pos + n];
        pos := pos + n;
        return;
      }
      str := buf[pos..pos + size];
      pos := pos + size;
    }

    /**
     * The string reader as the source writes it: in the escape form the step
     * past the copied bytes moves a local copy of the cursor's address, so the
     * cursor stays just past the 4-byte length.
     */
    method GetStringAsWritten() returns (str: seq<u8>)
      requires StringAt(buf, pos).Success?
      modifies this
      ensures Yields(StringAtAsWritten(buf, old(pos)), str, pos)
      ensures str == StringAt(buf, old(pos)).value.value
      ensures buf[old(pos)] == EscapeByte ==> pos == old(pos) + 5
    {
      StringReadersAgree(buf, pos);
      var len := buf[pos];
      var size := Signed8(len);
      pos := pos + 1;
      if size == 0 {
        return [];
      }
      if size == -1 {
        var n := GetI32();
        str := buf[pos..pos + n];
        return;
      }
      str := buf[pos..pos + size];
      pos := pos + size;
    }
  }
}
