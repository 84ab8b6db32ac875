/**
 * The primitive fields of the container's wire format, as total decoders.
 *
 * Each decoder reads at a byte position p of a buffer s and yields the value
 * together with the position just past the bytes it consumed, or the reason
 * the bytes cannot be decoded. These functions are the specification that the
 * cursor-advancing getters in module Aux are proved against; every decoder
 * here has an encoder beside it and a lemma that decoding an encoding gives
 * the value back.
 */
module Wire {
  import opened Bytes

  /** Why a decode cannot produce a value. */
  datatype Error =
    | MalformedMagic   // the leading four bytes are not "root"
    | TruncatedRead    // a field would extend past the end of the buffer
    | NegativeLength   // a string length the reader cannot allocate

  datatype Result<T> = Success(value: T) | Failure(error: Error) {
    predicate IsFailure() {
      Failure?
    }

    function PropagateFailure<U>(): Result<U>
      requires Failure?
    {
      Failure(error)
    }

    function Extract(): T
      requires Success?
    {
      value
    }
  }

  /** A decoded value and the position of the first byte after it. */
  datatype Decoded<T> = Decoded(value: T, next: nat)

  /** r is a successful decode of v that stops just before position next. */
  predicate Yields<T(==)>(r: Result<Decoded<T>>, v: T, next: nat) {
    r.Success? && r.value.value == v && r.value.next == next
  }

  /**
   * The encoding e lies in s starting at position p: byte by byte, so that
   * the fact stays inert until a proof unfolds it.
   */
  predicate At(s: seq<u8>, p: nat, e: seq<u8>)
    decreases |e|
  {
    p + |e| <= |s| && (|e| == 0 || (s[p] == e[0] && At(s, p + 1, e[1..])))
  }

  /** Every byte of an encoding that lies in s is the byte of s at its place. */
  lemma {:induction false} AtIndex(s: seq<u8>, p: nat, e: seq<u8>)
    requires At(s, p, e)
    ensures p + |e| <= |s|
    ensures forall i | 0 <= i < |e| :: s[p + i] == e[i]
    decreases |e|
  {
    if |e| > 0 {
      AtIndex(s, p + 1, e[1..]);
      forall i | 0 <= i < |e|
        ensures s[p + i] == e[i]
      {
        if i > 0 {
          assert e[1..][i - 1] == e[i];
        }
      }
    }
  }

  /** The bytes of s from p on, as many as e has, are e. */
  lemma AtSlice(s: seq<u8>, p: nat, e: seq<u8>)
    requires At(s, p, e)
    ensures s[p..p + |e|] == e
  {
    AtIndex(s, p, e);
    assert forall i | 0 <= i < |e| :: s[p..p + |e|][i] == e[i];
  }

  /** An encoding made of two parts lies in s exactly when each part lies in s, one after the other. */
  lemma {:induction false} AtSplit(s: seq<u8>, p: nat, a: seq<u8>, b: seq<u8>)
    requires At(s, p, a + b)
    ensures At(s, p, a) && At(s, p + |a|, b)
    decreases |a|
  {
    if |a| > 0 {
      assert (a + b)[0] == a[0];
      assert (a + b)[1..] == a[1..] + b;
      AtSplit(s, p + 1, a[1..], b);
    } else {
      assert a + b == b;
    }
  }

  // ---------------------------------------------------------------------
  // Fixed-width fields
  // ---------------------------------------------------------------------

  /** The n raw bytes at p (a memcpy out of the buffer). */
  function BytesAt(s: seq<u8>, p: nat, n: nat): (r: Result<Decoded<seq<u8>>>)
    ensures r.Success? <==> p + n <= |s|
    ensures r.Success? ==> r.value.next == p + n && r.value.value == s[p..p + n]
  {
    if p + n <= |s| then Success(Decoded(s[p..p + n], p + n)) else Failure(TruncatedRead)
  }

  /** One raw byte; reading at the end of the buffer is a truncated read. */
  function ByteAt(s: seq<u8>, p: nat): (r: Result<Decoded<u8>>)
    ensures r.Success? <==> p < |s|
    ensures r.Failure? ==> r.error == TruncatedRead
    ensures r.Success? ==> r.value.next == p + 1 && r.value.value == s[p]
  {
    if p < |s| then Success(Decoded(s[p], p + 1)) else Failure(TruncatedRead)
  }

  /** A big-endian 16-bit unsigned field. */
  function U16At(s: seq<u8>, p: nat): (r: Result<Decoded<u16>>)
    ensures r.Success? <==> p + 2 <= |s|
    ensures r.Failure? ==> r.error == TruncatedRead
    ensures r.Success? ==> r.value.next == p + 2
  {
    if p + 2 <= |s| then Success(Decoded(s[p] as int * 0x100 + s[p + 1], p + 2))
    else Failure(TruncatedRead)
  }

  /** A big-endian 32-bit unsigned field. */
  function U32At(s: seq<u8>, p: nat): (r: Result<Decoded<u32>>)
    ensures r.Success? <==> p + 4 <= |s|
    ensures r.Failure? ==> r.error == TruncatedRead
    ensures r.Success? ==> r.value.next == p + 4
  {
    if p + 4 <= |s| then
      Success(Decoded(
        s[p] as int * 0x100_0000 + s[p + 1] as int * 0x1_0000 + s[p + 2] as int * 0x100 + s[p + 3],
        p + 4))
    else Failure(TruncatedRead)
  }

  /** A big-endian 32-bit two's-complement field: negative exactly when its top bit is set. */
  function I32At(s: seq<u8>, p: nat): (r: Result<Decoded<i32>>)
    ensures r.Success? <==> p + 4 <= |s|
    ensures r.Failure? ==> r.error == TruncatedRead
    ensures r.Success? ==> r.value.next == p + 4 && (r.value.value < 0 <==> s[p] >= 0x80)
  {
    var u :- U32At(s, p);
    Success(Decoded(Signed32(u.value), u.next))
  }

  /** A big-endian 64-bit unsigned field: its high word, then its low word. */
  function U64At(s: seq<u8>, p: nat): (r: Result<Decoded<u64>>)
    ensures r.Success? <==> p + 8 <= |s|
    ensures r.Failure? ==> r.error == TruncatedRead
    ensures r.Success? ==> r.value.next == p + 8
  {
    var high :- U32At(s, p);
    var low :- U32At(s, high.next);
    Success(Decoded(high.value * 0x1_0000_0000 + low.value, low.next))
  }

  /** A 16-bit field is the big-endian value of its two bytes. */
  lemma U16AtBigEndian(s: seq<u8>, p: nat)
    ensures U16At(s, p).Success? <==> p + 2 <= |s|
    ensures p + 2 <= |s| ==> Yields(U16At(s, p), BigEndian(s[p..p + 2]), p + 2)
  {
    if p + 2 <= |s| {
      BigEndianOfTwo(s[p..p + 2]);
    }
  }

  /** A 32-bit field is the big-endian value of its four bytes. */
  lemma U32AtBigEndian(s: seq<u8>, p: nat)
    ensures U32At(s, p).Success? <==> p + 4 <= |s|
    ensures p + 4 <= |s| ==> Yields(U32At(s, p), BigEndian(s[p..p + 4]), p + 4)
  {
    if p + 4 <= |s| {
      BigEndianOfFour(s[p..p + 4]);
    }
  }

  /** A 64-bit field is the big-endian value of its eight bytes. */
  lemma U64AtBigEndian(s: seq<u8>, p: nat)
    ensures U64At(s, p).Success? <==> p + 8 <= |s|
    ensures p + 8 <= |s| ==> Yields(U64At(s, p), BigEndian(s[p..p + 8]), p + 8)
  {
    if p + 8 <= |s| {
      var t := s[p..p + 8];
      assert t[..4] == s[p..p + 4] && t[4..] == s[p + 4..p + 8];
      U32AtBigEndian(s, p);
      U32AtBigEndian(s, p + 4);
      BigEndianOfEight(t);
    }
  }

  lemma U16Back(s: seq<u8>, p: nat, v: u16)
    requires At(s, p, U16Bytes(v))
    ensures Yields(U16At(s, p), v, p + 2)
  {
    AtSlice(s, p, U16Bytes(v));
    U16AtBigEndian(s, p);
    U16BytesValue(v);
  }

  lemma U32Back(s: seq<u8>, p: nat, v: u32)
    requires At(s, p, U32Bytes(v))
    ensures Yields(U32At(s, p), v, p + 4)
  {
    AtSlice(s, p, U32Bytes(v));
    U32AtBigEndian(s, p);
    U32BytesValue(v);
  }

  lemma U64Back(s: seq<u8>, p: nat, v: u64)
    requires At(s, p, U64Bytes(v))
    ensures Yields(U64At(s, p), v, p + 8)
  {
    AtSplit(s, p, U32Bytes(v / 0x1_0000_0000), U32Bytes(v % 0x1_0000_0000));
    U32Back(s, p, v / 0x1_0000_0000);
    U32Back(s, p + 4, v % 0x1_0000_0000);
  }

  lemma ByteBack(s: seq<u8>, p: nat, v: u8)
    requires At(s, p, [v])
    ensures Yields(ByteAt(s, p), v, p + 1)
  {
    AtIndex(s, p, [v]);
    assert s[p + 0] == [v][0];
  }

  // ---------------------------------------------------------------------
  // Repetition
  // ---------------------------------------------------------------------

  /** n values packed one after another from p, each read where the previous one ended. */
  function Repeated<T>(decode: (seq<u8>, nat) -> Result<Decoded<T>>, s: seq<u8>, p: nat, n: nat)
    : (r: Result<Decoded<seq<T>>>)
    ensures r.Success? ==> |r.value.value| == n
    decreases n
  {
    if n == 0 then Success(Decoded([], p))
    else
      var init :- Repeated(decode, s, p, n - 1);
      var last :- decode(s, init.next);
      Success(Decoded(init.value + [last.value], last.next))
  }

  /** Reading n values succeeds for every shorter count, with the same values in front. */
  lemma {:induction false} RepeatedPrefix<T>(decode: (seq<u8>, nat) -> Result<Decoded<T>>,
                                             s: seq<u8>, p: nat, n: nat, m: nat)
    requires m <= n && Repeated(decode, s, p, n).Success?
    ensures Repeated(decode, s, p, m).Success?
    ensures Repeated(decode, s, p, m).value.value == Repeated(decode, s, p, n).value.value[..m]
    decreases n - m
  {
    if m < n {
      RepeatedPrefix(decode, s, p, n - 1, m);
      var init := Repeated(decode, s, p, n - 1).value.value;
      assert Repeated(decode, s, p, n).value.value[..n - 1] == init;
      assert Repeated(decode, s, p, n).value.value[..m] == init[..m];
    }
  }

  /** The value at index i is read where the first i values end. */
  lemma RepeatedStep<T>(decode: (seq<u8>, nat) -> Result<Decoded<T>>, s: seq<u8>, p: nat, i: nat)
    requires Repeated(decode, s, p, i + 1).Success?
    ensures Repeated(decode, s, p, i).Success?
    ensures decode(s, Repeated(decode, s, p, i).value.next).Success?
    ensures Repeated(decode, s, p, i + 1).value.value[i] ==
      decode(s, Repeated(decode, s, p, i).value.next).value.value
    ensures Repeated(decode, s, p, i + 1).value.next ==
      decode(s, Repeated(decode, s, p, i).value.next).value.next
  {
  }

  /**
   * The boundaries of a run of n values: n + 1 positions from its start to
   * its end, value j being the one read at boundary j and stopping at
   * boundary j + 1.
   */
  lemma {:induction false} RepeatedEnds<T>(decode: (seq<u8>, nat) -> Result<Decoded<T>>,
                                             s: seq<u8>, p: nat, n: nat)
    returns (ends: seq<nat>)
    requires Repeated(decode, s, p, n).Success?
    ensures |ends| == n + 1 && ends[0] == p && ends[n] == Repeated(decode, s, p, n).value.next
    ensures forall j | 0 <= j < n ::
      Yields(decode(s, ends[j]), Repeated(decode, s, p, n).value.value[j], ends[j + 1])
  {
    if n == 0 {
      ends := [p];
    } else {
      RepeatedStep(decode, s, p, n - 1);
      var init := RepeatedEnds(decode, s, p, n - 1);
      var run := Repeated(decode, s, p, n).value.value;
      assert run[..n - 1] == Repeated(decode, s, p, n - 1).value.value;
      ends := init + [Repeated(decode, s, p, n).value.next];
      forall j | 0 <= j < n
        ensures Yields(decode(s, ends[j]), run[j], ends[j + 1])
      {
        if j < n - 1 {
          assert ends[j] == init[j] && ends[j + 1] == init[j + 1];
          assert run[j] == run[..n - 1][j];
        } else {
          assert ends[j] == Repeated(decode, s, p, n - 1).value.next;
        }
      }
    }
  }

  /** A non-empty sequence is its prefix without the last element, then that element. */
  lemma InitLast<T>(xs: seq<T>)
    requires |xs| > 0
    ensures xs[..|xs| - 1] + [xs[|xs| - 1]] == xs
  {
  }

  /** One more value read after the first n extends the sequence by that value. */
  lemma RepeatedSnoc<T>(decode: (seq<u8>, nat) -> Result<Decoded<T>>, s: seq<u8>, p: nat,
                        vs: seq<T>, q: nat, v: T, q': nat)
    requires Yields(Repeated(decode, s, p, |vs|), vs, q)
    requires Yields(decode(s, q), v, q')
    ensures Yields(Repeated(decode, s, p, |vs| + 1), vs + [v], q')
  {
  }

  // ---------------------------------------------------------------------
  // Versions
  // ---------------------------------------------------------------------

  /** Bit 0x4000 of the first 16-bit word: a byte count precedes the version. */
  predicate ExtendedVersion(first: u16) {
    (first / 0x4000) % 2 == 1
  }

  /**
   * A record version. When bit 0x4000 of the first word is clear that word is
   * the version. When it is set, the low 14 bits of that word and the next
   * word form a byte count that the reader computes and throws away, and the
   * version is the third word.
   */
  function VersionAt(s: seq<u8>, p: nat): (r: Result<Decoded<u16>>)
    ensures r.Failure? ==> r.error == TruncatedRead
    ensures r.Success? ==> r.value.next == p + 2 || r.value.next == p + 6
    ensures r.Success? ==> r.value.next <= |s|
  {
    var first :- U16At(s, p);
    if !ExtendedVersion(first.value) then Success(first)
    else
      var low :- U16At(s, first.next);
      U16At(s, low.next)
  }

  /** The number of bytes the version at p occupies, decided by its first word. */
  function VersionWidth(s: seq<u8>, p: nat): nat
    requires p + 2 <= |s|
  {
    if ExtendedVersion(BigEndian(s[p..p + 2])) then 6 else 2
  }

  /**
   * The version consumes 2 bytes and is the first word when bit 0x4000 is
   * clear, and 6 bytes and is the third word when it is set; it fails exactly
   * when those bytes are not all in the buffer.
   */
  lemma VersionLayout(s: seq<u8>, p: nat)
    ensures VersionAt(s, p).Success? <==> p + 2 <= |s| && p + VersionWidth(s, p) <= |s|
    ensures VersionAt(s, p).Success? ==>
      && VersionAt(s, p).value.next == p + VersionWidth(s, p)
      && VersionAt(s, p).value.value == BigEndian(s[p + VersionWidth(s, p) - 2..p + VersionWidth(s, p)])
  {
    U16AtBigEndian(s, p);
    U16AtBigEndian(s, p + 2);
    U16AtBigEndian(s, p + 4);
  }

  /** The encoding of a version: one word, or a zero byte count and then the version. */
  function VersionBytes(v: u16): (e: seq<u8>)
    ensures |e| == if ExtendedVersion(v) then 6 else 2
  {
    if ExtendedVersion(v) then U16Bytes(0x4000) + U16Bytes(0) + U16Bytes(v) else U16Bytes(v)
  }

  lemma VersionBack(s: seq<u8>, p: nat, v: u16)
    requires At(s, p, VersionBytes(v))
    ensures Yields(VersionAt(s, p), v, p + |VersionBytes(v)|)
  {
    if ExtendedVersion(v) {
      AtSplit(s, p, U16Bytes(0x4000) + U16Bytes(0), U16Bytes(v));
      AtSplit(s, p, U16Bytes(0x4000), U16Bytes(0));
      U16Back(s, p, 0x4000);
      U16Back(s, p + 2, 0);
      U16Back(s, p + 4, v);
    } else {
      U16Back(s, p, v);
    }
  }

  // ---------------------------------------------------------------------
  // Strings
  // ---------------------------------------------------------------------

  /** The signed length byte that announces a 4-byte length. */
  const EscapeByte: u8 := 0xFF

  /**
   * A length-prefixed string, read so that the position ends just past the
   * bytes consumed: length 0 is the empty string, a length of 1 to 127 is
   * followed by that many bytes, and length -1 is followed by a 32-bit length
   * and then that many bytes. Other negative lengths cannot be allocated.
   */
  function StringAt(s: seq<u8>, p: nat): (r: Result<Decoded<seq<u8>>>)
    ensures r.Failure? ==> r.error == TruncatedRead || r.error == NegativeLength
    ensures r.Success? ==> p < |s| && r.value.next <= |s|
    ensures r.Success? ==> r.value.next == p + (if s[p] == EscapeByte then 5 else 1) + |r.value.value|
  {
    var len :- ByteAt(s, p);
    var l := Signed8(len.value);
    if l == 0 then Success(Decoded([], len.next))
    else if l == -1 then
      var n :- I32At(s, len.next);
      if n.value < 0 then Failure(NegativeLength) else BytesAt(s, n.next, n.value)
    else if l < 0 then Failure(NegativeLength)
    else BytesAt(s, len.next, l)
  }

  /** A string read at p is the bytes just before the position it stops at. */
  lemma StringLayout(s: seq<u8>, p: nat)
    requires StringAt(s, p).Success?
    ensures StringAt(s, p).value.value ==
      s[StringAt(s, p).value.next - |StringAt(s, p).value.value|..StringAt(s, p).value.next]
  {
  }

  /**
   * The string reader as the source writes it: in the escape branch the
   * 4-byte length is consumed through the caller's cursor, but the step past
   * the copied bytes is applied to a local copy of the cursor's address, so
   * the caller's position stays just past the length field.
   */
  function StringAtAsWritten(s: seq<u8>, p: nat): (r: Result<Decoded<seq<u8>>>)
    ensures r.Success? && p < |s| && s[p] == EscapeByte ==> r.value.next == p + 5
  {
    var len :- ByteAt(s, p);
    var l := Signed8(len.value);
    if l == 0 then Success(Decoded([], len.next))
    else if l == -1 then
      var n :- I32At(s, len.next);
      if n.value < 0 then Failure(NegativeLength)
      else
        var copied :- BytesAt(s, n.next, n.value);
        Success(Decoded(copied.value, n.next))
    else if l < 0 then Failure(NegativeLength)
    else BytesAt(s, len.next, l)
  }

  /**
   * The two readers fail on the same inputs and copy the same bytes; their
   * positions agree everywhere except after a non-empty escaped string.
   */
  lemma StringReadersAgree(s: seq<u8>, p: nat)
    ensures StringAtAsWritten(s, p).Success? <==> StringAt(s, p).Success?
    ensures StringAt(s, p).Failure? ==> StringAtAsWritten(s, p) == StringAt(s, p)
    ensures StringAt(s, p).Success? ==>
      && StringAtAsWritten(s, p).value.value == StringAt(s, p).value.value
      && (s[p] != EscapeByte || StringAt(s, p).value.value == [] <==>
          StringAtAsWritten(s, p).value.next == StringAt(s, p).value.next)
  {
  }

  /** Strings whose length the writer can put in the signed 32-bit escape field. */
  predicate StringEncodable(str: seq<u8>) {
    |str| < 0x8000_0000
  }

  /** The shortest encoding: one length byte up to 127 bytes, the escape form beyond. */
  function StringBytes(str: seq<u8>): (e: seq<u8>)
    requires StringEncodable(str)
  {
    if |str| < 0x80 then [|str|] + str else [EscapeByte] + U32Bytes(|str|) + str
  }

  /** Reading an encoded string gives it back and stops exactly after it. */
  lemma StringRoundTrip(s: seq<u8>, p: nat, str: seq<u8>)
    requires StringEncodable(str) && At(s, p, StringBytes(str))
    ensures Yields(StringAt(s, p), str, p + |StringBytes(str)|)
  {
    if |str| < 0x80 {
      AtSplit(s, p, [|str|], str);
      ByteBack(s, p, |str|);
      AtSlice(s, p + 1, str);
    } else {
      AtSplit(s, p, [EscapeByte] + U32Bytes(|str|), str);
      AtSplit(s, p, [EscapeByte], U32Bytes(|str|));
      ByteBack(s, p, EscapeByte);
      U32Back(s, p + 1, |str|);
      AtSlice(s, p + 5, str);
      EscapedStringOfParts(s, p, str);
    }
  }

  /** The escape byte, a 32-bit length and that many bytes read as one string. */
  lemma EscapedStringOfParts(s: seq<u8>, p: nat, str: seq<u8>)
    requires |str| < 0x8000_0000
    requires Yields(ByteAt(s, p), EscapeByte, p + 1)
    requires Yields(U32At(s, p + 1), |str|, p + 5)
    requires p + 5 + |str| <= |s| && s[p + 5..p + 5 + |str|] == str
    ensures Yields(StringAt(s, p), str, p + 5 + |str|)
  {
    assert Yields(I32At(s, p + 1), |str|, p + 5);
  }

  /** The encoded size is one length byte, or five when the escape is used, plus the bytes. */
  lemma StringBytesSize(str: seq<u8>)
    requires StringEncodable(str)
    ensures |StringBytes(str)| == (if |str| < 0x80 then 1 else 5) + |str|
  {
  }

  /**
   * The defect in the source's reader: after a string of 128 bytes or more,
   * which the escape form carries, the caller's position is 5 bytes in, not
   * past the string, so the next field is read from inside the string.
   */
  lemma EscapedStringShortfall(s: seq<u8>, p: nat, str: seq<u8>)
    requires StringEncodable(str) && |str| >= 0x80 && At(s, p, StringBytes(str))
    ensures Yields(StringAtAsWritten(s, p), str, p + 5)
    ensures p + 5 + |str| == p + |StringBytes(str)|
  {
    StringRoundTrip(s, p, str);
    StringReadersAgree(s, p);
    assert s[p] == EscapeByte;
  }

  /** A concrete instance: the one-byte string "A" in the escape form. */
  lemma EscapedStringExample()
    ensures Yields(StringAt([0xFF, 0, 0, 0, 1, 0x41], 0), [0x41], 6)
    ensures Yields(StringAtAsWritten([0xFF, 0, 0, 0, 1, 0x41], 0), [0x41], 5)
  {
    var s: seq<u8> := [0xFF, 0, 0, 0, 1, 0x41];
    var len: seq<u8> := [0, 0, 0, 1];
    assert s[1..5] == len;
    var z1, z2, z3: seq<u8> := [0], [0, 0], [0, 0, 0];
    assert z1[..0] == [] && z2[..1] == z1 && z3[..2] == z2 && len[..3] == z3;
    assert BigEndian(z1) == 0 && BigEndian(z2) == 0 && BigEndian(z3) == 0;
    assert BigEndian(len) == 1;
    assert s[5..6] == [0x41];
  }
}
