/**
 * The records of the container (timestamp, name/title pair, file header, key,
 * directory), the key block of a directory and the fixed leading region of a
 * file, as total decoders over a byte buffer with their encoders.
 *
 * The field widths of a record may depend on the record's own version: a
 * file header carries its 64-bit end and free-list offsets only when its
 * version exceeds 1000000, and a key or directory stores its offsets as
 * 64-bit integers when its version exceeds 1000 and as 32-bit integers
 * otherwise.
 */
module Records {
  import opened Bytes
  import opened Wire

  // ---------------------------------------------------------------------
  // Record values
  // ---------------------------------------------------------------------

  /** A packed date and time, kept as its raw 32-bit value. */
  datatype Datime = Datime(raw: u32)

  /** A name and a title, each an owned byte string. */
  datatype Named = Named(name: seq<u8>, title: seq<u8>)

  datatype FileHeader = FileHeader(
    version: u32,
    begin: u32,
    end: u64,          // present in the file only when version > 1000000
    seekFree: u64,     // present in the file only when version > 1000000
    nbytesFree: u32,
    nfree: u32,
    nbytesName: u32,
    units: u8,         // a C `char` in the source; kept as the raw byte, its sign is never used
    compress: u32,
    seekInfo: u64,
    nbytesInfo: u32)

  datatype Key = Key(
    totalBytes: u32,
    version: i32,
    objBytes: u32,
    datime: Datime,
    keyBytes: u16,
    cycle: u16,
    seekKey: u64,      // 32 bits wide in the file unless version > 1000
    seekPDir: u64,     // 32 bits wide in the file unless version > 1000
    className: seq<u8>,
    objName: seq<u8>,
    objTitle: seq<u8>)

  datatype Directory = Directory(
    version: u32,
    created: Datime,
    modified: Datime,
    nbytesKeys: u32,
    nbytesName: u32,
    seekDir: u64,      // the three offsets are 32 bits wide unless version > 1000
    seekParent: u64,
    seekKeys: u64)

  /** The leading key of a key block, the count read after it, and the keys that follow. */
  datatype Listing = Listing(dirKey: Key, count: i32, keys: seq<Key>)

  /** What the leading region of a file holds. */
  datatype TopDir = TopDir(header: FileHeader, key: Key, named: Named, dir: Directory)

  /** "root", the first four bytes of every file. */
  const Magic: seq<u8> := [0x72, 0x6F, 0x6F, 0x74]

  /** Header versions above this carry 64-bit end and free-list offsets. */
  const LargeFileVersion := 1000000

  /** Key and directory versions above this carry 64-bit offsets. */
  const LargeKeyVersion := 1000

  /** The number of bytes read from the start of a file to find the root directory. */
  const LeadingRegionSize := 300

  /** Where the root key starts in the leading region, whatever the header's size. */
  const RootKeyOffset := 100

  /** The one rule that chooses the width of key and directory offsets. */
  predicate WideOffsets(version: int) {
    version > LargeKeyVersion
  }

  // ---------------------------------------------------------------------
  // Decoders
  // ---------------------------------------------------------------------

  /** A timestamp: one packed 32-bit word. */
  function DatimeAt(s: seq<u8>, p: nat): (r: Result<Decoded<Datime>>)
    ensures r.Success? <==> p + 4 <= |s|
    ensures r.Failure? ==> r.error == TruncatedRead
    ensures r.Success? ==> r.value.next == p + 4
  {
    var raw :- U32At(s, p);
    Success(Decoded(Datime(raw.value), raw.next))
  }

  /** An offset: 8 bytes when wide, else 4 bytes zero-extended. */
  function OffsetAt(s: seq<u8>, p: nat, wide: bool): (r: Result<Decoded<u64>>)
    ensures r.Success? && !wide ==> r.value.value < 0x1_0000_0000
  {
    if wide then U64At(s, p)
    else
      var narrow :- U32At(s, p);
      Success(Decoded(narrow.value, narrow.next))
  }

  /**
   * A name and a title, each a length-prefixed string, read with the
   * corrected string reader; NamedAtAsWritten is the source's reading.
   */
  function NamedAt(s: seq<u8>, p: nat): (r: Result<Decoded<Named>>)
    ensures r.Success? ==> p + 2 + |r.value.value.name| + |r.value.value.title| <= r.value.next <= |s|
  {
    var name :- StringAt(s, p);
    var title :- StringAt(s, name.next);
    Success(Decoded(Named(name.value, title.value), title.next))
  }

  /**
   * The file header. The magic is checked first; the end and free-list
   * offsets are read only for a large-file version and otherwise keep the
   * values they had in `prior`, the record being filled.
   */
  function FileHeaderAt(s: seq<u8>, p: nat, prior: FileHeader): (r: Result<Decoded<FileHeader>>)
    ensures r.Success? ==> p + 4 <= |s| && s[p..p + 4] == Magic
    ensures r == Failure(MalformedMagic) ==> p + 4 <= |s| && s[p..p + 4] != Magic
    ensures r.Failure? && r.error != MalformedMagic ==> r.error == TruncatedRead
  {
    var magic :- BytesAt(s, p, 4);
    if magic.value != Magic then Failure(MalformedMagic)
    else
      var version :- U32At(s, magic.next);
      var begin :- U32At(s, version.next);
      var large := version.value > LargeFileVersion;
      var end :- if large then U64At(s, begin.next) else Success(Decoded(prior.end, begin.next));
      var seekFree :- if large then U64At(s, end.next) else Success(Decoded(prior.seekFree, end.next));
      var nbytesFree :- U32At(s, seekFree.next);
      var nfree :- U32At(s, nbytesFree.next);
      var nbytesName :- U32At(s, nfree.next);
      var units :- ByteAt(s, nbytesName.next);
      var compress :- U32At(s, units.next);
      var seekInfo :- U64At(s, compress.next);
      var nbytesInfo :- U32At(s, seekInfo.next);
      Success(Decoded(
        FileHeader(version.value, begin.value, end.value, seekFree.value, nbytesFree.value,
                   nfree.value, nbytesName.value, units.value, compress.value, seekInfo.value,
                   nbytesInfo.value),
        nbytesInfo.next))
  }

  /** The fixed-width fields that open a key, up to its offsets. */
  datatype KeyHead = KeyHead(
    totalBytes: u32, version: u16, objBytes: u32, datime: Datime, keyBytes: u16, cycle: u16)

  /** 18 bytes, or 22 when the version carries a byte count. */
  function KeyHeadAt(s: seq<u8>, p: nat): (r: Result<Decoded<KeyHead>>)
    ensures r.Failure? ==> r.error == TruncatedRead
    ensures r.Success? ==> (r.value.next == p + 18 || r.value.next == p + 22) && r.value.next <= |s|
  {
    var totalBytes :- U32At(s, p);
    var version :- VersionAt(s, totalBytes.next);
    var objBytes :- U32At(s, version.next);
    var datime :- DatimeAt(s, objBytes.next);
    var keyBytes :- U16At(s, datime.next);
    var cycle :- U16At(s, keyBytes.next);
    Success(Decoded(
      KeyHead(totalBytes.value, version.value, objBytes.value, datime.value, keyBytes.value,
              cycle.value),
      cycle.next))
  }

  /** Two offsets of the same width. */
  function OffsetPairAt(s: seq<u8>, p: nat, wide: bool): (r: Result<Decoded<(u64, u64)>>)
    ensures r.Success? && !wide ==> r.value.value.0 < 0x1_0000_0000 && r.value.value.1 < 0x1_0000_0000
  {
    var first :- OffsetAt(s, p, wide);
    var second :- OffsetAt(s, first.next, wide);
    Success(Decoded((first.value, second.value), second.next))
  }

  /** Three strings one after another, each read where the previous one stopped. */
  function StringTripleAt(s: seq<u8>, p: nat)
    : (r: Result<Decoded<(seq<u8>, seq<u8>, seq<u8>)>>)
    ensures r.Success? ==>
      p + 3 + |r.value.value.0| + |r.value.value.1| + |r.value.value.2| <= r.value.next <= |s|
  {
    var a :- StringAt(s, p);
    var b :- StringAt(s, a.next);
    var c :- StringAt(s, b.next);
    Success(Decoded((a.value, b.value, c.value), c.next))
  }

  /**
   * The three strings of a key read with the string reader as the source
   * writes it, where an escaped string leaves the position just past its
   * length field.
   */
  function StringTripleAtAsWritten(s: seq<u8>, p: nat)
    : (r: Result<Decoded<(seq<u8>, seq<u8>, seq<u8>)>>)
    ensures r.Success? ==> p + 3 <= r.value.next <= |s|
  {
    var a :- StringAtAsWritten(s, p);
    var b :- StringAtAsWritten(s, a.next);
    var c :- StringAtAsWritten(s, b.next);
    Success(Decoded((a.value, b.value, c.value), c.next))
  }

  /**
   * When none of the three length bytes is the escape byte, the source's
   * reading of the three strings is the corrected one, stop position
   * included.
   */
  lemma StringTripleReadersAgree(s: seq<u8>, p: nat)
    requires StringTripleAt(s, p).Success?
    ensures var a := StringAt(s, p).value.next; var b := StringAt(s, a).value.next;
      s[p] != EscapeByte && s[a] != EscapeByte && s[b] != EscapeByte ==>
        StringTripleAtAsWritten(s, p) == StringTripleAt(s, p)
  {
    var a := StringAt(s, p).value.next;
    var b := StringAt(s, a).value.next;
    StringReadersAgree(s, p);
    StringReadersAgree(s, a);
    StringReadersAgree(s, b);
  }

  /**
   * The bytes FF 00 00 00 01 00 00 00 hold an escaped one-byte string and two
   * empty strings. Both readers find the same three strings, but the source's
   * stops at 7, inside the record, where the corrected reader stops at 8, so
   * every field after a key's strings is read one byte early.
   */
  lemma StringTripleShortfall()
    ensures var s: seq<u8> := [0xFF, 0, 0, 0, 1, 0, 0, 0];
      && Yields(StringTripleAt(s, 0), ([0], [], []), 8)
      && Yields(StringTripleAtAsWritten(s, 0), ([0], [], []), 7)
  {
    var s: seq<u8> := [0xFF, 0, 0, 0, 1, 0, 0, 0];
    assert s[1..5] == [0, 0, 0, 1];
    assert s[5..6] == [0];
  }

  /**
   * A key: its fixed fields, two offsets whose width its own version decides,
   * and the class name, object name and object title, read with the
   * corrected string reader; KeyAtAsWritten is the source's reading.
   */
  function KeyAt(s: seq<u8>, p: nat): (r: Result<Decoded<Key>>)
    ensures r.Success? ==> p + 29 <= r.value.next <= |s|
    ensures r.Success? && !WideOffsets(r.value.value.version) ==>
      r.value.value.seekKey < 0x1_0000_0000 && r.value.value.seekPDir < 0x1_0000_0000
  {
    var head :- KeyHeadAt(s, p);
    var h := head.value;
    var offsets :- OffsetPairAt(s, head.next, WideOffsets(h.version));
    var strings :- StringTripleAt(s, offsets.next);
    Success(Decoded(
      Key(h.totalBytes, h.version, h.objBytes, h.datime, h.keyBytes, h.cycle,
          offsets.value.0, offsets.value.1, strings.value.0, strings.value.1, strings.value.2),
      strings.next))
  }
  /**
   * The name/title pair read with the string reader as the source writes it:
   * after an escaped name the title is read from inside the name.
   */
  function NamedAtAsWritten(s: seq<u8>, p: nat): (r: Result<Decoded<Named>>)
    ensures r.Success? ==> p + 2 <= r.value.next <= |s|
  {
    var name :- StringAtAsWritten(s, p);
    var title :- StringAtAsWritten(s, name.next);
    Success(Decoded(Named(name.value, title.value), title.next))
  }

  /** When neither length byte is 0xFF, the source's reading of the pair is the corrected one. */
  lemma NamedReadersAgree(s: seq<u8>, p: nat)
    requires NamedAt(s, p).Success?
    ensures var a := StringAt(s, p).value.next;
      s[p] != EscapeByte && s[a] != EscapeByte ==> NamedAtAsWritten(s, p) == NamedAt(s, p)
  {
    var a := StringAt(s, p).value.next;
    StringReadersAgree(s, p);
    StringReadersAgree(s, a);
  }

  /**
   * The bytes FF 00 00 00 02 01 41 00 hold an escaped two-byte name and an
   * empty title. The source's reading takes the title from inside the name:
   * the byte 01 becomes a length and the title is "A".
   */
  lemma NamedShortfall()
    ensures var s: seq<u8> := [0xFF, 0, 0, 0, 2, 0x01, 0x41, 0];
      && Yields(NamedAt(s, 0), Named([0x01, 0x41], []), 8)
      && Yields(NamedAtAsWritten(s, 0), Named([0x01, 0x41], [0x41]), 7)
  {
    var s: seq<u8> := [0xFF, 0, 0, 0, 2, 0x01, 0x41, 0];
    assert s[1..5] == [0, 0, 0, 2];
    assert s[5..7] == [0x01, 0x41];
    assert s[6..7] == [0x41];
  }

  /** A key read with the source's string reader for its three strings. */
  function KeyAtAsWritten(s: seq<u8>, p: nat): (r: Result<Decoded<Key>>)
    ensures r.Success? ==> p + 29 <= r.value.next <= |s|
  {
    var head :- KeyHeadAt(s, p);
    var h := head.value;
    var offsets :- OffsetPairAt(s, head.next, WideOffsets(h.version));
    var strings :- StringTripleAtAsWritten(s, offsets.next);
    Success(Decoded(
      Key(h.totalBytes, h.version, h.objBytes, h.datime, h.keyBytes, h.cycle,
          offsets.value.0, offsets.value.1, strings.value.0, strings.value.1, strings.value.2),
      strings.next))
  }

  /**
   * When none of the key's three length bytes is 0xFF, the source's reading
   * of the key is the corrected one, stop position included.
   */
  lemma KeyReadersAgree(s: seq<u8>, p: nat)
    requires KeyAt(s, p).Success?
    ensures var head := KeyHeadAt(s, p).value;
      var q := OffsetPairAt(s, head.next, WideOffsets(head.value.version)).value.next;
      var a := StringAt(s, q).value.next; var b := StringAt(s, a).value.next;
      s[q] != EscapeByte && s[a] != EscapeByte && s[b] != EscapeByte ==>
        KeyAtAsWritten(s, p) == KeyAt(s, p)
  {
    var head := KeyHeadAt(s, p).value;
    var q := OffsetPairAt(s, head.next, WideOffsets(head.value.version)).value.next;
    StringTripleReadersAgree(s, q);
  }


  /** The fixed-width fields that open a directory, up to its offsets. */
  datatype DirectoryHead = DirectoryHead(
    version: u16, created: Datime, modified: Datime, nbytesKeys: u32, nbytesName: u32)

  /** 18 bytes, or 22 when the version carries a byte count. */
  function DirectoryHeadAt(s: seq<u8>, p: nat): (r: Result<Decoded<DirectoryHead>>)
    ensures r.Failure? ==> r.error == TruncatedRead
    ensures r.Success? ==> (r.value.next == p + 18 || r.value.next == p + 22) && r.value.next <= |s|
  {
    var version :- VersionAt(s, p);
    var created :- DatimeAt(s, version.next);
    var modified :- DatimeAt(s, created.next);
    var nbytesKeys :- U32At(s, modified.next);
    var nbytesName :- U32At(s, nbytesKeys.next);
    Success(Decoded(
      DirectoryHead(version.value, created.value, modified.value, nbytesKeys.value,
                    nbytesName.value),
      nbytesName.next))
  }

  /** Three offsets of the same width. */
  function OffsetTripleAt(s: seq<u8>, p: nat, wide: bool): (r: Result<Decoded<(u64, u64, u64)>>)
    ensures r.Success? && !wide ==>
      r.value.value.0 < 0x1_0000_0000 && r.value.value.1 < 0x1_0000_0000 && r.value.value.2 < 0x1_0000_0000
  {
    var first :- OffsetAt(s, p, wide);
    var second :- OffsetAt(s, first.next, wide);
    var third :- OffsetAt(s, second.next, wide);
    Success(Decoded((first.value, second.value, third.value), third.next))
  }

  /** A directory: its fixed fields, then three offsets whose width its own version decides. */
  function DirectoryAt(s: seq<u8>, p: nat): (r: Result<Decoded<Directory>>)
    ensures r.Failure? ==> r.error == TruncatedRead
    ensures r.Success? && !WideOffsets(r.value.value.version) ==>
      && r.value.value.seekDir < 0x1_0000_0000
      && r.value.value.seekParent < 0x1_0000_0000
      && r.value.value.seekKeys < 0x1_0000_0000
  {
    var head :- DirectoryHeadAt(s, p);
    var h := head.value;
    var offsets :- OffsetTripleAt(s, head.next, WideOffsets(h.version));
    Success(Decoded(
      Directory(h.version, h.created, h.modified, h.nbytesKeys, h.nbytesName,
                offsets.value.0, offsets.value.1, offsets.value.2),
      offsets.next))
  }

  /** n keys packed one after another from p, each read where the previous one ended. */
  function KeysAt(s: seq<u8>, p: nat, n: nat): (r: Result<Decoded<seq<Key>>>)
    ensures r.Success? ==> |r.value.value| == n
    ensures n == 0 ==> r == Success(Decoded([], p))
  {
    Repeated(KeyAt, s, p, n)
  }

  /** The number of keys a count field announces once it is read into a C int. */
  function KeyCount(count: i32): nat {
    if count < 0 then 0 else count
  }

  /**
   * A directory's key block: one leading key, a 32-bit count read into a
   * signed int, and then that many keys (none when the count is negative).
   */
  function KeyListAt(s: seq<u8>): (r: Result<Listing>)
    ensures r.Success? ==> |r.value.keys| == KeyCount(r.value.count)
    ensures r.Success? && r.value.count <= 0 ==> r.value.keys == []
  {
    var dirKey :- KeyAt(s, 0);
    var n :- U32At(s, dirKey.next);
    var count := Signed32(n.value);
    var keys :- KeysAt(s, n.next, KeyCount(count));
    Success(Listing(dirKey.value, count, keys.value))
  }

  /**
   * The leading region of a file: the header from its first byte, then the
   * root key, its name/title pair and the root directory back to back from
   * a fixed offset of 100.
   */
  function TopDirAt(region: seq<u8>, prior: FileHeader): (r: Result<TopDir>)
    ensures r.Success? ==> 4 <= |region| && region[..4] == Magic
  {
    var header :- FileHeaderAt(region, 0, prior);
    var key :- KeyAt(region, RootKeyOffset);
    var named :- NamedAt(region, key.next);
    var dir :- DirectoryAt(region, named.next);
    Success(TopDir(header.value, key.value, named.value, dir.value))
  }

  // ---------------------------------------------------------------------
  // Sizes and layout facts
  // ---------------------------------------------------------------------

  /** The header takes 41 bytes with the magic, 57 when it carries the 64-bit end offsets. */
  lemma FileHeaderSize(s: seq<u8>, p: nat, prior: FileHeader)
    requires FileHeaderAt(s, p, prior).Success?
    ensures var d := FileHeaderAt(s, p, prior).value;
      d.next == p + (if d.value.version > LargeFileVersion then 57 else 41) && d.next <= |s|
  {
  }

  /** Below the large-file version the end and free-list offsets are left as they were. */
  lemma FileHeaderKeepsPrior(s: seq<u8>, p: nat, prior: FileHeader)
    requires FileHeaderAt(s, p, prior).Success?
    ensures var h := FileHeaderAt(s, p, prior).value.value;
      h.version <= LargeFileVersion ==> h.end == prior.end && h.seekFree == prior.seekFree
  {
  }

  /** The header fails on a bad magic exactly when the first four bytes are not "root". */
  lemma FileHeaderMagic(s: seq<u8>, p: nat, prior: FileHeader)
    requires p + 57 <= |s|
    ensures FileHeaderAt(s, p, prior) == Failure(MalformedMagic) <==> s[p..p + 4] != Magic
    ensures FileHeaderAt(s, p, prior).Success? <==> s[p..p + 4] == Magic
  {
  }

  /**
   * A directory consumes its version (2 or 6 bytes), two timestamps, two
   * sizes and then three offsets of 8 bytes each above version 1000, of 4
   * bytes each otherwise.
   */
  lemma DirectorySize(s: seq<u8>, p: nat)
    requires DirectoryAt(s, p).Success?
    ensures p + 2 <= |s|
    ensures var d := DirectoryAt(s, p).value;
      d.next == p + VersionWidth(s, p) + 16 + (if WideOffsets(d.value.version) then 24 else 12)
  {
    VersionLayout(s, p);
  }


  // ---------------------------------------------------------------------
  // Encoders
  // ---------------------------------------------------------------------

  function OffsetBytes(v: u64, wide: bool): (e: seq<u8>)
    requires wide || v < 0x1_0000_0000
    ensures |e| == if wide then 8 else 4
  {
    if wide then U64Bytes(v) else U32Bytes(v)
  }

  function NamedBytes(n: Named): seq<u8>
    requires StringEncodable(n.name) && StringEncodable(n.title)
  {
    StringBytes(n.name) + StringBytes(n.title)
  }

  /** The header with its magic; the 64-bit end offsets only for a large-file version. */
  function FileHeaderBytes(h: FileHeader): (e: seq<u8>)
    ensures |e| == if h.version > LargeFileVersion then 57 else 41
  {
    Magic + (U32Bytes(h.version) + (U32Bytes(h.begin) +
      ((if h.version > LargeFileVersion then U64Bytes(h.end) + U64Bytes(h.seekFree) else []) +
       FileHeaderTailBytes(h))))
  }

  /** Keys a writer can produce: a 16-bit version, offsets that fit their width, encodable strings. */
  predicate KeyEncodable(k: Key) {
    && 0 <= k.version < 0x1_0000
    && (WideOffsets(k.version) || (k.seekKey < 0x1_0000_0000 && k.seekPDir < 0x1_0000_0000))
    && StringEncodable(k.className) && StringEncodable(k.objName) && StringEncodable(k.objTitle)
  }

  function KeyHeadBytes(h: KeyHead): seq<u8> {
    U32Bytes(h.totalBytes) + (VersionBytes(h.version) + (U32Bytes(h.objBytes) +
    (U32Bytes(h.datime.raw) + (U16Bytes(h.keyBytes) + U16Bytes(h.cycle)))))
  }

  /** The fixed-width fields of a key. */
  function HeadOfKey(k: Key): (h: KeyHead)
    requires KeyEncodable(k)
    ensures h.version == k.version
  {
    KeyHead(k.totalBytes, k.version, k.objBytes, k.datime, k.keyBytes, k.cycle)
  }

  function OffsetPairBytes(a: u64, b: u64, wide: bool): seq<u8>
    requires wide || (a < 0x1_0000_0000 && b < 0x1_0000_0000)
  {
    OffsetBytes(a, wide) + OffsetBytes(b, wide)
  }

  function StringTripleBytes(a: seq<u8>, b: seq<u8>, c: seq<u8>): seq<u8>
    requires StringEncodable(a) && StringEncodable(b) && StringEncodable(c)
  {
    StringBytes(a) + (StringBytes(b) + StringBytes(c))
  }

  function KeyBytes(k: Key): seq<u8>
    requires KeyEncodable(k)
  {
    KeyHeadBytes(HeadOfKey(k)) +
    (OffsetPairBytes(k.seekKey, k.seekPDir, WideOffsets(k.version)) +
     StringTripleBytes(k.className, k.objName, k.objTitle))
  }

  predicate DirectoryEncodable(d: Directory) {
    && d.version < 0x1_0000
    && (WideOffsets(d.version) ||
        (d.seekDir < 0x1_0000_0000 && d.seekParent < 0x1_0000_0000 && d.seekKeys < 0x1_0000_0000))
  }

  function DirectoryHeadBytes(h: DirectoryHead): seq<u8> {
    VersionBytes(h.version) + (U32Bytes(h.created.raw) + (U32Bytes(h.modified.raw) +
    (U32Bytes(h.nbytesKeys) + U32Bytes(h.nbytesName))))
  }

  function DirectoryBytes(d: Directory): seq<u8>
    requires DirectoryEncodable(d)
  {
    var wide := WideOffsets(d.version);
    DirectoryHeadBytes(DirectoryHead(d.version, d.created, d.modified, d.nbytesKeys, d.nbytesName)) +
    (OffsetBytes(d.seekDir, wide) + (OffsetBytes(d.seekParent, wide) + OffsetBytes(d.seekKeys, wide)))
  }

  // ---------------------------------------------------------------------
  // Round trips
  // ---------------------------------------------------------------------

  lemma OffsetBack(s: seq<u8>, p: nat, v: u64, wide: bool)
    requires wide || v < 0x1_0000_0000
    requires At(s, p, OffsetBytes(v, wide))
    ensures Yields(OffsetAt(s, p, wide), v, p + |OffsetBytes(v, wide)|)
  {
    if wide { U64Back(s, p, v); } else { U32Back(s, p, v); }
  }

  /** A name/title pair reads back as written. */
  lemma NamedRoundTrip(s: seq<u8>, p: nat, n: Named)
    requires StringEncodable(n.name) && StringEncodable(n.title)
    requires At(s, p, NamedBytes(n))
    ensures Yields(NamedAt(s, p), n, p + |NamedBytes(n)|)
  {
    var a := StringBytes(n.name);
    AtSplit(s, p, a, StringBytes(n.title));
    StringRoundTrip(s, p, n.name);
    StringRoundTrip(s, p + |a|, n.title);
  }

  /**
   * A header reads back as written; the end and free-list offsets come back
   * only when the version carries them, and are otherwise those of `prior`.
   */
  lemma FileHeaderRoundTrip(s: seq<u8>, p: nat, h: FileHeader, prior: FileHeader)
    requires h.version <= LargeFileVersion ==> h.end == prior.end && h.seekFree == prior.seekFree
    requires At(s, p, FileHeaderBytes(h))
    ensures Yields(FileHeaderAt(s, p, prior), h, p + |FileHeaderBytes(h)|)
  {
    var large := h.version > LargeFileVersion;
    var tEnd := if large then U64Bytes(h.end) + U64Bytes(h.seekFree) else [];
    var tail := FileHeaderTailBytes(h);
    var t2 := U32Bytes(h.begin) + (tEnd + tail);
    assert FileHeaderBytes(h) == Magic + (U32Bytes(h.version) + t2);
    AtSplit(s, p, Magic, U32Bytes(h.version) + t2);
    AtSplit(s, p + 4, U32Bytes(h.version), t2);
    U32Back(s, p + 4, h.version);
    AtSplit(s, p + 8, U32Bytes(h.begin), tEnd + tail);
    U32Back(s, p + 8, h.begin);
    AtSplit(s, p + 12, tEnd, tail);
    if large {
      AtSplit(s, p + 12, U64Bytes(h.end), U64Bytes(h.seekFree));
      U64Back(s, p + 12, h.end);
      U64Back(s, p + 20, h.seekFree);
    }
    AtSlice(s, p, Magic);
    FileHeaderTailBack(s, p + 12 + |tEnd|, h);
    FileHeaderOfFields(s, p, h, prior, p + 12 + |tEnd|);
  }

  /** The fields after the end offsets, which every header carries. */
  function FileHeaderTailBytes(h: FileHeader): (e: seq<u8>)
    ensures |e| == 29
  {
    U32Bytes(h.nbytesFree) + (U32Bytes(h.nfree) + (U32Bytes(h.nbytesName) + ([h.units] +
    (U32Bytes(h.compress) + (U64Bytes(h.seekInfo) + U32Bytes(h.nbytesInfo))))))
  }

  lemma FileHeaderTailBack(s: seq<u8>, q: nat, h: FileHeader)
    requires At(s, q, FileHeaderTailBytes(h))
    ensures Yields(U32At(s, q), h.nbytesFree, q + 4)
    ensures Yields(U32At(s, q + 4), h.nfree, q + 8)
    ensures Yields(U32At(s, q + 8), h.nbytesName, q + 12)
    ensures Yields(ByteAt(s, q + 12), h.units, q + 13)
    ensures Yields(U32At(s, q + 13), h.compress, q + 17)
    ensures Yields(U64At(s, q + 17), h.seekInfo, q + 25)
    ensures Yields(U32At(s, q + 25), h.nbytesInfo, q + 29)
  {
    var t10 := U32Bytes(h.nbytesInfo);
    var t9 := U64Bytes(h.seekInfo) + t10;
    var t8 := U32Bytes(h.compress) + t9;
    var t7 := [h.units] + t8;
    var t6 := U32Bytes(h.nbytesName) + t7;
    var t5 := U32Bytes(h.nfree) + t6;
    AtSplit(s, q, U32Bytes(h.nbytesFree), t5);
    U32Back(s, q, h.nbytesFree);
    AtSplit(s, q + 4, U32Bytes(h.nfree), t6);
    U32Back(s, q + 4, h.nfree);
    AtSplit(s, q + 8, U32Bytes(h.nbytesName), t7);
    U32Back(s, q + 8, h.nbytesName);
    AtSplit(s, q + 12, [h.units], t8);
    ByteBack(s, q + 12, h.units);
    AtSplit(s, q + 13, U32Bytes(h.compress), t9);
    U32Back(s, q + 13, h.compress);
    AtSplit(s, q + 17, U64Bytes(h.seekInfo), t10);
    U64Back(s, q + 17, h.seekInfo);
    U32Back(s, q + 25, h.nbytesInfo);
  }

  /** The header decoder assembles the fields its field decoders find at their offsets. */
  lemma FileHeaderOfFields(s: seq<u8>, p: nat, h: FileHeader, prior: FileHeader, q: nat)
    requires h.version <= LargeFileVersion ==> h.end == prior.end && h.seekFree == prior.seekFree
    requires q == p + (if h.version > LargeFileVersion then 28 else 12)
    requires Yields(BytesAt(s, p, 4), Magic, p + 4)
    requires Yields(U32At(s, p + 4), h.version, p + 8)
    requires Yields(U32At(s, p + 8), h.begin, p + 12)
    requires h.version > LargeFileVersion ==>
      && Yields(U64At(s, p + 12), h.end, p + 20)
      && Yields(U64At(s, p + 20), h.seekFree, p + 28)
    requires Yields(U32At(s, q), h.nbytesFree, q + 4)
    requires Yields(U32At(s, q + 4), h.nfree, q + 8)
    requires Yields(U32At(s, q + 8), h.nbytesName, q + 12)
    requires Yields(ByteAt(s, q + 12), h.units, q + 13)
    requires Yields(U32At(s, q + 13), h.compress, q + 17)
    requires Yields(U64At(s, q + 17), h.seekInfo, q + 25)
    requires Yields(U32At(s, q + 25), h.nbytesInfo, q + 29)
    ensures Yields(FileHeaderAt(s, p, prior), h, q + 29)
  {
  }

  lemma KeyHeadBack(s: seq<u8>, p: nat, h: KeyHead)
    requires At(s, p, KeyHeadBytes(h))
    ensures Yields(KeyHeadAt(s, p), h, p + |KeyHeadBytes(h)|)
  {
    var t5 := U16Bytes(h.cycle);
    var t4 := U16Bytes(h.keyBytes) + t5;
    var t3 := U32Bytes(h.datime.raw) + t4;
    var t2 := U32Bytes(h.objBytes) + t3;
    var ev := VersionBytes(h.version);
    var t1 := ev + t2;
    AtSplit(s, p, U32Bytes(h.totalBytes), t1);
    U32Back(s, p, h.totalBytes);
    AtSplit(s, p + 4, ev, t2);
    VersionBack(s, p + 4, h.version);
    var q := p + 4 + |ev|;
    AtSplit(s, q, U32Bytes(h.objBytes), t3);
    U32Back(s, q, h.objBytes);
    AtSplit(s, q + 4, U32Bytes(h.datime.raw), t4);
    U32Back(s, q + 4, h.datime.raw);
    AtSplit(s, q + 8, U16Bytes(h.keyBytes), t5);
    U16Back(s, q + 8, h.keyBytes);
    U16Back(s, q + 10, h.cycle);
  }

  lemma OffsetPairBack(s: seq<u8>, p: nat, a: u64, b: u64, wide: bool)
    requires wide || (a < 0x1_0000_0000 && b < 0x1_0000_0000)
    requires At(s, p, OffsetPairBytes(a, b, wide))
    ensures Yields(OffsetPairAt(s, p, wide), (a, b), p + |OffsetPairBytes(a, b, wide)|)
  {
    var ea, eb := OffsetBytes(a, wide), OffsetBytes(b, wide);
    AtSplit(s, p, ea, eb);
    OffsetBack(s, p, a, wide);
    OffsetBack(s, p + |ea|, b, wide);
  }

  lemma StringTripleBack(s: seq<u8>, p: nat, a: seq<u8>, b: seq<u8>, c: seq<u8>)
    requires StringEncodable(a) && StringEncodable(b) && StringEncodable(c)
    requires At(s, p, StringTripleBytes(a, b, c))
    ensures Yields(StringTripleAt(s, p), (a, b, c), p + |StringTripleBytes(a, b, c)|)
  {
    var ea, eb, ec := StringBytes(a), StringBytes(b), StringBytes(c);
    AtSplit(s, p, ea, eb + ec);
    AtSplit(s, p + |ea|, eb, ec);
    StringRoundTrip(s, p, a);
    StringRoundTrip(s, p + |ea|, b);
    StringRoundTrip(s, p + |ea| + |eb|, c);
  }

  /** A key reads back as written and the position ends just past it. */
  lemma KeyRoundTrip(s: seq<u8>, p: nat, k: Key)
    requires KeyEncodable(k) && At(s, p, KeyBytes(k))
    ensures Yields(KeyAt(s, p), k, p + |KeyBytes(k)|)
  {
    AtSplit(s, p, KeyHeadBytes(HeadOfKey(k)),
            OffsetPairBytes(k.seekKey, k.seekPDir, WideOffsets(k.version)) +
            StringTripleBytes(k.className, k.objName, k.objTitle));
    AtSplit(s, p + |KeyHeadBytes(HeadOfKey(k))|,
            OffsetPairBytes(k.seekKey, k.seekPDir, WideOffsets(k.version)),
            StringTripleBytes(k.className, k.objName, k.objTitle));
    KeyHeadBack(s, p, HeadOfKey(k));
    OffsetPairBack(s, p + |KeyHeadBytes(HeadOfKey(k))|, k.seekKey, k.seekPDir, WideOffsets(k.version));
    StringTripleBack(s, p + |KeyHeadBytes(HeadOfKey(k))| +
                     |OffsetPairBytes(k.seekKey, k.seekPDir, WideOffsets(k.version))|,
                     k.className, k.objName, k.objTitle);
    KeyOfParts(s, p, k);
  }

  /** The key decoder assembles what its three parts find one after another. */
  lemma KeyOfParts(s: seq<u8>, p: nat, k: Key)
    requires KeyEncodable(k)
    requires Yields(KeyHeadAt(s, p), HeadOfKey(k), p + |KeyHeadBytes(HeadOfKey(k))|)
    requires Yields(OffsetPairAt(s, p + |KeyHeadBytes(HeadOfKey(k))|, WideOffsets(k.version)),
      (k.seekKey, k.seekPDir),
      p + |KeyHeadBytes(HeadOfKey(k))| + |OffsetPairBytes(k.seekKey, k.seekPDir, WideOffsets(k.version))|)
    requires Yields(StringTripleAt(s, p + |KeyHeadBytes(HeadOfKey(k))| +
        |OffsetPairBytes(k.seekKey, k.seekPDir, WideOffsets(k.version))|),
      (k.className, k.objName, k.objTitle),
      p + |KeyHeadBytes(HeadOfKey(k))| + |OffsetPairBytes(k.seekKey, k.seekPDir, WideOffsets(k.version))| +
        |StringTripleBytes(k.className, k.objName, k.objTitle)|)
    ensures Yields(KeyAt(s, p), k, p + |KeyBytes(k)|)
  {
  }

  lemma DirectoryHeadBack(s: seq<u8>, p: nat, h: DirectoryHead)
    requires At(s, p, DirectoryHeadBytes(h))
    ensures Yields(DirectoryHeadAt(s, p), h, p + |DirectoryHeadBytes(h)|)
  {
    var t4 := U32Bytes(h.nbytesName);
    var t3 := U32Bytes(h.nbytesKeys) + t4;
    var t2 := U32Bytes(h.modified.raw) + t3;
    var t1 := U32Bytes(h.created.raw) + t2;
    var ev := VersionBytes(h.version);
    AtSplit(s, p, ev, t1);
    VersionBack(s, p, h.version);
    var q := p + |ev|;
    AtSplit(s, q, U32Bytes(h.created.raw), t2);
    U32Back(s, q, h.created.raw);
    AtSplit(s, q + 4, U32Bytes(h.modified.raw), t3);
    U32Back(s, q + 4, h.modified.raw);
    AtSplit(s, q + 8, U32Bytes(h.nbytesKeys), t4);
    U32Back(s, q + 8, h.nbytesKeys);
    U32Back(s, q + 12, h.nbytesName);
  }

  lemma OffsetTripleBack(s: seq<u8>, p: nat, a: u64, b: u64, c: u64, wide: bool)
    requires wide || (a < 0x1_0000_0000 && b < 0x1_0000_0000 && c < 0x1_0000_0000)
    requires At(s, p, OffsetBytes(a, wide) + (OffsetBytes(b, wide) + OffsetBytes(c, wide)))
    ensures Yields(OffsetTripleAt(s, p, wide), (a, b, c),
      p + |OffsetBytes(a, wide) + (OffsetBytes(b, wide) + OffsetBytes(c, wide))|)
  {
    var ea, eb, ec := OffsetBytes(a, wide), OffsetBytes(b, wide), OffsetBytes(c, wide);
    AtSplit(s, p, ea, eb + ec);
    AtSplit(s, p + |ea|, eb, ec);
    OffsetBack(s, p, a, wide);
    OffsetBack(s, p + |ea|, b, wide);
    OffsetBack(s, p + |ea| + |eb|, c, wide);
  }

  /** A directory reads back as written and the position ends just past it. */
  lemma DirectoryRoundTrip(s: seq<u8>, p: nat, d: Directory)
    requires DirectoryEncodable(d) && At(s, p, DirectoryBytes(d))
    ensures Yields(DirectoryAt(s, p), d, p + |DirectoryBytes(d)|)
  {
    var wide := WideOffsets(d.version);
    var h := DirectoryHead(d.version, d.created, d.modified, d.nbytesKeys, d.nbytesName);
    var eh := DirectoryHeadBytes(h);
    var eo := OffsetBytes(d.seekDir, wide) + (OffsetBytes(d.seekParent, wide) + OffsetBytes(d.seekKeys, wide));
    AtSplit(s, p, eh, eo);
    DirectoryHeadBack(s, p, h);
    OffsetTripleBack(s, p + |eh|, d.seekDir, d.seekParent, d.seekKeys, wide);
  }


  // ---------------------------------------------------------------------
  // Composition: runs of keys, the key block, the leading region
  // ---------------------------------------------------------------------

  /**
   * A run of n keys splits into n keys, each found where the previous one
   * ended: the positions ends[0] = p, ..., ends[n] bound them.
   */
  lemma KeysEnds(s: seq<u8>, p: nat, n: nat) returns (ends: seq<nat>)
    requires KeysAt(s, p, n).Success?
    ensures |ends| == n + 1 && ends[0] == p && ends[n] == KeysAt(s, p, n).value.next
    ensures forall j | 0 <= j < n :: Yields(KeyAt(s, ends[j]), KeysAt(s, p, n).value.value[j], ends[j + 1])
  {
    ends := RepeatedEnds(KeyAt, s, p, n);
  }


  /**
   * Keys each found where the previous one ended read back as one run, in
   * the same order, ending where the last one ends.
   */
  lemma {:induction false} KeysOfParts(s: seq<u8>, ks: seq<Key>, pos: seq<nat>)
    requires |pos| == |ks| + 1
    requires forall i | 0 <= i < |ks| :: Yields(KeyAt(s, pos[i]), ks[i], pos[i + 1])
    ensures Yields(KeysAt(s, pos[0], |ks|), ks, pos[|ks|])
  {
    if ks != [] {
      var n := |ks| - 1;
      KeysOfParts(s, ks[..n], pos[..n + 1]);
      assert Yields(KeyAt(s, pos[n]), ks[n], pos[n + 1]);
      RepeatedSnoc(KeyAt, s, pos[0], ks[..n], pos[n], ks[n], pos[n + 1]);
      InitLast(ks);
    }
  }

  /** The key block decoder assembles the key, the count and the keys its parts find. */
  lemma KeyListOfParts(s: seq<u8>, dirKey: Key, ks: seq<Key>, q: nat, r: nat)
    requires |ks| < 0x8000_0000
    requires Yields(KeyAt(s, 0), dirKey, q)
    requires Yields(U32At(s, q), |ks|, q + 4)
    requires Yields(KeysAt(s, q + 4, |ks|), ks, r)
    ensures KeyListAt(s) == Success(Listing(dirKey, |ks|, ks))
  {
  }

  /**
   * A leading region that decodes holds a header at offset 0 and, from offset
   * 100, a key, a name/title pair and a directory, each starting where the
   * previous one ended; the directory is the one those parts find.
   */
  lemma TopDirParts(region: seq<u8>, prior: FileHeader)
    requires TopDirAt(region, prior).Success?
    ensures FileHeaderAt(region, 0, prior).Success?
    ensures KeyAt(region, RootKeyOffset).Success?
    ensures NamedAt(region, KeyAt(region, RootKeyOffset).value.next).Success?
    ensures DirectoryAt(region, NamedAt(region, KeyAt(region, RootKeyOffset).value.next).value.next).Success?
    ensures TopDirAt(region, prior).value ==
      TopDir(FileHeaderAt(region, 0, prior).value.value, KeyAt(region, RootKeyOffset).value.value,
             NamedAt(region, KeyAt(region, RootKeyOffset).value.next).value.value,
             DirectoryAt(region, NamedAt(region, KeyAt(region, RootKeyOffset).value.next).value.next).value.value)
  {
  }

  /** A leading region that does not start with the magic decodes to the magic error. */
  lemma TopDirMagic(region: seq<u8>, prior: FileHeader)
    requires |region| == LeadingRegionSize && region[..4] != Magic
    ensures TopDirAt(region, prior) == Failure(MalformedMagic)
  {
    assert region[0..4] == region[..4];
    FileHeaderMagic(region, 0, prior);
  }

  /** The leading-region decoder assembles the four records its parts find. */
  lemma TopDirOfParts(region: seq<u8>, prior: FileHeader, h: FileHeader, k: Key, n: Named,
                      d: Directory, q0: nat, q1: nat, q2: nat, q3: nat)
    requires Yields(FileHeaderAt(region, 0, prior), h, q0)
    requires Yields(KeyAt(region, RootKeyOffset), k, q1)
    requires Yields(NamedAt(region, q1), n, q2)
    requires Yields(DirectoryAt(region, q2), d, q3)
    ensures TopDirAt(region, prior) == Success(TopDir(h, k, n, d))
  {
  }
}
