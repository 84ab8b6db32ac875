/**
 * The record decoders and the traversal of a file, written as the reader
 * writes them: each decoder advances one shared cursor field by field, and
 * each is proved to produce exactly what the matching decoder of module
 * Records produces, with the cursor left where that decoder stops.
 *
 * Strings are read with the corrected getter Cursor.GetString, which moves
 * the cursor past an escaped string; the reader's own getter stops inside
 * it (Cursor.GetStringAsWritten, Records.StringTripleShortfall).
 *
 * The reader fills the records it decodes through pointers; here each one is
 * returned as a value. The bytes the reader loads from the file (the leading
 * 300 bytes, a directory's key block, a blob) are parameters.
 */
module Bootstrap {
  import opened Bytes
  import opened Wire
  import opened Records
  import opened Aux

  /** A timestamp: one u32. */
  method FromBufDatime(c: Cursor) returns (d: Datime)
    requires c.pos + 4 <= |c.buf|
    modifies c
    ensures c.pos == old(c.pos) + 4
    ensures Yields(DatimeAt(c.buf, old(c.pos)), d, c.pos)
  {
    var raw := c.GetU32();
    d := Datime(raw);
  }

  /** A name, then a title. */
  method FromBufNamed(c: Cursor) returns (n: Named)
    requires NamedAt(c.buf, c.pos).Success?
    modifies c
    ensures Yields(NamedAt(c.buf, old(c.pos)), n, c.pos)
  {
    var name := c.GetString();
    var title := c.GetString();
    n := Named(name, title);
  }

  /**
   * The file header. A buffer that does not start with "root" stops the
   * reader (an assertion in the source); otherwise the end and free-list
   * offsets are read only for a large-file version and keep the values of
   * `prior`, the record being filled, for any other.
   */
  method FromBufFileHeader(c: Cursor, prior: FileHeader) returns (r: Result<FileHeader>)
    requires c.pos + 4 <= |c.buf|
    requires c.buf[c.pos..c.pos + 4] == Magic ==> FileHeaderAt(c.buf, c.pos, prior).Success?
    modifies c
    ensures r.Failure? <==> c.buf[old(c.pos)..old(c.pos) + 4] != Magic
    ensures r.Failure? ==>
      r.error == MalformedMagic &&
      FileHeaderAt(c.buf, old(c.pos), prior) == Failure(MalformedMagic)
    ensures r.Failure? ==> c.pos == old(c.pos)
    ensures r.Success? ==> Yields(FileHeaderAt(c.buf, old(c.pos), prior), r.value, c.pos)
  {
    if c.buf[c.pos..c.pos + 4] != Magic {
      return Failure(MalformedMagic);
    }
    FileHeaderSize(c.buf, c.pos, prior);
    c.pos := c.pos + 4;
    var version := c.GetU32();
    var begin := c.GetU32();
    var end, seekFree := prior.end, prior.seekFree;
    if version > LargeFileVersion {
      end := c.GetU64();
      seekFree := c.GetU64();
    }
    var nbytesFree := c.GetU32();
    var nfree := c.GetU32();
    var nbytesName := c.GetU32();
    var units := c.buf[c.pos];
    c.pos := c.pos + 1;
    var compress := c.GetU32();
    var seekInfo := c.GetU64();
    var nbytesInfo := c.GetU32();
    r := Success(FileHeader(version, begin, end, seekFree, nbytesFree, nfree, nbytesName, units,
                            compress, seekInfo, nbytesInfo));
  }

  /**
   * A key: its fixed fields, two offsets that are 64-bit for a version above
   * 1000 and zero-extended 32-bit otherwise, then three strings.
   */
  method FromBufKey(c: Cursor) returns (k: Key)
    requires KeyAt(c.buf, c.pos).Success?
    modifies c
    ensures Yields(KeyAt(c.buf, old(c.pos)), k, c.pos)
  {
    var totalBytes := c.GetU32();
    var version := c.GetVersion();
    var objBytes := c.GetU32();
    var datime := FromBufDatime(c);
    var keyBytes := c.GetU16();
    var cycle := c.GetU16();
    var seekKey, seekPDir;
    if version > LargeKeyVersion {
      seekKey := c.GetU64();
      seekPDir := c.GetU64();
    } else {
      seekKey := c.GetU32();
      seekPDir := c.GetU32();
    }
    var className := c.GetString();
    var objName := c.GetString();
    var objTitle := c.GetString();
    k := Key(totalBytes, version, objBytes, datime, keyBytes, cycle, seekKey, seekPDir,
             className, objName, objTitle);
  }

  /**
   * A directory: its version, two timestamps, two byte counts, then three
   * offsets that are 64-bit for a version above 1000 and 32-bit otherwise.
   */
  method FromBufDir(c: Cursor) returns (d: Directory)
    requires DirectoryAt(c.buf, c.pos).Success?
    modifies c
    ensures Yields(DirectoryAt(c.buf, old(c.pos)), d, c.pos)
  {
    var version := c.GetVersion();
    var created := FromBufDatime(c);
    var modified := FromBufDatime(c);
    var nbytesKeys := c.GetU32();
    var nbytesName := c.GetU32();
    var seekDir, seekParent, seekKeys;
    if version > LargeKeyVersion {
      seekDir := c.GetU64();
      seekParent := c.GetU64();
      seekKeys := c.GetU64();
    } else {
      seekDir := c.GetU32();
      seekParent := c.GetU32();
      seekKeys := c.GetU32();
    }
    d := Directory(version, created, modified, nbytesKeys, nbytesName, seekDir, seekParent, seekKeys);
  }

  /**
   * The loop of list_keys: while the index is below the signed count, one
   * more key is decoded where the previous one ended and stored at that
   * index of a fresh array. A negative count stores nothing.
   */
  method ReadKeys(c: Cursor, count: i32) returns (keys: array<Key>)
    requires KeysAt(c.buf, c.pos, KeyCount(count)).Success?
    modifies c
    ensures fresh(keys)
    ensures keys[..] == KeysAt(c.buf, old(c.pos), KeyCount(count)).value.value
    ensures c.pos == KeysAt(c.buf, old(c.pos), KeyCount(count)).value.next
  {
    var total := KeyCount(count);
    ghost var all := KeysAt(c.buf, c.pos, total).value.value;
    ghost var ends := KeysEnds(c.buf, c.pos, total);
    keys := new Key[total];
    var i := 0;
    while i < count
      invariant 0 <= i <= total
      invariant c.pos == ends[i]
      invariant forall j | 0 <= j < i :: keys[j] == all[j]
    {
      assert Yields(KeyAt(c.buf, ends[i]), all[i], ends[i + 1]);
      var k := FromBufKey(c);
      keys[i] := k;
      i := i + 1;
    }
  }

  /**
   * The keys of a directory, from its key block: the leading key is decoded
   * and dropped, the count is read into a signed int, and that many keys are
   * decoded into a fresh array, each where the previous one ended.
   */
  method ListKeys(block: seq<u8>) returns (count: i32, keys: array<Key>)
    requires KeyListAt(block).Success?
    ensures count == KeyListAt(block).value.count
    ensures keys[..] == KeyListAt(block).value.keys
    ensures fresh(keys)
  {
    var c := new Cursor(block, 0);
    var key := FromBufKey(c);
    var n := c.GetU32();
    count := Signed32(n);
    keys := ReadKeys(c, count);
  }


  /**
   * The root directory, from the leading 300 bytes of a file: the header is
   * decoded from the first byte and checked, then the root key, its
   * name/title pair and the directory are decoded one after another from
   * offset 100, wherever the header ended, through a second pointer that
   * starts at the first byte of the region. Only the directory is kept.
   */
  method GetTopDir(region: seq<u8>, prior: FileHeader) returns (r: Result<Directory>)
    requires |region| == LeadingRegionSize
    requires region[..4] == Magic ==> TopDirAt(region, prior).Success?
    ensures r.Failure? <==> region[..4] != Magic
    ensures r.Failure? ==> r.error == MalformedMagic && TopDirAt(region, prior) == Failure(MalformedMagic)
    ensures r.Success? ==> r.value == TopDirAt(region, prior).value.dir
  {
    assert region[0..4] == region[..4];
    FileHeaderMagic(region, 0, prior);
    var buffer := new Cursor(region, 0);
    var header := FromBufFileHeader(buffer, prior);
    if header.Failure? {
      TopDirMagic(region, prior);
      return Failure(MalformedMagic);
    }
    TopDirParts(region, prior);
    var start := new Cursor(region, 0);
    start.pos := start.pos + RootKeyOffset;
    var key := FromBufKey(start);
    var named := FromBufNamed(start);
    var dir := FromBufDir(start);
    r := Success(dir);
  }

  /** A blob: its key is decoded and the cursor is left on the first byte of the payload. */
  method GetBlob(blob: Cursor)
    requires KeyAt(blob.buf, blob.pos).Success?
    modifies blob
    ensures blob.pos == KeyAt(blob.buf, old(blob.pos)).value.next
  {
    var key := FromBufKey(blob);
  }
}
