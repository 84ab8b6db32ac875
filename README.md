# toros: a model of the ROOT file reader

toros reads the leading records of a ROOT file. A ROOT file starts with the
magic "root" and a file header. At offset 100 of the first 300 bytes sit the
key of the root directory, its name and title, and the directory record. A
directory's key block holds a leading key, a 32-bit count and then that many
keys, packed one after another. Every integer on the wire is big-endian.
Key and directory offsets are 64-bit when the record's version is above 1000
and 32-bit otherwise. The header's end and free-list offsets are present only
above version 1000000. Strings carry a one-byte signed length. The length
byte 0xFF announces a 4-byte length.

The reader walks a `char *` over a byte buffer. Every getter reads a field
where the pointer stands and moves the pointer past it. This project models
that reader in Dafny, in six modules:

- `Bytes` (bytes.dfy) has the fixed-width integer types and big- and
  little-endian values. It also has byte reversal, the C casts between
  signed and unsigned widths, and the big-endian encoders.
- `Wire` (wire.dfy) holds total decoders for each field kind. Each one
  returns the value and the position after it, or an error. The module also
  has encoders and round-trip lemmas, the version field and both string
  readers. `Repeated` reads values packed back to back.
- `Records` (records.dfy) holds the records: datime, name/title pair, file
  header, key and directory. It also has the key block and the leading
  region. For each record it gives a total decoder, an encoder, a layout
  lemma and a round trip. Composition lemmas build the key-block and
  leading-region decoders from their parts.
- `Aux` (aux.dfy) has the byte swaps as methods on arrays and the `Cursor`
  class (the buffer and the offset a `char *` has reached). The getters are
  methods that move the cursor, and each is proved to yield exactly what
  the matching `Wire` decoder yields.
- `Bootstrap` (bootstrap.dfy) has the record readers, `list_keys`,
  `get_top_dir` and `get_blob`. They make the source's calls in the source's
  order, with one exception: they read strings with the corrected string
  getter (see "## Findings"). Each is proved against the matching `Records`
  decoder, and those decoders read strings the corrected way too. On records
  where no string uses the escape form the two readings agree
  (`Records.NamedReadersAgree`, `Records.StringTripleReadersAgree`,
  `Records.KeyReadersAgree`).
- `Prime` (prime.dfy) has the trial-division check of test_prime.py. Its
  loop is proved against a first-divisor search, and the search is then
  related to primality.

toros/main.c repeats, line for line, the code of toros/aux.c and
toros/bootstrap.c that this model covers. The matching ranges are:

- the swaps: 15-36;
- the getters: 38-69;
- get_version: 79-87;
- get_string: 89-112 (the defect is at line 104);
- from_buf_datime: 209-211;
- from_buf_named: 217-220;
- from_buf_file_header: 267-295;
- from_buf_key: 339-356;
- from_buf_dir: 390-405;
- list_keys: 407-433;
- get_top_dir: 438-475;
- get_blob: 477-485.

Every member below that cites aux.c or bootstrap.c models the main.c copy as
well.

Where the prose description of the format and the code differ, the model
follows the code:

- A length byte from 1 to 127 (0x7F included) is a byte count. A negative
  length byte other than 0xFF would make memcpy copy a huge count. The model
  gives the failure `NegativeLength` for it.
- A bad magic ends the reader. It is modelled as the failure
  `MalformedMagic`.
- The code has no "unsupported version" error. Every version above the
  threshold selects the wide layout.

## Model

| member | source | states |
|---|---|---|
| Bytes.Reverse | toros/aux.c:3-24 | the result has the input's length, and byte i of the result is byte n-1-i of the input |
| Bytes.ReverseInvolution | toros/aux.c:3-24 | reversing the bytes twice gives the original bytes back |
| Bytes.LittleEndianOfReverse | toros/aux.c:26-31 | reading the reversed bytes least significant first (the host's order) gives the big-endian value of the original bytes, so a swap followed by reinterpretation reads the wire value |
| Bytes.BigEndian | toros/aux.c:26-31 | the big-endian value of n bytes is below 256^n |
| Bytes.LittleEndian | toros/aux.c:26-31 | the little-endian value of n bytes is below 256^n |
| Bytes.BigEndianBytes | toros/aux.c:26-53 | for v below 256^n, the encoding has n bytes and its big-endian value is v |
| Bytes.BigEndianBytesOfValue | toros/aux.c:26-53 | every byte string is the n-byte encoding of its own big-endian value, the inverse direction of BigEndianBytes |
| Bytes.Signed8 | toros/aux.c:78 | the int8_t reading of a byte is congruent to it modulo 256 and negative exactly when the top bit is set |
| Bytes.Signed16 | toros/aux.c:33-35 | the int16_t cast is congruent modulo 2^16 and negative exactly when bit 15 is set |
| Bytes.Signed32 | toros/aux.c:37-42 | the int reading of four bytes is congruent modulo 2^32 and negative exactly when bit 31 is set |
| Bytes.Signed64 | toros/aux.c:55-57 | the int64_t cast is congruent modulo 2^64 and negative exactly when bit 63 is set |
| Bytes.Unsigned32 | toros/aux.c:44-46 | the uint32_t cast is congruent modulo 2^32 and leaves non-negative values unchanged |
| Bytes.UnsignedOfSigned32 | toros/aux.c:44-46 | casting a u32 to int and back to uint32_t gives the original value |
| Bytes.U16Bytes | toros/aux.c:26-31 | the encoding of a u16 has 2 bytes |
| Bytes.U16BytesValue | toros/aux.c:26-31 | the 2-byte encoding has the encoded value as its big-endian value |
| Bytes.U32Bytes | toros/aux.c:44-46 | the encoding of a u32 has 4 bytes |
| Bytes.U32BytesValue | toros/aux.c:44-46 | the 4-byte encoding has the encoded value as its big-endian value |
| Bytes.U64Bytes | toros/aux.c:48-53 | the encoding of a u64 has 8 bytes |
| Bytes.U64BytesValue | toros/aux.c:48-53 | the 8-byte encoding has the encoded value as its big-endian value |
| Wire.BytesAt | toros/aux.c:96-99 | copying n bytes succeeds exactly when n bytes remain, gives exactly the n bytes at the position and stops n bytes further on |
| Wire.ByteAt | toros/bootstrap.c:91 | the one-byte read fails with TruncatedRead exactly at the end of the buffer, and otherwise gives the byte there and moves one byte on |
| Wire.U16At | toros/aux.c:26-31 | a 16-bit field fails, and only with TruncatedRead, exactly when fewer than 2 bytes remain, and otherwise consumes 2 bytes |
| Wire.U32At | toros/aux.c:44-46 | a 32-bit field fails, and only with TruncatedRead, exactly when fewer than 4 bytes remain, and otherwise consumes 4 bytes |
| Wire.I32At | toros/aux.c:37-42 | a signed 32-bit field consumes 4 bytes, fails only with TruncatedRead when they are missing, and is negative exactly when its first byte has the top bit set |
| Wire.U64At | toros/aux.c:48-53 | a 64-bit field fails, and only with TruncatedRead, exactly when fewer than 8 bytes remain, and otherwise consumes 8 bytes |
| Wire.U16AtBigEndian | toros/aux.c:26-31 | a 16-bit field decodes exactly when 2 bytes remain, to the big-endian value of those bytes, and stops 2 bytes on |
| Wire.U32AtBigEndian | toros/aux.c:37-46 | a 32-bit field decodes exactly when 4 bytes remain, to the big-endian value of those bytes, and stops 4 bytes on |
| Wire.U64AtBigEndian | toros/aux.c:48-53 | a 64-bit field decodes exactly when 8 bytes remain, to the big-endian value of those bytes, and stops 8 bytes on |
| Wire.U16Back | toros/aux.c:26-31 | the encoding of a u16, wherever it lies in a buffer, decodes to that u16 |
| Wire.U32Back | toros/aux.c:44-46 | the encoding of a u32 decodes to that u32 |
| Wire.U64Back | toros/aux.c:48-53 | the encoding of a u64 decodes to that u64 |
| Wire.ByteBack | toros/bootstrap.c:91 | a byte placed in the buffer is read back by the one-byte read |
| Wire.Repeated | toros/bootstrap.c:200-205 | reading n values one after another gives exactly n values |
| Wire.RepeatedPrefix | toros/bootstrap.c:200-205 | if n values decode, then so does every shorter count, with the same values in front |
| Wire.RepeatedStep | toros/bootstrap.c:200-205 | value i is the one decoded where the first i values end, and the run of i+1 values stops where that value stops |
| Wire.RepeatedEnds | toros/bootstrap.c:200-205 | a run of n values has n+1 boundary positions from its start to its end, and value j is the one decoded at boundary j, stopping at boundary j+1 |
| Wire.RepeatedSnoc | toros/bootstrap.c:200-205 | one more value decoded where a run ends extends the run by that value |
| Wire.VersionAt | toros/aux.c:67-75 | a version fails only with TruncatedRead and otherwise consumes 2 or 6 bytes, all inside the buffer |
| Wire.VersionLayout | toros/aux.c:67-75 | a version decodes exactly when its 2 or 6 bytes remain (6 when bit 0x4000 of the first word is set); it stops that many bytes on and is the big-endian value of the last word read |
| Wire.VersionBytes | toros/aux.c:67-75 | the encoding of a version has 6 bytes when its own bit 0x4000 is set and 2 otherwise |
| Wire.VersionBack | toros/aux.c:67-75 | an encoded version decodes to itself and consumes its encoding |
| Wire.StringAt | toros/aux.c:77-100 | a string fails only with TruncatedRead or NegativeLength; a decoded one lies inside the buffer and stops its own length after a length field of 1 byte, or of 5 bytes after the escape byte |
| Wire.StringLayout | toros/aux.c:96-99 | a decoded string is the bytes just before the position where it stops |
| Wire.StringAtAsWritten | toros/aux.c:77-100 | the string reader as written stops 5 bytes after the start whenever the escape byte leads |
| Wire.StringReadersAgree | toros/aux.c:77-100 | the as-written and corrected string readers succeed and fail on the same inputs and give the same bytes, and they differ in the stop position only after the escape byte |
| Wire.StringRoundTrip | toros/aux.c:77-100 | an encoded string (one length byte up to 127 bytes, the escape form beyond) decodes to itself and stops exactly after its encoding |
| Wire.EscapedStringOfParts | toros/aux.c:88-93 | the escape byte, a 32-bit length below 2^31 and that many bytes decode together as one string that stops after those bytes |
| Wire.StringBytesSize | toros/aux.c:77-100 | a string's encoding is 1 or 5 length bytes longer than the string |
| Wire.EscapedStringShortfall | toros/aux.c:92 | on every string in the escape form, the as-written reader gives the right bytes but stops the string's length short of the end of its encoding |
| Wire.EscapedStringExample | toros/aux.c:88-93 | for the bytes FF 00 00 00 01 41, the corrected reader stops at 6 and the as-written reader stops at 5 |
| Records.DatimeAt | toros/bootstrap.c:8-10 | a timestamp decodes exactly when 4 bytes remain, fails only with TruncatedRead, and consumes 4 bytes |
| Records.NamedAt | toros/bootstrap.c:32-35 | a decoded name/title pair takes at least its two length bytes and the bytes of both strings, and ends inside the buffer |
| Records.FileHeaderAt | toros/bootstrap.c:67-95 | a header is accepted only after the four bytes "root"; MalformedMagic is reported only when four bytes are present and differ from "root", and every other failure is TruncatedRead |
| Records.KeyHeadAt | toros/bootstrap.c:125-130 | the fixed fields of a key take 18 bytes, or 22 when the version carries a byte count, inside the buffer; the only failure is TruncatedRead |
| Records.StringTripleAt | toros/bootstrap.c:138-140 | the three strings take at least their three length bytes and all their bytes, and end inside the buffer |
| Records.StringTripleAtAsWritten | toros/bootstrap.c:138-140 | the source's reading of the three strings also moves at least three bytes and stays inside the buffer |
| Records.StringTripleReadersAgree | toros/bootstrap.c:138-140 | when none of the three length bytes is 0xFF, the source's reading of the three strings equals the corrected one, values and stop position |
| Records.StringTripleShortfall | toros/bootstrap.c:138-140 | for the bytes FF 00 00 00 01 00 00 00 both readings give the strings "\x00", "" and "", but the corrected one stops at 8 and the source's at 7 |
| Records.KeyAt | toros/bootstrap.c:124-141 | a decoded key takes at least 29 bytes and ends inside the buffer, and at or below version 1000 both seek offsets are below 2^32 |
| Records.NamedAtAsWritten | toros/bootstrap.c:32-35 | the source's reading of the pair, with both get_string calls as written, moves at least two bytes and stays inside the buffer |
| Records.NamedReadersAgree | toros/bootstrap.c:32-35 | when neither length byte is 0xFF, the source's reading of the pair equals the corrected one, values and stop position |
| Records.NamedShortfall | toros/bootstrap.c:33-34 | for the bytes FF 00 00 00 02 01 41 00 the corrected reading gives the name 01 41, an empty title and stops at 8; the source's reading takes the title "A" from inside the name and stops at 7 |
| Records.KeyAtAsWritten | toros/bootstrap.c:124-141 | the source's reading of a key, with its three strings read as written, takes at least 29 bytes and stays inside the buffer |
| Records.KeyReadersAgree | toros/bootstrap.c:124-141 | when none of the key's three length bytes is 0xFF, the source's reading of the key equals the corrected one, stop position included |
| Records.DirectoryHeadAt | toros/bootstrap.c:164-168 | the fixed fields of a directory take 18 bytes, or 22 when the version carries a byte count, inside the buffer; the only failure is TruncatedRead |
| Records.DirectoryAt | toros/bootstrap.c:163-178 | a directory fails only with TruncatedRead, and at or below version 1000 all three offsets are below 2^32 |
| Records.KeysAt | toros/bootstrap.c:200-205 | a run of n keys decodes to exactly n keys, and a run of none is empty and stops where it starts |
| Records.KeyListAt | toros/bootstrap.c:180-206 | a key block holds exactly as many keys as its count read as a C int, and none when that count is zero or negative |
| Records.TopDirAt | toros/bootstrap.c:211-248 | a leading region decodes only when it starts with "root" |
| Records.OffsetAt | toros/bootstrap.c:131-137 | a narrow offset is a zero-extended 32-bit value |
| Records.OffsetPairAt | toros/bootstrap.c:131-137 | both offsets of a narrow pair are below 2^32 |
| Records.OffsetTripleAt | toros/bootstrap.c:169-177 | all three offsets of a narrow triple are below 2^32 |
| Records.FileHeaderSize | toros/bootstrap.c:67-95 | a decoded header takes 57 bytes above version 1000000 and 41 bytes otherwise, and stops inside the buffer |
| Records.FileHeaderKeepsPrior | toros/bootstrap.c:84-87 | at or below version 1000000 the end and free-list offsets keep the values of the record being filled |
| Records.FileHeaderMagic | toros/bootstrap.c:70-73 | with the header's bytes present, the decode fails with MalformedMagic exactly when the first four bytes are not "root", and succeeds exactly when they are |
| Records.DirectorySize | toros/bootstrap.c:163-178 | a directory takes its version (2 or 6 bytes), 16 bytes of fixed fields and 24 or 12 bytes of offsets, by its version |
| Records.OffsetBytes | toros/bootstrap.c:131-137 | an offset is written in 8 bytes when wide and in 4 bytes otherwise |
| Records.FileHeaderBytes | toros/bootstrap.c:67-95 | a header is written in 57 bytes above version 1000000 and in 41 bytes otherwise |
| Records.OffsetBack | toros/bootstrap.c:131-137 | an offset written in either width reads back as itself |
| Records.NamedRoundTrip | toros/bootstrap.c:32-35 | a name/title pair reads back as written and stops after it |
| Records.FileHeaderRoundTrip | toros/bootstrap.c:67-95 | a written header reads back as itself, given that below the large-file version its end offsets equal those of the record being filled |
| Records.FileHeaderTailBack | toros/bootstrap.c:88-94 | each field after the end offsets reads back at its fixed distance from the start of that tail |
| Records.FileHeaderOfFields | toros/bootstrap.c:67-95 | the header decoder assembles the fields found at their offsets into the header |
| Records.KeyHeadBack | toros/bootstrap.c:125-130 | the fixed fields of a key read back as written |
| Records.OffsetPairBack | toros/bootstrap.c:131-137 | a written pair of seek offsets reads back in its width |
| Records.StringTripleBack | toros/bootstrap.c:138-140 | the class name, object name and title read back as written |
| Records.KeyRoundTrip | toros/bootstrap.c:124-141 | a written key reads back as itself, and the position stops just past it |
| Records.KeyOfParts | toros/bootstrap.c:124-141 | the key decoder assembles its fixed fields, offsets and strings, each read where the previous part ends |
| Records.DirectoryHeadBack | toros/bootstrap.c:164-168 | the fixed fields of a directory read back as written |
| Records.OffsetTripleBack | toros/bootstrap.c:169-177 | three written offsets of one width read back as written |
| Records.DirectoryRoundTrip | toros/bootstrap.c:163-178 | a written directory reads back as itself, and the position stops just past it |
| Records.KeysEnds | toros/bootstrap.c:200-205 | a run of n keys has n+1 boundary positions, from its start to its end, and key j is the one decoded from boundary j, stopping at boundary j+1 |
| Records.KeysOfParts | toros/bootstrap.c:200-205 | keys that each decode where the previous one stops form a run that decodes to exactly those keys |
| Records.KeyListOfParts | toros/bootstrap.c:180-206 | a leading key, a count and that many keys read one after another make up the decoded key block |
| Records.TopDirParts | toros/bootstrap.c:211-248 | a decoded leading region is the header at byte 0, the key at byte 100, and the name/title pair and directory that follow that key |
| Records.TopDirMagic | toros/bootstrap.c:70-73 | a leading region that does not start with "root" decodes to MalformedMagic |
| Records.TopDirOfParts | toros/bootstrap.c:211-248 | the four records found in order make up the decoded leading region |
| Aux.Swap16 | toros/aux.c:3-6 | the destination holds the two source bytes in reverse order |
| Aux.Swap32 | toros/aux.c:8-13 | the destination holds the four source bytes in reverse order |
| Aux.Swap64 | toros/aux.c:15-24 | the destination holds the eight source bytes in reverse order |
| Aux.Cursor.GetU16 | toros/aux.c:26-31 | the getter returns the 16-bit field at the cursor and moves the cursor 2 bytes |
| Aux.Cursor.GetI16 | toros/aux.c:33-35 | the getter returns the field's int16_t reading and moves the cursor 2 bytes |
| Aux.Cursor.GetI32 | toros/aux.c:37-42 | the getter returns the 32-bit field read as a signed int and moves the cursor 4 bytes |
| Aux.Cursor.GetU32 | toros/aux.c:44-46 | the signed read cast back to unsigned is the 32-bit field, and the cursor moves 4 bytes |
| Aux.Cursor.GetU64 | toros/aux.c:48-53 | the getter returns the 64-bit field and moves the cursor 8 bytes |
| Aux.Cursor.GetI64 | toros/aux.c:55-57 | the getter returns the field's int64_t reading and moves the cursor 8 bytes |
| Aux.Cursor.GetVersion | toros/aux.c:67-75 | the getter returns the version the decoder finds, below 2^16, with the cursor past its 2 or 6 bytes |
| Aux.Cursor.GetString | toros/aux.c:77-100 | the corrected getter returns the decoded string, and the cursor stops exactly past the bytes consumed |
| Aux.Cursor.GetStringAsWritten | toros/aux.c:77-100 | the getter as written returns the right bytes but, after the escape byte, leaves the cursor 5 bytes past the start |
| Bootstrap.FromBufDatime | toros/bootstrap.c:8-10 | the reader returns the timestamp at the cursor and moves it 4 bytes |
| Bootstrap.FromBufNamed | toros/bootstrap.c:32-35 | the reader returns the name/title pair the decoder finds, with the cursor just past it |
| Bootstrap.FromBufFileHeader | toros/bootstrap.c:67-95 | the reader fails with MalformedMagic exactly when the first four bytes are not "root", and then leaves the cursor where it was; otherwise it returns the header the decoder finds, given the prior content of the record, and leaves the cursor just past the header |
| Bootstrap.FromBufKey | toros/bootstrap.c:124-141 | the reader returns the key the decoder finds, with the cursor just past it |
| Bootstrap.FromBufDir | toros/bootstrap.c:163-178 | the reader returns the directory the decoder finds, with the cursor just past it |
| Bootstrap.ReadKeys | toros/bootstrap.c:200-205 | the loop fills a fresh array with exactly the keys the run decoder finds for the signed count, none for a negative count, and leaves the cursor where that run ends |
| Bootstrap.ListKeys | toros/bootstrap.c:180-206 | the count is the signed reading of the field after the leading key, and the fresh array holds exactly the keys the key-block decoder finds, in order |
| Bootstrap.GetTopDir | toros/bootstrap.c:211-248 | the reader fails exactly when the region does not start with "root"; otherwise it returns the directory the leading-region decoder finds after the root key and its name/title pair at offset 100 |
| Bootstrap.GetBlob | toros/bootstrap.c:250-258 | the blob cursor is left just past the blob's key, on the first byte of the payload |
| Prime.ISqrt | test_prime.py:4 | the result is the integer square root: its square does not exceed n, and the square of the next integer does |
| Prime.FirstDivisor | test_prime.py:5-7 | a divisor the search returns lies in the searched range and divides the value |
| Prime.FirstDivisorLeast | test_prime.py:5-7 | a divisor the increasing search returns lies in the range, divides the value, and no smaller candidate in the range does |
| Prime.FirstDivisorNone | test_prime.py:5-8 | the search finds nothing exactly when no candidate in the range divides the value |
| Prime.Run | test_prime.py:3-8 | a negative value raises ValueError; otherwise the answer is true exactly when the search over 2..isqrt(value) finds no divisor |
| Prime.SmallValuesReportedPrime | test_prime.py:4-8 | every value from 0 to 3, including 0 and 1, is reported prime |
| Prime.SmallDivisor | test_prime.py:4-5 | a value with a divisor between 2 and itself has one no larger than its square root |
| Prime.RunDecidesPrimality | test_prime.py:3-8 | for a value of at least 2, the answer is true exactly when the value is prime |

## Left out

- File access is not modelled: opening the file, fseek and fread. The bytes
  the reader loads are parameters instead: the leading 300 bytes, the key
  block of nbytes_keys bytes at seek_keys, and the blob of total_bytes at
  seek_key. The byte count fread returns is ignored, as the source ignores
  it.
- The debug output (printf, dump_raw, the print_* functions) is not
  modelled. Neither is memory management. The ctor_* functions are empty.
  dtor_named and dtor_key free their strings (toros/bootstrap.c:39-42,
  118-122), and the other dtor_* functions are empty. malloc, free and the
  NUL byte stored for an empty string are not modelled. Strings are owned
  byte sequences.
- get_f64 and get_f32 (toros/aux.c:59-65) are not modelled. They convert
  integers to floating point, and nothing in the core calls them.
- dump_contents, test and main (toros/bootstrap.c:260 on, toros/main.c:487
  on) drive the reader from the command line and are not modelled.
- The blob payload after a key is not interpreted. get_blob only moves past
  the key.
- The records are returned as values. The source fills them through
  pointers. `list_keys` returns its count and a fresh array instead of
  writing through `pnkeys` and `pkeys`.
- The header record in get_top_dir is an uninitialised stack variable, and
  below version 1000000 its end offsets are never written. Its prior content
  is the parameter `prior`.
- The byte count computed in get_version (toros/aux.c:72) is dropped, as the
  source drops it.
- The host is taken to be little-endian. Each getter reverses the bytes and
  reinterprets them in the host's order.
- Aux.Cursor.GetString requires a successful decode. The same holds for the
  other getters and the Bootstrap readers. The source reads past the buffer
  otherwise, with undefined behaviour. The failures TruncatedRead and
  NegativeLength of the total decoders in Wire and Records belong to the
  model, not to the source. A length byte below -1, or a negative escaped
  length, would make the source's memcpy read a huge count.
- Bootstrap.FromBufFileHeader returns MalformedMagic where the source
  asserts and aborts.
- No single lemma writes a whole key block or leading region and reads it
  back. That round trip follows from the per-record round trips together
  with Records.KeysOfParts, Records.KeyListOfParts and Records.TopDirOfParts.
- Records.NamedAt: reads both strings with the corrected reader. After an
  escaped name the source reads the title from inside the name
  (Records.NamedShortfall), so the two differ there; they agree when neither
  length byte is 0xFF (Records.NamedReadersAgree).
- Records.KeyAt: reads the three strings with the corrected reader. After an
  escaped string the source's from_buf_key reads the later strings from
  inside it and stops elsewhere (Records.KeyAtAsWritten); the two agree when
  no length byte is 0xFF (Records.KeyReadersAgree).
- Records.KeysAt: starts each key where the corrected Records.KeyAt stopped.
  After a key with an escaped string the source's loop starts the next key
  inside that string.
- Records.KeyListAt: decodes the leading key, the count and the keys with
  the corrected reader, so after an escaped string its count and keys differ
  from what list_keys reads.
- Records.TopDirAt: reads the name/title pair and the directory from where
  the corrected reader stops. After an escaped string in the root key or the
  pair, get_top_dir reads them from inside that string.
- Records.NamedRoundTrip: is a round trip of the corrected string reader.
  With the source's reader (toros/aux.c:92) it holds only when both strings
  are shorter than 128 bytes, since longer ones are written in the escape
  form.
- Records.StringTripleBack: is a round trip of the corrected string reader.
  With the source's reader it holds only when all three strings are shorter
  than 128 bytes (Records.StringTripleShortfall shows the stop position
  differing).
- Records.KeyRoundTrip: is a round trip of the corrected string reader. With
  the source's reader it holds only for keys whose three strings are all
  shorter than 128 bytes.
- Bootstrap.FromBufNamed: reads its strings with the corrected getter. It
  agrees with toros/bootstrap.c:33-34 only when neither string uses the
  escape form.
- Bootstrap.FromBufKey: reads its three strings with the corrected getter. It
  agrees with toros/bootstrap.c:138-140 only when no string uses the escape
  form (Records.StringTripleReadersAgree). Otherwise the source reads the
  later strings from inside the escaped one and stops before the key's end.
- Bootstrap.ReadKeys: starts each key where the corrected reader left the
  previous one. After a key with an escaped string the source starts the
  next key inside that string.
- Bootstrap.ListKeys: decodes the keys that follow a key with an escaped
  string from where the corrected reader stops. The source starts the next
  key inside that string.
- Bootstrap.GetTopDir: reads the name/title pair and the directory from
  where the corrected reader leaves the cursor. The source reads them from
  inside any escaped string of the root key or the pair.
- Bootstrap.GetBlob: leaves the cursor past the key as the corrected reader
  reads it. The source leaves it inside the key when one of its strings uses
  the escape form.
- Prime.Run: does not model the OverflowError that math.sqrt raises when the
  value is too large for a float (from about 2^1024 on). There the model
  returns a verdict.
- Prime.ISqrt is an exact integer square root in place of
  `int(math.sqrt(value))`. For large values, floating-point rounding can make
  the two differ, and the model does not capture that. Inputs that are not
  integers and the command-line wrapper are not modelled.

## Findings

| source | as written | input that shows it | evidently intended | confidence | as-written member | corrected member |
|---|---|---|---|---|---|---|
| toros/aux.c:92 (and toros/main.c:104) | after the escape byte and the 4-byte length, the step past the copied bytes advances the local `src`, the address of the cursor, instead of `*src`, so the cursor stays 5 bytes past the start | the bytes FF 00 00 00 01 41: the string "A" is read, and the cursor stops at 5 instead of 6, on the byte 41 | the cursor moves past the copied bytes, as in the other branch (line 99) | not executed | Wire.EscapedStringShortfall, Aux.Cursor.GetStringAsWritten, Records.StringTripleShortfall, Records.NamedShortfall | Wire.StringRoundTrip, Aux.Cursor.GetString, Records.NamedAt, Records.StringTripleAt, Records.KeyAt, Records.KeysAt, Records.KeyListAt, Records.TopDirAt, Records.NamedRoundTrip, Records.StringTripleBack, Records.KeyRoundTrip, Bootstrap.FromBufNamed, Bootstrap.FromBufKey, Bootstrap.ReadKeys, Bootstrap.ListKeys, Bootstrap.GetTopDir, Bootstrap.GetBlob |
