# ruby-ogg in Dafny

A model of the Ogg decoder and the Vorbis metadata readers of ruby-ogg
(`lib/ogg.rb`, `lib/vorbis.rb`), with proofs of what they guarantee.

- **Ogg pages** (`ogg_page.dfy`, module `OggPage`). The page record of
  `Ogg::Page` is modelled as a value: 27 little-endian header bytes, the
  segment (lacing) table, and a body whose length is the sum of the table
  (section 6 of RFC 3533). Reading and writing a page are inverse to each
  other. `correct_checksum?` is a method whose register loop is proved to
  compute the CRC-32 of the page with its checksum field zeroed.
- **The CRC** (`crc.dfy`, `crc_table.dfy`). The CRC is a left fold of the
  table-driven register step. Every entry of the 256-entry table is proved to
  be the bitwise CRC of its index for the polynomial 0x04c11db7.
- **The decoder** (`ogg_decoder.dfy`, module `OggDecoder`). `Ogg::Decoder` is
  a class. Its fields are the stream, whether the stream is a `File`, the
  stream's cursor, `@packets`, `@partial` and `verify_checksum` (false unless
  the options ask for it). `seek_to_page`, `read_page`,
  `read_last_page` and `read_packet` are methods with the source's loops.
  Each is proved against a specification function (`FindCapture`,
  `ReadPageAt`, `Locate`, `Lace`/`Pull`).
- **Decoder properties** (`ogg_properties.dfy`, module `OggProperties`).
  These cover:
  - where the scanner stops;
  - that a page read is exactly the bytes it came from;
  - that lacing neither loses nor duplicates bytes;
  - packets that span pages;
  - when `read_packet` raises `EOFError`;
  - which bytes the last-page search looks at.
- **Vorbis** (`vorbis.dfy`, module `Vorbis`). Modelled here:
  - the identification header layout;
  - the comment header;
  - `Comments#read_and_return_value`, a method with the source's `times`
    loop that fills an `InsensitiveHash`;
  - `InsensitiveHash`, a class whose `[]` and `[]=` upper-case their key.

  The identification header is proved to round-trip both ways. A written
  comment header reads back with the same fields, and with its entries filed
  by upper-cased key. Comment values are proved to be kept per key, in input
  order.

What the code does, where a reader might expect otherwise. The model follows
the code in each case.

- `read_page` gives up after the first candidate page that does not parse.
  BinData reads to the end of the stream before it fails, so the loop
  condition `not @io.eof?` ends the loop and `nil` is returned. The search does
  not resume after the candidate (`OggProperties.TruncatedCandidateEndsReading`).
- A page failing its checksum while `verify_checksum` is set makes `read_page`
  return `nil`. `read_packet` then raises `EOFError`, although more pages may
  follow (`OggProperties.ChecksumFailureEndsReading`).
- `seek_to_page` tests for the end of the stream before comparing, so a
  capture pattern whose last byte is the last byte of the stream is never
  found (`OggProperties.CaptureAtEndIsMissed`).
- `read_last_page` reads 1024-byte windows but steps back
  2 * 1024 - 3 = 2045 bytes. Consecutive windows therefore do not overlap:
  1021 bytes between them are never looked at, and a page starting there is
  not found (`OggProperties.GapBetweenWindows`).
- The block sizes of the identification header are BinData `bit4` fields. A
  plain `bit4` is read most significant bit first, so `blocksize_0` is the
  high four bits of byte 28. The Vorbis I specification puts it in the low
  four bits.

Model conventions:

- Streams are byte sequences, and the cursor is the decoder field `pos`.
- Exceptions are result values: `EndOfFile` for `EOFError`, `MalformedFile`
  for `MalformedFileError`, `NotAFileStream` for the `RuntimeError` of
  `read_last_page`. A Vorbis read that finds fewer bytes than it needs is
  `EndOfFile` too: BinData raises `EOFError` when no byte is left and
  `IOError` ("data truncated") when some are, and the model does not tell
  the two apart.
- A `nil` `@partial` is the empty string.
- `@packets` keeps the source's order: `insert(0)` puts the newest at the
  front and `pop` takes from the end. `Queue()` is the reversed view, the order
  in which packets are handed out.

## Model

| member | source | states |
|---|---|---|
| Binary.Sum | lib/ogg.rb:158 | the body length a segment table announces: the sum of its entries |
| Binary.SumBound | lib/ogg.rb:158 | a table announces at most 255 bytes per entry |
| Binary.SumPrefix | lib/ogg.rb:158 | the table sum grows entry by entry and bounds each prefix |
| Binary.U32 | lib/ogg.rb:153-155 | a `uint32` field under `endian :little`: four bytes, the first least significant |
| Binary.Le32 | lib/ogg.rb:153-155 | the four little-endian bytes BinData writes for a `uint32` |
| Binary.U32RoundTrip | lib/ogg.rb:153-155 | reading four little-endian bytes and writing a u32 are inverse |
| Binary.U64 | lib/ogg.rb:152 | the `uint64` granule position: eight bytes, the first least significant |
| Binary.Le64 | lib/ogg.rb:152 | the eight little-endian bytes BinData writes for a `uint64` |
| Binary.U64RoundTrip | lib/ogg.rb:152 | reading eight little-endian bytes and writing a u64 are inverse |
| Binary.U64OfLe64 | lib/ogg.rb:152 | a written u64 is read back |
| Binary.Le64OfU64 | lib/ogg.rb:152 | eight bytes read as a u64 are written back unchanged |
| Binary.ReverseLast | lib/ogg.rb:136 | with newest-first insertion, the element `pop` takes from the end is the oldest, and the rest keep their order |
| CrcTable.CrcLookup | lib/ogg.rb:182-246 | `CRC_LOOKUP`, value for value, as a 16 by 16 table |
| CrcTable.TableIsStandard | lib/ogg.rb:182-246 | every table entry is the bitwise CRC of its index for polynomial 0x04c11db7; T[0] = 0 and T[1] = 0x04c11db7 |
| OggCrc.CrcStep | lib/ogg.rb:172-173 | one register update: shift left by 8, XOR the table entry for the top byte XOR the input byte, keep 32 bits |
| OggCrc.CrcFrom | lib/ogg.rb:171-174 | the register after feeding a byte string in from a given register |
| OggCrc.Crc | lib/ogg.rb:169-174 | the register after feeding a byte string in from 0 |
| OggCrc.CrcEmpty | lib/ogg.rb:169-174 | the CRC of no bytes is 0 |
| OggCrc.CrcFromAppend | lib/ogg.rb:171-174 | folding a + b from any register is folding b from the register a leaves |
| OggCrc.CrcAppend | lib/ogg.rb:169-174 | crc(a ++ b) is the fold of b started from crc(a) |
| OggPage.WellFormed | lib/ogg.rb:156-158 | a page BinData can hold: a four-byte capture, a table of `page_segments` entries, and a body as long as the table's sum |
| OggPage.HeaderBytes | lib/ogg.rb:147-156 | the fixed header is 27 bytes |
| OggPage.Serialize | lib/ogg.rb:147-158 | a page is written as header, table and body, and is exactly that long |
| OggPage.FromHeader | lib/ogg.rb:147-156 | the page fields read from the 27 header bytes, integers little-endian |
| OggPage.HeaderRoundTrip | lib/ogg.rb:147-156 | reading the written header gives back every field |
| OggPage.HeaderBytesRoundTrip | lib/ogg.rb:147-156 | writing the fields read from 27 bytes gives back those bytes |
| OggPage.ParsePage | lib/ogg.rb:147-158 | a page read from bytes has `page_segments` table entries and a body as long as the table's sum, and was no longer than the input |
| OggPage.ParseAfterHeader | lib/ogg.rb:156-158 | after the header, the table and the body are cut from the bytes that follow |
| OggPage.ParseSerialize | lib/ogg.rb:147-158 | a well-formed page written and read back is the same page, whatever follows it |
| OggPage.SerializeParse | lib/ogg.rb:147-158 | a page read and written back gives exactly the bytes it was read from |
| OggPage.ParseFailsOnlyWhenTruncated | lib/ogg.rb:147-158 | reading fails exactly when the input is shorter than the header, the table or the body it announces |
| OggPage.ChecksumOk | lib/ogg.rb:161-179 | what `correct_checksum?` answers: the stored checksum equals the CRC of the page written with its checksum zeroed |
| OggPage.CorrectChecksum | lib/ogg.rb:161-179 | true exactly when the stored checksum equals the CRC of the page written with its checksum zeroed; the page is a value and stays as it was |
| OggPage.RunCrc | lib/ogg.rb:169-174 | the register loop computes the CRC of the bytes |
| OggPage.ZeroedDiffersOnlyInChecksum | lib/ogg.rb:164-167 | zeroing the checksum changes bytes 22 to 25 of the page and nothing else |
| OggPage.SealedPageVerifies | lib/ogg.rb:161-179 | storing the CRC of the zeroed page in the checksum field makes the check pass |
| OggDecoder.Reportable | lib/ogg.rb:57-61 | an offset `seek_to_page` can report: "OggS" sits there and at least one byte follows it |
| OggDecoder.FindCapture | lib/ogg.rb:54-66 | the first offset at or after the start where "OggS" sits with a byte after it; none before it; none at all when it finds nothing |
| OggDecoder.FindCaptureAt | lib/ogg.rb:54-66 | a reportable offset with none before it is where the scanner stops |
| OggDecoder.LastCaptureBelow | lib/ogg.rb:98-105 | the last reportable offset below a bound, with none between it and the bound; none at all when it finds nothing |
| OggDecoder.ReadPageAt | lib/ogg.rb:70-83 | the cursor stays in the stream, and a page returned is well formed and moves the cursor forward |
| OggDecoder.Lace | lib/ogg.rb:131-139 | the segment loop over one page: each entry appends that many body bytes to the partial packet, and an entry other than 255 closes it |
| OggDecoder.Pull | lib/ogg.rb:126-140 | the refill loop stops with packets exactly when it did not run out of pages |
| OggDecoder.LastCapture | lib/ogg.rb:95-105 | what one window yields: the last offset `seek_to_page` reports in it |
| OggDecoder.Visited | lib/ogg.rb:88-114 | the window starts the search reads: the first, then back 2045 bytes at a time while positive |
| OggDecoder.Locate | lib/ogg.rb:86-118 | an offset the window search settles on holds a reportable capture |
| OggDecoder.WindowCapture | lib/ogg.rb:92-108 | a capture found in a window is a capture in the stream at the window's start plus its offset |
| OggDecoder.NoCaptureBetween | lib/ogg.rb:98-105 | with no capture between two bounds the last capture below either is the same |
| OggDecoder.Decoder.Queue | lib/ogg.rb:124-142 | the hand-out order is `@packets` back to front: position i holds the packet `pop` reaches i-th, the oldest first |
| OggDecoder.Decoder.constructor | lib/ogg.rb:40-49 | a new decoder is at the start of its stream with no packets and no partial packet; `verify_checksum` is false unless given |
| OggDecoder.Decoder.SeekToPage | lib/ogg.rb:54-66 | returns and moves the cursor to the first reportable capture at or after the cursor, or raises `EOFError` with the cursor at the end |
| OggDecoder.Decoder.ScanForCapture | lib/ogg.rb:55-65 | the sliding four-byte buffer stops at the first reportable capture from the start offset, or runs to the end of the stream |
| OggDecoder.Decoder.ReadPage | lib/ogg.rb:70-83 | returns the page and leaves the cursor as `ReadPageAt` says |
| OggDecoder.Decoder.ReadLastPage | lib/ogg.rb:86-118 | not a file: error and the cursor is untouched; no capture in any window: `MalformedFileError`; otherwise the page `read_page` returns from the last capture of the first window, from the end, that holds one (the search is `Locate`, which `OggProperties.LocateNotFound` and `OggProperties.LocateFound` characterise) |
| OggDecoder.Decoder.ScanWindows | lib/ogg.rb:88-114 | the window loop settles where `Locate` says; the cursor is left at the end of the window that held the capture, or where `Locate` says when none did |
| OggDecoder.Decoder.LastInWindow | lib/ogg.rb:94-105 | repeated `seek_to_page` on a window, stepping past each capture, yields the window's last reportable capture |
| OggDecoder.Decoder.ReadPacket | lib/ogg.rb:123-143 | with packets queued, hands out the oldest and keeps the rest in order; otherwise refills as `Pull` says, raising `EOFError` when pages run out |
| OggDecoder.Decoder.LacePage | lib/ogg.rb:131-139 | lacing one page leaves the packets closed on it in order and the partial packet as `Lace` says |
| OggProperties.CaptureAtEndIsMissed | lib/ogg.rb:57-58 | a capture ending the stream is not reported, with one more byte it is; "OggS" alone holds no page |
| OggProperties.ReadPageSound | lib/ogg.rb:70-83 | a page returned is exactly the bytes from the capture found to the new cursor, and passes the checksum when checksums are verified |
| OggProperties.ReadPageComplete | lib/ogg.rb:70-83 | a page written at the first capture is returned (nil if it fails a verified checksum) and the cursor ends just after it |
| OggProperties.GranuleAllOnes | test/tc_ogg.rb:22 | eight 0xff bytes read as granule position 18446744073709551615 |
| OggProperties.ReadPageNil | lib/ogg.rb:70-83 | nil means the cursor is at the end of the stream, or a verified checksum failed |
| OggProperties.TruncatedCandidateEndsReading | lib/ogg.rb:72-80 | a candidate that does not parse puts the cursor at the end; `read_packet` raises `EOFError` |
| OggProperties.Closing | lib/ogg.rb:135 | the number of table entries other than 255, each of which closes a packet |
| OggProperties.ClosingAppend | lib/ogg.rb:131-139 | the count of closing entries adds up over concatenation |
| OggProperties.LaceConserves | lib/ogg.rb:131-139 | the packets closed plus the new partial packet are the old partial packet followed by the body |
| OggProperties.LaceCount | lib/ogg.rb:135-138 | one packet is closed per entry below 255, zero included |
| OggProperties.LaceLeftover | lib/ogg.rb:132-138 | a last entry below 255 leaves no partial packet; a last entry of 255 leaves one of at least 255 bytes |
| OggProperties.LaceContinues | lib/ogg.rb:132-134 | the partial packet carried in starts the first packet the page closes |
| OggProperties.LaceStep | lib/ogg.rb:131-139 | one more entry appends its bytes to the partial packet and closes it unless it is 255 |
| OggProperties.LaceOneSegment | test/tc_ogg.rb:30-32 | a table [30] yields one 30-byte packet |
| OggProperties.LaceSpanningSegments | lib/ogg.rb:131-139 | a table [255, 255, 60] yields one packet of 570 bytes |
| OggProperties.LaceAcrossPages | test/tc_ogg.rb:34-35 | a packet continued by a 255 entry is closed on the next page, joining both bodies |
| OggProperties.PulledBodies | lib/ogg.rb:126-140 | the bodies of the pages one refill reads, in order |
| OggProperties.PullConserves | lib/ogg.rb:126-140 | over every page one refill reads, the packets closed and the partial packet left are the old partial packet followed by all the bodies read |
| OggProperties.EndOfStreamIsFinal | lib/ogg.rb:126-128 | at the end of the stream `read_packet` raises `EOFError` and keeps its partial packet |
| OggProperties.EofMeansEndWithoutVerify | lib/ogg.rb:126-128 | without checksum verification `EOFError` happens only at the end of the stream, so it repeats on every later call |
| OggProperties.ChecksumFailureEndsReading | lib/ogg.rb:76 | one page failing a verified checksum makes `read_packet` raise `EOFError` with bytes left |
| OggProperties.LocatedPageStartsThere | lib/ogg.rb:107-110 | `read_page` from the offset found starts at that offset |
| OggProperties.LocateReadsBelow | lib/ogg.rb:88-114 | the window search looks at no byte past the end of its first window |
| OggProperties.WindowResult | lib/ogg.rb:92-105 | the last capture of the window starting at a given offset |
| OggProperties.LocateNotFound | lib/ogg.rb:90-117 | the search ends in `MalformedFileError` exactly when no visited window holds a capture |
| OggProperties.SettlesIn | lib/ogg.rb:90-110 | a window is where the search settles: it is visited, the offset is its last capture, and no visited window after it holds one |
| OggProperties.LocateFound | lib/ogg.rb:90-110 | a found offset is the last capture of a visited window, and no window visited before it holds a capture |
| OggProperties.GapBetweenWindows | lib/ogg.rb:113 | the next window ends 1021 bytes before the current one starts; streams differing only in that gap are searched alike |
| Vorbis.ReadU32 | lib/vorbis.rb:125-127 | reads four bytes, or fails exactly when fewer remain (`EOFError` or `IOError`, both `EndOfFile` here) |
| Vorbis.ReadU32Encoded | lib/vorbis.rb:125-127 | four little-endian bytes are read back as their number |
| Vorbis.UpcaseByte | lib/vorbis.rb:98 | lower-case ASCII letters become upper case; every other byte stays |
| Vorbis.Upcase | lib/vorbis.rb:98 | upper-casing keeps the length and maps each byte |
| Vorbis.Normal | lib/vorbis.rb:98 | the stored key has the key's length and no lower-case letter |
| Vorbis.UpcaseIdentifiesCase | lib/vorbis.rb:97-103 | two texts have the same upper-case form exactly when they differ only in letter case |
| Vorbis.UpcaseIdempotent | lib/vorbis.rb:97-103 | upper-casing a stored key changes nothing |
| Vorbis.SymbolMatchesString | lib/vorbis.rb:97-103 | a symbol and a string of the same text name the same entry |
| Vorbis.InsensitiveHash.constructor | lib/vorbis.rb:111 | a new hash is empty |
| Vorbis.InsensitiveHash.Get | lib/vorbis.rb:97-99 | finds a value exactly when the upper-cased key is stored |
| Vorbis.InsensitiveHash.Set | lib/vorbis.rb:101-103 | stores under the upper-cased key; keys with the same upper-case form see the value, all others are unchanged |
| Vorbis.LookupIgnoresCase | test/tc_vorbis.rb:13-15 | keys that differ only in letter case find the same entry |
| Vorbis.FirstEquals | lib/vorbis.rb:115 | the offset of the first `=`, with none before it; none when there is no `=` |
| Vorbis.SplitComment | lib/vorbis.rb:115 | the key is nil exactly for an empty comment |
| Vorbis.SplitCommentRestores | lib/vorbis.rb:115 | key, `=` and value give back the comment; the key holds no `=`; no value means no `=` at all |
| Vorbis.SplitCommentOfJoin | lib/vorbis.rb:115 | the split is at the first `=`: a key without `=` and any value split back into themselves |
| Vorbis.ReadEntry | lib/vorbis.rb:113-114 | an entry takes its four length bytes and that many bytes, or raises `EOFError` |
| Vorbis.ReadEntries | lib/vorbis.rb:112-117 | reading n entries yields exactly n, inside the stream, or `EOFError` |
| Vorbis.ReadCommentList | lib/vorbis.rb:109-119 | the list has as many entries as its count says |
| Vorbis.ReadEncodedEntry | lib/vorbis.rb:113-114 | a written entry is read back |
| Vorbis.ReadEncodedEntries | lib/vorbis.rb:112-117 | written entries are read back, wherever they sit |
| Vorbis.ReadEntryEncoded | lib/vorbis.rb:113-114 | an entry read is its length bytes followed by the entry |
| Vorbis.ReadEntriesEncoded | lib/vorbis.rb:112-117 | entries read are exactly the bytes they came from |
| Vorbis.ReadEncodedCommentList | lib/vorbis.rb:109-119 | a written comment list is read back |
| Vorbis.AddComment | lib/vorbis.rb:115-116 | filing one comment appends its value under its upper-cased key and leaves every other key as it was |
| Vorbis.Collect | lib/vorbis.rb:112-117 | the hash the loop builds: each entry filed in turn, from an empty hash |
| Vorbis.CollectKeepsOrder | lib/vorbis.rb:116 | a key is in the hash exactly when some entry has it, and its values are those entries' values in input order |
| Vorbis.CollectKeysAreUpper | lib/vorbis.rb:116 | every stored key is upper case |
| Vorbis.ReadComments | lib/vorbis.rb:109-119 | the loop returns the offset after the list and a hash holding the entries collected in order, or `EOFError` |
| Vorbis.ReadComment | lib/vorbis.rb:113-116 | one iteration reads an entry and files its value, or raises `EOFError` and changes nothing |
| Vorbis.Append | lib/vorbis.rb:115-116 | the value is appended to the list under the comment's key |
| Vorbis.ReadListStep | lib/vorbis.rb:112-117 | reading one entry moves it from what is left to what is read; failing it fails the list |
| Vorbis.I32 | lib/vorbis.rb:88-90 | an `int32` bitrate field: four little-endian bytes in two's complement |
| Vorbis.LeI32 | lib/vorbis.rb:88-90 | the four bytes BinData writes for an `int32` |
| Vorbis.I32RoundTrip | lib/vorbis.rb:88-90 | reading four bytes as a signed 32-bit integer and writing it are inverse |
| Vorbis.ReadIdentification | lib/vorbis.rb:81-93 | fails exactly on fewer than 29 bytes; the codec is six bytes |
| Vorbis.EncodeIdentification | lib/vorbis.rb:81-93 | the header is written as 29 bytes |
| Vorbis.IdentificationRoundTrip | lib/vorbis.rb:81-93 | a written identification header is read back, whatever follows |
| Vorbis.IdentificationBytesRoundTrip | lib/vorbis.rb:81-93 | a header read and written back gives its 29 bytes |
| Vorbis.IdentificationExample | test/tc_vorbis.rb:16-17 | the bytes of 44100 and 192000 read as that sample rate and nominal bitrate |
| Vorbis.ReadCommentHeader | lib/vorbis.rb:131-138 | the vendor string read is as long as its length field; the codec is six bytes |
| Vorbis.CommentHeaderRoundTrip | lib/vorbis.rb:131-138 | a written comment header is read back, with every entry filed under its upper-cased key |
| Vorbis.EncodedCommentHeaderLayout | lib/vorbis.rb:131-138 | where each field of a written comment header sits |
| Vorbis.ReadCommentHeaderOf | lib/vorbis.rb:131-138 | the header read from bytes whose comment list reads as a given list |

## Left out

- `Vorbis::Info` (lib/vorbis.rb:18-78) is not modelled. It opens and closes files, and it works out duration and bitrate in floating point. Its bitrate line names an undefined `file`, so the bitrate is always 0.
- The `:value` parameters of BinData are not modelled (the capture and version of a page, the packet type and codec of the Vorbis headers). These fields keep the bytes as read and nothing is checked against them. Whether a mismatch is rejected depends on BinData internals that are not part of this model. BinData reports and writes a `:value` field's declared value (version 0, packet type 1 or 3, codec "vorbis", capture "OggS") rather than the bytes read. The model hashes and writes back the bytes as read. So for input whose fixed fields differ from the declared values, `OggPage.CorrectChecksum`, `OggPage.SerializeParse` and `Vorbis.IdentificationBytesRoundTrip` describe the model, not the program. They agree with the program whenever those fields hold their declared values.
- The option hash of `Decoder#initialize`, including its key normalisation, becomes a boolean parameter `verifyChecksum`. Its `attr_accessor` is the public field of the same name.
- OggDecoder.Decoder.constructor: the decoder starts at offset 0 of its byte sequence. The source reads from wherever the caller left the stream, and every decoder the source itself creates starts on a fresh stream.
- I/O is replaced by a byte sequence and a cursor. Real I/O errors, non-seekable streams and `IO#stat` are not modelled. Whether the stream is a `File` is a field of the decoder.
- OggDecoder.Decoder.SeekToPage: the scanner always looks for "OggS". The `capture` argument of `seek_to_page` and its default are not modelled, because every call in the source uses the default.
- The `StringIO` over a page body in `read_packet` is replaced by slicing the body at running offsets.
- Demultiplexing by serial number is not modelled; the code never filters on it.
- `Comments#sensible_default` and writing a comment list through BinData are not modelled. The source has no writer for `Comments`. `EncodeCommentList` is a reference writer, used only to state round trips.
- Vorbis.Upcase: models `upcase` on ASCII letters only. The comment strings read from the stream are binary strings, which Ruby upper-cases that way. Non-ASCII lookup keys given by a caller are left out.
- Vorbis.LookupIgnoresCase: states the same entry is found; it does not model the `tc_vorbis.rb` fixture's own values, because that file is not part of this model.
