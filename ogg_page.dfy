/** The Ogg page record of lib/ogg.rb: a 27-byte little-endian header, the
    segment (lacing) table, and a body whose length is the sum of the table
    (section 6 of RFC 3533), with its CRC check. */
module OggPage {

  import opened Binary
  import opened OggCrc

  /** The capture pattern "OggS" that starts every page. */
  const Capture: Bytes := [0x4f, 0x67, 0x67, 0x53]

  /** Bytes before the segment table. */
  const HeaderSize := 27

  /** Offset of the checksum field inside the header. */
  const ChecksumOffset := 22

  /** `Ogg::Page`, field for field. `capture` and `version` hold the bytes as
      they were read; `pageSegments` is the stored count that drives how many
      table entries are read. */
  datatype Page = Page(
    capture: Bytes,
    version: byte,
    pageType: byte,
    granulePosition: u64,
    bitstreamSerialNumber: u32,
    pageSequenceNumber: u32,
    checksum: u32,
    pageSegments: byte,
    segmentTable: Bytes,
    data: Bytes)

  /** What every page read from bytes satisfies: four capture bytes,
      `page_segments` table entries, and a body as long as the table's sum. */
  predicate WellFormed(p: Page) {
    && |p.capture| == 4
    && |p.segmentTable| == p.pageSegments as int
    && |p.data| == Sum(p.segmentTable)
  }

  /** The 27 header bytes of `to_binary_s`: the fixed fields in declaration
      order, integers little-endian. */
  function HeaderBytes(p: Page): (r: Bytes)
    requires |p.capture| == 4
    ensures |r| == HeaderSize
  {
    var g := Le64(p.granulePosition);
    var n := Le32(p.bitstreamSerialNumber);
    var q := Le32(p.pageSequenceNumber);
    var c := Le32(p.checksum);
    [p.capture[0], p.capture[1], p.capture[2], p.capture[3], p.version, p.pageType,
     g[0], g[1], g[2], g[3], g[4], g[5], g[6], g[7],
     n[0], n[1], n[2], n[3], q[0], q[1], q[2], q[3], c[0], c[1], c[2], c[3],
     p.pageSegments]
  }

  /** `to_binary_s`: the header, then the segment table, then the body. */
  function Serialize(p: Page): (r: Bytes)
    requires |p.capture| == 4
    ensures |r| == HeaderSize + |p.segmentTable| + |p.data|
  {
    HeaderBytes(p) + p.segmentTable + p.data
  }

  /** The page whose fixed fields are read from the 27 bytes `h`. */
  function FromHeader(h: Bytes, table: Bytes, data: Bytes): (p: Page)
    requires |h| == HeaderSize
  {
    Page(h[0..4], h[4], h[5], U64(h[6..14]), U32(h[14..18]), U32(h[18..22]),
         U32(h[22..26]), h[26], table, data)
  }

  /** Reading the header back from its bytes gives the same fields. */
  lemma HeaderRoundTrip(p: Page)
    requires |p.capture| == 4
    ensures FromHeader(HeaderBytes(p), p.segmentTable, p.data) == p
  {
    var h := HeaderBytes(p);
    assert h[0..4] == p.capture;
    assert h[6..14] == Le64(p.granulePosition);
    assert h[14..18] == Le32(p.bitstreamSerialNumber);
    assert h[18..22] == Le32(p.pageSequenceNumber);
    assert h[22..26] == Le32(p.checksum);
    U64RoundTrip(p.granulePosition, h[6..14]);
    U32RoundTrip(p.bitstreamSerialNumber, h[14..18]);
    U32RoundTrip(p.pageSequenceNumber, h[18..22]);
    U32RoundTrip(p.checksum, h[22..26]);
  }

  /** Writing the fields read from 27 bytes gives back those bytes. */
  lemma HeaderBytesRoundTrip(h: Bytes, table: Bytes, data: Bytes)
    requires |h| == HeaderSize
    ensures HeaderBytes(FromHeader(h, table, data)) == h
  {
    U64RoundTrip(0, h[6..14]);
    U32RoundTrip(0, h[14..18]);
    U32RoundTrip(0, h[18..22]);
    U32RoundTrip(0, h[22..26]);
  }

  /** `Page.read` on a stream holding `s`: the page and the number of bytes it
      took, or None when `s` ends before the page does (BinData's EOFError).
      No field value is checked. */
  function ParsePage(s: Bytes): (r: Option<(Page, nat)>)
    ensures r.Some? ==> WellFormed(r.value.0)
    ensures r.Some? ==> r.value.1 == HeaderSize + |r.value.0.segmentTable| + |r.value.0.data| <= |s|
  {
    if |s| < HeaderSize then None
    else
      var count := s[26] as int;
      if |s| < HeaderSize + count then None
      else
        var table := s[HeaderSize..HeaderSize + count];
        var end := HeaderSize + count + Sum(table);
        if |s| < end then None
        else Some((FromHeader(s[..HeaderSize], table, s[HeaderSize + count..end]), end))
  }

  /** Reading from a header followed by more bytes: the table and the body
      are cut from what follows the header. */
  lemma ParseAfterHeader(h: Bytes, tail: Bytes, n: nat)
    requires |h| == HeaderSize && n == h[26] as int
    requires n <= |tail| && n + Sum(tail[..n]) <= |tail|
    ensures ParsePage(h + tail)
      == Some((FromHeader(h, tail[..n], tail[n..n + Sum(tail[..n])]), HeaderSize + n + Sum(tail[..n])))
  {
    var s := h + tail;
    assert s[..HeaderSize] == h;
    assert s[HeaderSize..HeaderSize + n] == tail[..n];
    var e := Sum(tail[..n]);
    assert s[HeaderSize + n..HeaderSize + n + e] == tail[n..n + e];
  }

  /** Serialising a page and reading it back gives the same page, whatever
      follows it on the stream. */
  lemma ParseSerialize(p: Page, rest: Bytes)
    requires WellFormed(p)
    ensures ParsePage(Serialize(p) + rest) == Some((p, |Serialize(p)|))
  {
    var h := HeaderBytes(p);
    var tail := p.segmentTable + p.data + rest;
    var n := |p.segmentTable|;
    assert Serialize(p) + rest == h + tail;
    assert tail[..n] == p.segmentTable;
    assert tail[n..n + |p.data|] == p.data;
    ParseAfterHeader(h, tail, n);
    HeaderRoundTrip(p);
  }

  /** Reading a page and serialising it gives back exactly the bytes read. */
  lemma SerializeParse(s: Bytes)
    requires ParsePage(s).Some?
    ensures Serialize(ParsePage(s).value.0) == s[..ParsePage(s).value.1]
  {
    var (p, end) := ParsePage(s).value;
    var n := |p.segmentTable|;
    HeaderBytesRoundTrip(s[..HeaderSize], p.segmentTable, p.data);
    assert s[..end] == s[..HeaderSize] + s[HeaderSize..HeaderSize + n] + s[HeaderSize + n..end];
  }

  /** Reading fails exactly when the input is shorter than the page it
      announces. */
  lemma ParseFailsOnlyWhenTruncated(s: Bytes)
    ensures ParsePage(s).None? <==>
      (|s| < HeaderSize || |s| < HeaderSize + s[26] as int
       || |s| < HeaderSize + s[26] as int + Sum(s[HeaderSize..HeaderSize + s[26] as int]))
  {
  }

  /** The checksum rule: the stored checksum equals the CRC of the page
      serialised with its checksum field set to 0. */
  predicate ChecksumOk(p: Page)
    requires |p.capture| == 4
  {
    p.checksum as int == Crc(Serialize(p.(checksum := 0))) as int
  }

  /** `correct_checksum?`: zero the checksum field, serialise, run the CRC
      register over the bytes, put the checksum back and compare. The page is
      a value here, so putting the field back leaves the caller's page as it
      was by construction. */
  method CorrectChecksum(page: Page) returns (ok: bool)
    requires |page.capture| == 4
    ensures ok <==> ChecksumOk(page)
  {
    var cs := page.checksum;
    var raw := Serialize(page.(checksum := 0));
    var crcReg := RunCrc(raw);
    ok := cs as int == crcReg as int;
  }

  /** The register loop of `correct_checksum?`: starting from 0, feed every
      byte through the lookup table. */
  method RunCrc(raw: Bytes) returns (crcReg: bv32)
    ensures crcReg == Crc(raw)
  {
    crcReg := 0;
    for i := 0 to |raw|
      invariant crcReg == Crc(raw[..i])
    {
      assert raw[..i + 1][..i] == raw[..i];
      crcReg := CrcStep(crcReg, raw[i]);
    }
    assert raw[..|raw|] == raw;
  }

  /** Only the checksum field changes between a page and its zeroed copy,
      at bytes 22 to 25 of the serialisation. */
  lemma ZeroedDiffersOnlyInChecksum(p: Page)
    requires |p.capture| == 4
    ensures Serialize(p.(checksum := 0))[..ChecksumOffset] == Serialize(p)[..ChecksumOffset]
    ensures Serialize(p.(checksum := 0))[ChecksumOffset..ChecksumOffset + 4] == [0, 0, 0, 0]
    ensures Serialize(p.(checksum := 0))[ChecksumOffset + 4..] == Serialize(p)[ChecksumOffset + 4..]
  {
    var a := Serialize(p.(checksum := 0));
    var b := Serialize(p);
    assert a[..ChecksumOffset] == HeaderBytes(p.(checksum := 0))[..ChecksumOffset];
    assert b[..ChecksumOffset] == HeaderBytes(p)[..ChecksumOffset];
    assert a[ChecksumOffset + 4..] == [p.pageSegments] + p.segmentTable + p.data;
    assert b[ChecksumOffset + 4..] == [p.pageSegments] + p.segmentTable + p.data;
  }

  /** Storing the CRC of the zeroed page in the checksum field makes the page
      pass `correct_checksum?`: decode, recompute, and the check holds. */
  lemma SealedPageVerifies(p: Page)
    requires |p.capture| == 4
    ensures ChecksumOk(p.(checksum := Crc(Serialize(p.(checksum := 0))) as int as u32))
  {
    var q := p.(checksum := Crc(Serialize(p.(checksum := 0))) as int as u32);
    assert q.(checksum := 0) == p.(checksum := 0);
  }
}
