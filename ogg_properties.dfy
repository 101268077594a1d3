/** What the Ogg decoder of lib/ogg.rb guarantees, and where it departs from
    a careful reading of the format: the scanner, page reading, packet
    lacing, and the last-page window search. */
module OggProperties {

  import opened Binary
  import opened OggPage
  import opened OggDecoder

  // ---------------------------------------------------------------------
  // The scanner
  // ---------------------------------------------------------------------

  /** A capture that ends the stream is never reported, because the window
      is compared only while the stream is not at its end; one more byte
      after it and it is. A stream that is exactly "OggS" holds no page for
      the scanner. */
  lemma CaptureAtEndIsMissed(io: Bytes, b: byte)
    requires |io| >= |Capture| && io[|io| - |Capture|..] == Capture
    ensures !Reportable(io, |io| - |Capture|)
    ensures Reportable(io + [b], |io| - |Capture|)
    ensures FindCapture(Capture, 0).None?
  {
    var k := |io| - |Capture|;
    assert (io + [b])[k..k + |Capture|] == io[k..];
  }

  // ---------------------------------------------------------------------
  // Reading a page
  // ---------------------------------------------------------------------

  /** A page returned by `read_page` is exactly the bytes between the
      capture the scanner found and the new cursor, and when checksums are
      verified it passes the check. */
  lemma ReadPageSound(io: Bytes, pos: nat, verify: bool)
    requires pos <= |io| && ReadPageAt(io, pos, verify).page.Some?
    ensures FindCapture(io, pos).Some?
    ensures
      var s := FindCapture(io, pos).value;
      var r := ReadPageAt(io, pos, verify);
      s <= r.pos && io[s..r.pos] == Serialize(r.page.value)
    ensures verify ==> ChecksumOk(ReadPageAt(io, pos, verify).page.value)
  {
    var s := FindCapture(io, pos).value;
    SerializeParse(io[s..]);
    var len := ParsePage(io[s..]).value.1;
    assert io[s..][..len] == io[s..s + len];
  }

  /** A page written at the first capture after the cursor is read back:
      `read_page` returns it (or nil when checksums are verified and it fails
      them) and leaves the cursor just after it. */
  lemma ReadPageComplete(io: Bytes, pos: nat, verify: bool, p: Page, rest: Bytes)
    requires pos <= |io| && FindCapture(io, pos).Some?
    requires WellFormed(p) && io[FindCapture(io, pos).value..] == Serialize(p) + rest
    ensures ReadPageAt(io, pos, verify)
      == PageRead(if verify && !ChecksumOk(p) then None else Some(p), FindCapture(io, pos).value + |Serialize(p)|)
  {
    ParseSerialize(p, rest);
  }

  /** A granule position of eight 0xff bytes reads as 2^64 - 1, the value
      a page that ends no packet carries. */
  lemma GranuleAllOnes(p: Page)
    requires |p.capture| == 4 && HeaderBytes(p)[6..14] == [0xff, 0xff, 0xff, 0xff, 0xff, 0xff, 0xff, 0xff]
    ensures p.granulePosition as int == 18446744073709551615
  {
    HeaderRoundTrip(p);
  }

  /** When `read_page` returns nil, either the cursor is at the end of the
      stream or checksums are verified and the page found failed them. */
  lemma ReadPageNil(io: Bytes, pos: nat, verify: bool)
    requires pos <= |io| && ReadPageAt(io, pos, verify).page.None?
    ensures ReadPageAt(io, pos, verify).pos == |io|
      || (verify && FindCapture(io, pos).Some? && ParsePage(io[FindCapture(io, pos).value..]).Some?
          && !ChecksumOk(ParsePage(io[FindCapture(io, pos).value..]).value.0))
    ensures !verify ==> ReadPageAt(io, pos, verify).pos == |io|
  {
  }

  /** A capture whose page is cut short ends the search: the cursor goes to
      the end of the stream, so a valid page after the false capture is never
      read, and `read_packet` raises `EOFError`. */
  lemma TruncatedCandidateEndsReading(io: Bytes, pos: nat, partial: Bytes, verify: bool)
    requires pos <= |io| && FindCapture(io, pos).Some?
    requires ParsePage(io[FindCapture(io, pos).value..]).None?
    ensures ReadPageAt(io, pos, verify) == PageRead(None, |io|)
    ensures Pull(io, pos, partial, verify) == Pulled(true, [], partial, |io|)
  {
  }

  // ---------------------------------------------------------------------
  // Lacing packets
  // ---------------------------------------------------------------------

  /** The number of table entries that close a packet: those below 255. */
  function Closing(table: Bytes): (n: nat)
    ensures n <= |table|
  {
    if table == [] then 0 else (if table[0] != 255 then 1 else 0) + Closing(table[1..])
  }

  lemma {:induction false} ClosingAppend(a: Bytes, b: Bytes)
    ensures Closing(a + b) == Closing(a) + Closing(b)
    decreases |a|
  {
    if a == [] {
      assert a + b == b;
    } else {
      assert (a + b)[1..] == a[1..] + b;
      ClosingAppend(a[1..], b);
    }
  }

  /** Lacing loses and duplicates nothing: the closed packets followed by
      the new partial packet are the old partial packet followed by the
      page body. */
  lemma {:induction false} LaceConserves(table: Bytes, data: Bytes, partial: Bytes)
    requires |data| == Sum(table)
    ensures Flatten(Lace(table, data, partial).0) + Lace(table, data, partial).1 == partial + data
    decreases |table|
  {
    if table != [] {
      var n := |table| - 1;
      var cut := Sum(table[..n]);
      LaceConserves(table[..n], data[..cut], partial);
      var (done, part) := Lace(table[..n], data[..cut], partial);
      var acc := part + data[cut..];
      assert data == data[..cut] + data[cut..];
      assert Flatten(done) + acc == partial + data by {
        assert Flatten(done) + part == partial + data[..cut];
        assert Flatten(done) + acc == (Flatten(done) + part) + data[cut..];
      }
      if table[n] != 255 {
        FlattenAppend(done, [acc]);
        assert Flatten([acc]) == acc + Flatten([]);
        assert Flatten(done + [acc]) + [] == Flatten(done) + acc;
      }
    }
  }

  /** One packet is closed for every table entry below 255. */
  lemma {:induction false} LaceCount(table: Bytes, data: Bytes, partial: Bytes)
    requires |data| == Sum(table)
    ensures |Lace(table, data, partial).0| == Closing(table)
    decreases |table|
  {
    if table != [] {
      var n := |table| - 1;
      LaceCount(table[..n], data[..Sum(table[..n])], partial);
      ClosingAppend(table[..n], [table[n]]);
      assert table[..n] + [table[n]] == table;
    }
  }

  /** A page whose last entry is below 255 leaves no partial packet; one
      whose last entry is 255 leaves the packet open, with at least that last
      full segment in it. An empty table leaves the partial packet as it was. */
  lemma LaceLeftover(table: Bytes, data: Bytes, partial: Bytes)
    requires |data| == Sum(table)
    ensures table == [] ==> Lace(table, data, partial) == ([], partial)
    ensures table != [] && table[|table| - 1] != 255 ==> Lace(table, data, partial).1 == []
    ensures table != [] && table[|table| - 1] == 255 ==> |Lace(table, data, partial).1| >= 255
  {
    if table != [] {
      var n := |table| - 1;
      assert Sum(table) == Sum(table[..n]) + table[n] as int;
    }
  }

  /** The partial packet carried in from earlier pages is the beginning of
      the first packet this page closes. */
  lemma {:induction false} LaceContinues(table: Bytes, data: Bytes, partial: Bytes)
    requires |data| == Sum(table)
    ensures
      var (done, part) := Lace(table, data, partial);
      (done != [] ==> partial <= done[0]) && (done == [] ==> partial <= part)
    decreases |table|
  {
    if table != [] {
      var n := |table| - 1;
      var cut := Sum(table[..n]);
      LaceContinues(table[..n], data[..cut], partial);
      var (done, part) := Lace(table[..n], data[..cut], partial);
      var acc := part + data[cut..];
      if done == [] {
        assert part <= acc;
        assert partial <= acc;
        if table[n] != 255 {
          assert (done + [acc])[0] == acc;
        }
      } else if table[n] != 255 {
        assert (done + [acc])[0] == done[0];
      }
    }
  }

  /** Lacing one more table entry: it takes the next bytes of the body onto
      the partial packet, and closes the packet unless it is 255. */
  lemma LaceStep(table: Bytes, e: byte, data: Bytes, seg: Bytes, partial: Bytes)
    requires |data| == Sum(table) && |seg| == e as int
    ensures Sum(table + [e]) == Sum(table) + e as int
    ensures e != 255 ==>
      Lace(table + [e], data + seg, partial)
        == (Lace(table, data, partial).0 + [Lace(table, data, partial).1 + seg], [])
    ensures e == 255 ==>
      Lace(table + [e], data + seg, partial)
        == (Lace(table, data, partial).0, Lace(table, data, partial).1 + seg)
  {
    assert (table + [e])[..|table|] == table;
    assert (data + seg)[..|data|] == data && (data + seg)[|data|..] == seg;
  }

  /** A table `[30]` gives exactly one packet: the 30 bytes of the body. */
  lemma LaceOneSegment(data: Bytes)
    requires |data| == 30
    ensures Lace([30], data, []) == ([data], [])
  {
    var none: Bytes := [];
    LaceStep(none, 30, none, data, none);
    assert Lace(none, none, none) == ([], none);
    assert none + [30] == [30] && none + data == data;
    var done: seq<Bytes> := [];
    assert done + [none + data] == [data];
  }

  /** A table `[255, 255, 60]` gives one packet of 255 + 255 + 60 = 570
      bytes: the whole body. */
  lemma LaceSpanningSegments(data: Bytes)
    requires |data| == 570
    ensures Sum([255, 255, 60]) == 570 && Lace([255, 255, 60], data, []) == ([data], [])
  {
    var none: Bytes := [];
    var t1: Bytes := [255];
    var t2: Bytes := [255, 255];
    var d1 := data[..255];
    var d2 := data[..510];
    assert Lace(none, none, none) == ([], none);
    LaceStep(none, 255, none, d1, none);
    assert none + [255] == t1 && none + d1 == d1;
    assert Lace(t1, d1, none) == ([], d1);
    LaceStep(t1, 255, d1, d2[255..], none);
    assert t1 + [255] == t2 && d1 + d2[255..] == d2;
    assert Lace(t2, d2, none) == ([], d2);
    LaceStep(t2, 60, d2, data[510..], none);
    assert t2 + [60] == [255, 255, 60] && d2 + data[510..] == data;
    var done: seq<Bytes> := [];
    assert done + [d2 + data[510..]] == [data];
  }

  /** A packet can span two pages: a first page with table `[255]` closes
      nothing and leaves its body open; the next page's first entry below
      255 closes the packet, which is the two bodies joined. */
  lemma LaceAcrossPages(first: Bytes, second: Bytes, last: byte)
    requires |first| == 255 && |second| == last as int && last != 255
    ensures Lace([255], first, []) == ([], first)
    ensures Lace([last], second, first) == ([first + second], [])
  {
    var none: Bytes := [];
    assert Lace(none, none, none) == ([], none);
    LaceStep(none, 255, none, first, none);
    assert none + [255] == [255] && none + first == first;
    assert Lace(none, none, first) == ([], first);
    LaceStep(none, last, none, second, first);
    assert none + [last] == [last] && none + second == second;
    var done: seq<Bytes> := [];
    assert done + [first + second] == [first + second];
  }

  // ---------------------------------------------------------------------
  // Refilling the packet queue
  // ---------------------------------------------------------------------

  /** The bodies of the pages the refill loop of `read_packet` reads, in
      order: each page up to the first that closes a packet, or every page
      before `read_page` returns nil. */
  function PulledBodies(io: Bytes, pos: nat, partial: Bytes, verify: bool): Bytes
    requires pos <= |io|
    decreases |io| - pos
  {
    var rp := ReadPageAt(io, pos, verify);
    match rp.page
    case None => []
    case Some(p) =>
      var (done, part) := Lace(p.segmentTable, p.data, partial);
      if done == [] then p.data + PulledBodies(io, rp.pos, part, verify) else p.data
  }

  /** Over all the pages one refill reads, no byte is lost or duplicated:
      the packets it closes, followed by the partial packet it leaves, are
      the partial packet it started with followed by every body it read. */
  lemma {:induction false} PullConserves(io: Bytes, pos: nat, partial: Bytes, verify: bool)
    requires pos <= |io|
    ensures Flatten(Pull(io, pos, partial, verify).completed) + Pull(io, pos, partial, verify).partial
      == partial + PulledBodies(io, pos, partial, verify)
    decreases |io| - pos
  {
    var rp := ReadPageAt(io, pos, verify);
    if rp.page.Some? {
      var p := rp.page.value;
      var (done, part) := Lace(p.segmentTable, p.data, partial);
      LaceConserves(p.segmentTable, p.data, partial);
      PullOnePage(io, pos, partial, verify);
      if done == [] {
        PullConserves(io, rp.pos, part, verify);
        var r := Pull(io, rp.pos, part, verify);
        ConservesAcross(partial, p.data, part, Flatten(r.completed) + r.partial, PulledBodies(io, rp.pos, part, verify));
      }
    }
  }

  /** Conservation on one page and over the rest chain into conservation
      over both. */
  lemma ConservesAcross(partial: Bytes, data: Bytes, part: Bytes, out: Bytes, rest: Bytes)
    requires Flatten([]) + part == partial + data
    requires out == part + rest
    ensures out == partial + (data + rest)
  {
    var none: seq<Bytes> := [];
    assert Flatten(none) == [];
    assert part == partial + data;
    assert (partial + data) + rest == partial + (data + rest);
  }

  /** One page of the refill loop, unfolded for `Pull` and `PulledBodies`
      alike. */
  lemma PullOnePage(io: Bytes, pos: nat, partial: Bytes, verify: bool)
    requires pos <= |io| && ReadPageAt(io, pos, verify).page.Some?
    ensures var rp := ReadPageAt(io, pos, verify);
      var p := rp.page.value;
      var (done, part) := Lace(p.segmentTable, p.data, partial);
      && Pull(io, pos, partial, verify)
        == (if done == [] then Pull(io, rp.pos, part, verify) else Pulled(false, done, part, rp.pos))
      && PulledBodies(io, pos, partial, verify)
        == (if done == [] then p.data + PulledBodies(io, rp.pos, part, verify) else p.data)
  {
  }

  /** At the end of the stream the refill loop reads nothing: the packet
      reader raises `EOFError` and keeps its partial packet. */
  lemma EndOfStreamIsFinal(io: Bytes, partial: Bytes, verify: bool)
    ensures Pull(io, |io|, partial, verify) == Pulled(true, [], partial, |io|)
  {
  }

  /** Without checksum verification the packet reader raises `EOFError`
      only at the end of the stream, so every later call raises it too. */
  lemma {:induction false} EofMeansEndWithoutVerify(io: Bytes, pos: nat, partial: Bytes)
    requires pos <= |io|
    ensures Pull(io, pos, partial, false).eof ==> Pull(io, pos, partial, false).pos == |io|
    decreases |io| - pos
  {
    var rp := ReadPageAt(io, pos, false);
    if rp.page.None? {
      ReadPageNil(io, pos, false);
    } else {
      var p := rp.page.value;
      var (done, part) := Lace(p.segmentTable, p.data, partial);
      if done == [] {
        EofMeansEndWithoutVerify(io, rp.pos, part);
      }
    }
  }

  /** With checksum verification, one page that fails its checksum makes the
      packet reader raise `EOFError` even though bytes remain after it. */
  lemma ChecksumFailureEndsReading(io: Bytes, pos: nat, partial: Bytes)
    requires pos <= |io|
    requires FindCapture(io, pos).Some?
    requires ParsePage(io[FindCapture(io, pos).value..]).Some?
    requires !ChecksumOk(ParsePage(io[FindCapture(io, pos).value..]).value.0)
    ensures Pull(io, pos, partial, true).eof
    ensures Pull(io, pos, partial, true).pos == FindCapture(io, pos).value + ParsePage(io[FindCapture(io, pos).value..]).value.1
  {
  }

  // ---------------------------------------------------------------------
  // Finding the last page
  // ---------------------------------------------------------------------

  /** Where the window search settles, `read_page` finds a capture at once:
      the page read starts exactly at the offset found. */
  lemma LocatedPageStartsThere(io: Bytes, start: int, cursor: nat)
    requires start + WindowSize <= |io|
    requires Locate(io, start, cursor).Found?
    ensures FindCapture(io, Locate(io, start, cursor).offset) == Some(Locate(io, start, cursor).offset)
  {
    var s := Locate(io, start, cursor).offset;
    FindCaptureAt(io, s, s);
  }

  /** The window search looks at no byte at or past the end of its first
      window. */
  lemma {:induction false} LocateReadsBelow(io: Bytes, other: Bytes, start: int, cursor: nat, m: nat)
    requires start + WindowSize <= m <= |io| && m <= |other|
    requires io[..m] == other[..m]
    ensures Locate(io, start, cursor) == Locate(other, start, cursor)
    decreases start
  {
    if start > 0 {
      assert io[start..start + WindowSize] == io[..m][start..start + WindowSize];
      assert other[start..start + WindowSize] == other[..m][start..start + WindowSize];
      LocateReadsBelow(io, other, start - WindowStep, start + WindowSize, m);
    }
  }

  /** Consecutive windows do not overlap: the next window ends 1021 bytes
      before the current one starts, and the bytes in between are never
      looked at. Two streams that differ only there are searched alike, so a
      page whose capture lies in such a gap is never found. */
  lemma GapBetweenWindows(io: Bytes, other: Bytes, start: int, cursor: nat)
    requires start > 0 && start + WindowSize <= |io| == |other|
    requires io[start..start + WindowSize] == other[start..start + WindowSize]
    requires start > WindowStep ==>
      io[..start - WindowStep + WindowSize] == other[..start - WindowStep + WindowSize]
    ensures start - WindowStep + WindowSize == start - 1021
    ensures Locate(io, start, cursor) == Locate(other, start, cursor)
  {
    if start > WindowStep {
      LocateReadsBelow(io, other, start - WindowStep, start + WindowSize, start - WindowStep + WindowSize);
    }
    LocateSameWindow(io, other, start, cursor);
  }

  /** Two streams with the same window at `start`, searched alike below it,
      are searched alike from `start`. */
  lemma LocateSameWindow(io: Bytes, other: Bytes, start: int, cursor: nat)
    requires start > 0 && start + WindowSize <= |io| && start + WindowSize <= |other|
    requires io[start..start + WindowSize] == other[start..start + WindowSize]
    requires Locate(io, start - WindowStep, start + WindowSize)
      == Locate(other, start - WindowStep, start + WindowSize)
    ensures Locate(io, start, cursor) == Locate(other, start, cursor)
  {
  }

  /** What the search makes of the window starting at `w`: its last
      reportable capture, if any. */
  function WindowResult(io: Bytes, w: int): Option<nat>
    requires 0 <= w && w + WindowSize <= |io|
  {
    LastCapture(io[w..w + WindowSize])
  }

  /** One window of the search: settle on its capture, or step back. */
  lemma LocateUnfold(io: Bytes, start: int, cursor: nat)
    requires 0 < start && start + WindowSize <= |io|
    ensures Locate(io, start, cursor)
      == if WindowResult(io, start).Some? then Found(start + WindowResult(io, start).value)
         else Locate(io, start - WindowStep, start + WindowSize)
  {
  }

  /** The windows visited from `start` are `start` and those visited from the
      next start. */
  lemma VisitedUnfold(start: int, w: int)
    requires 0 < start
    ensures Visited(start, w) <==> w == start || Visited(start - WindowStep, w)
  {
  }

  /** The window search gives up exactly when no window it reads holds a
      capture: `MalformedFileError` means every visited window is empty. */
  lemma {:induction false} LocateNotFound(io: Bytes, start: int, cursor: nat)
    requires start + WindowSize <= |io|
    ensures Locate(io, start, cursor).NotFound? <==>
      forall w :: Visited(start, w) ==> WindowResult(io, w).None?
    decreases if start > 0 then start else 0
  {
    if start <= 0 {
      forall w ensures !Visited(start, w) {
      }
    } else {
      LocateUnfold(io, start, cursor);
      VisitedUnfold(start, start);
      if WindowResult(io, start).None? {
        LocateNotFound(io, start - WindowStep, start + WindowSize);
        forall w ensures Visited(start, w) <==> w == start || Visited(start - WindowStep, w) {
          VisitedUnfold(start, w);
        }
      }
    }
  }

  /** The search from `start` settles in window `w` on `offset`: `w` is
      visited, the offset is the window's last capture, and every visited
      window after `w` holds none. */
  ghost predicate SettlesIn(io: Bytes, start: int, w: int, offset: nat)
    requires start + WindowSize <= |io|
  {
    && Visited(start, w)
    && WindowResult(io, w).Some?
    && offset == w + WindowResult(io, w).value
    && forall v :: Visited(start, v) && v > w ==> WindowResult(io, v).None?
  }

  /** The window search settles on the last capture of the first window, from
      the end, that holds one. */
  lemma {:induction false} LocateFound(io: Bytes, start: int, cursor: nat)
    requires start + WindowSize <= |io|
    requires Locate(io, start, cursor).Found?
    ensures exists w :: SettlesIn(io, start, w, Locate(io, start, cursor).offset)
    decreases if start > 0 then start else 0
  {
    LocateUnfold(io, start, cursor);
    VisitedUnfold(start, start);
    var offset := Locate(io, start, cursor).offset;
    if WindowResult(io, start).Some? {
      assert SettlesIn(io, start, start, offset);
    } else {
      var next := start - WindowStep;
      LocateFound(io, next, start + WindowSize);
      var w :| SettlesIn(io, next, w, offset);
      VisitedUnfold(start, w);
      forall v | Visited(start, v) && v > w ensures WindowResult(io, v).None? {
        VisitedUnfold(start, v);
      }
      assert SettlesIn(io, start, w, offset);
    }
  }
}
