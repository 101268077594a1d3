/** `Ogg::Decoder` of lib/ogg.rb: a cursor over a byte stream that finds
    pages by their capture pattern, reads them, and cuts their bodies into
    packets along the segment tables. The stream's bytes are `io`; the
    stream's cursor is the field `pos`. */
module OggDecoder {

  import opened Binary
  import opened OggPage

  // ---------------------------------------------------------------------
  // Specification functions
  // ---------------------------------------------------------------------

  /** `seek_to_page` reports offset `i` when "OggS" sits at `i` and at least
      one byte of the stream follows it: the sliding window is compared only
      while the stream is not at its end. */
  predicate Reportable(io: Bytes, i: nat) {
    i + |Capture| < |io| && io[i..i + |Capture|] == Capture
  }

  /** The offset `seek_to_page` stops at when started at `from`: the first
      reportable offset at or after `from`. */
  function FindCapture(io: Bytes, from: nat): (r: Option<nat>)
    ensures r.Some? ==> from <= r.value && Reportable(io, r.value)
    ensures r.Some? ==> forall j :: from <= j < r.value ==> !Reportable(io, j)
    ensures r.None? ==> forall j :: from <= j ==> !Reportable(io, j)
    decreases |io| - from
  {
    if from + |Capture| >= |io| then None
    else if io[from..from + |Capture|] == Capture then Some(from)
    else FindCapture(io, from + 1)
  }

  /** A reportable offset with none before it is where the scanner stops. */
  lemma {:induction false} FindCaptureAt(io: Bytes, from: nat, s: nat)
    requires from <= s && Reportable(io, s)
    requires forall j :: from <= j < s ==> !Reportable(io, j)
    ensures FindCapture(io, from) == Some(s)
    decreases s - from
  {
    if from < s {
      FindCaptureAt(io, from + 1, s);
    }
  }

  /** The last reportable offset below `k`. */
  function LastCaptureBelow(w: Bytes, k: nat): (r: Option<nat>)
    ensures r.Some? ==> r.value < k && Reportable(w, r.value)
    ensures r.Some? ==> forall j :: r.value < j < k ==> !Reportable(w, j)
    ensures r.None? ==> forall j :: 0 <= j < k ==> !Reportable(w, j)
    decreases k
  {
    if k == 0 then None
    else if Reportable(w, k - 1) then Some(k - 1)
    else LastCaptureBelow(w, k - 1)
  }

  /** The last reportable offset of a window. */
  function LastCapture(w: Bytes): Option<nat> {
    LastCaptureBelow(w, |w|)
  }

  /** The page `read_page` returns and where it leaves the cursor. */
  datatype PageRead = PageRead(page: Option<Page>, pos: nat)

  /** `read_page` from cursor `pos`. At the end of the stream nothing is
      read. Otherwise the scanner looks for a capture; when it finds none the
      cursor is at the end. A candidate that does not parse leaves the cursor
      at the end of the stream too, because BinData consumes what is left
      before it gives up, so the loop of `read_page` ends there. A parsed
      page is returned, or nil when checksums are verified and it fails. */
  function ReadPageAt(io: Bytes, pos: nat, verify: bool): (r: PageRead)
    requires pos <= |io|
    ensures r.pos <= |io|
    ensures r.page.Some? ==> pos < r.pos && WellFormed(r.page.value)
  {
    if pos == |io| then PageRead(None, pos)
    else
      match FindCapture(io, pos)
      case None => PageRead(None, |io|)
      case Some(s) =>
        match ParsePage(io[s..])
        case None => PageRead(None, |io|)
        case Some((p, len)) => PageRead(if verify && !ChecksumOk(p) then None else Some(p), s + len)
  }

  /** The segment loop of `read_packet` over one page: each entry of `table`
      takes that many bytes of `data` and appends them to the partial
      packet; an entry other than 255 closes the packet. The result is the
      packets closed on this page, oldest first, and the partial packet left
      over. */
  function Lace(table: Bytes, data: Bytes, partial: Bytes): (r: (seq<Bytes>, Bytes))
    requires |data| == Sum(table)
    decreases |table|
  {
    if table == [] then ([], partial)
    else
      var n := |table| - 1;
      var cut := Sum(table[..n]);
      var (done, part) := Lace(table[..n], data[..cut], partial);
      var acc := part + data[cut..];
      if table[n] != 255 then (done + [acc], []) else (done, acc)
  }

  /** What the refill loop of `read_packet` ends with: whether it ran out of
      pages, the packets closed on the last page it read (oldest first), the
      partial packet and the cursor. */
  datatype Pulled = Pulled(eof: bool, completed: seq<Bytes>, partial: Bytes, pos: nat)

  /** The refill loop of `read_packet`: read pages until one closes at least
      one packet, or until `read_page` returns nil. */
  function Pull(io: Bytes, pos: nat, partial: Bytes, verify: bool): (r: Pulled)
    requires pos <= |io|
    ensures r.pos <= |io|
    ensures r.eof <==> r.completed == []
    decreases |io| - pos
  {
    var rp := ReadPageAt(io, pos, verify);
    match rp.page
    case None => Pulled(true, [], partial, rp.pos)
    case Some(p) =>
      var (done, part) := Lace(p.segmentTable, p.data, partial);
      if done == [] then Pull(io, rp.pos, part, verify)
      else Pulled(false, done, part, rp.pos)
  }

  /** The window `read_last_page` reads at a time. */
  const WindowSize := 1024

  /** How far back the next window starts: `buffer_size * 2 - ('OggS'.size - 1)`. */
  const WindowStep := 2 * WindowSize - (|Capture| - 1)

  /** Where `read_last_page` goes: the absolute offset of the capture it
      settles on, or, when no window holds one, where the cursor is left. */
  datatype Located = Found(offset: nat) | NotFound(cursor: nat)

  /** The window loop of `read_last_page` from window start `start`, with
      the cursor at `cursor`. */
  function Locate(io: Bytes, start: int, cursor: nat): (r: Located)
    requires start + WindowSize <= |io|
    ensures r.Found? ==> Reportable(io, r.offset)
    decreases start
  {
    if start <= 0 then NotFound(cursor)
    else
      match LastCapture(io[start..start + WindowSize])
      case Some(s) =>
        WindowCapture(io, start, start + WindowSize, s);
        Found(start + s)
      case None => Locate(io, start - WindowStep, start + WindowSize)
  }

  /** The window starts the search from `start` reads: `start`,
      `start - 2045`, `start - 4090`, ... as long as they are positive. */
  ghost predicate Visited(start: int, w: int)
    ensures Visited(start, w) ==> 0 < w <= start
    decreases if start > 0 then start else 0
  {
    start > 0 && (w == start || Visited(start - WindowStep, w))
  }

  /** A capture the scanner reports inside a window of the stream is one it
      reports in the stream itself. */
  lemma WindowCapture(io: Bytes, lo: nat, hi: nat, s: nat)
    requires lo <= hi <= |io| && Reportable(io[lo..hi], s)
    ensures Reportable(io, lo + s)
  {
    var w := io[lo..hi];
    assert |Capture| == 4;
    assert w[s..s + 4] == [w[s], w[s + 1], w[s + 2], w[s + 3]];
    assert io[lo + s..lo + s + 4] == [io[lo + s], io[lo + s + 1], io[lo + s + 2], io[lo + s + 3]];
  }

  /** With no capture between `a` and `b`, the last capture below `b` is the
      last capture below `a`. */
  lemma NoCaptureBetween(w: Bytes, a: nat, b: nat)
    requires a <= b
    requires forall j :: a <= j < b ==> !Reportable(w, j)
    ensures LastCaptureBelow(w, b) == LastCaptureBelow(w, a)
  {
  }

  // ---------------------------------------------------------------------
  // The decoder
  // ---------------------------------------------------------------------

  class Decoder {
    /** The bytes of the stream. */
    const io: Bytes
    /** Whether the stream is a `File`. */
    const isFile: bool
    /** `verify_checksum`. */
    var verifyChecksum: bool
    /** The stream's cursor. */
    var pos: nat
    /** `@packets`: closed packets, newest at index 0. */
    var packets: seq<Bytes>
    /** `@partial`, with nil written as the empty string. */
    var partial: Bytes

    predicate Valid()
      reads this
    {
      pos <= |io|
    }

    /** The packets in the order `read_packet` hands them out. */
    function Queue(): (q: seq<Bytes>)
      reads this
      ensures |q| == |packets|
      ensures forall i :: 0 <= i < |q| ==> q[i] == packets[|packets| - 1 - i]
    {
      Reverse(packets)
    }

    /** `Decoder.new`: an empty packet list over a stream opened at its
        start. */
    constructor(io: Bytes, isFile: bool, verifyChecksum: bool := false)
      ensures Valid()
      ensures this.io == io && this.isFile == isFile && this.verifyChecksum == verifyChecksum
      ensures pos == 0 && packets == [] && partial == []
    {
      this.io := io;
      this.isFile := isFile;
      this.verifyChecksum := verifyChecksum;
      pos := 0;
      packets := [];
      partial := [];
    }

    /** `seek_to_page`: slide a four-byte window along the stream until it
        holds "OggS" while bytes remain; leave the cursor at the capture and
        return its offset. At the end of the stream, `EOFError`. */
    method SeekToPage() returns (r: Result<nat>)
      requires Valid()
      modifies this`pos
      ensures Valid()
      ensures match FindCapture(io, old(pos))
        case Some(s) => r == Ok(s) && pos == s
        case None => r == Err(EndOfFile) && pos == |io|
    {
      var found, at := ScanForCapture(io, pos);
      pos := at;
      if found.Some? {
        return Ok(at);
      }
      return Err(EndOfFile);
    }

    /** The loop of `seek_to_page` over the stream from `from`: the capture
        it stops at, and where the stream's cursor is left. */
    static method ScanForCapture(io: Bytes, from: nat) returns (found: Option<nat>, at: nat)
      requires from <= |io|
      ensures found == FindCapture(io, from)
      ensures at <= |io| && at == (if found.Some? then found.value else |io|)
    {
      var n := if |io| - from < |Capture| then |io| - from else |Capture|;
      var buffer := io[from..from + n];
      at := from + n;
      while at < |io|
        invariant from <= at <= |io|
        invariant at < |io| ==> from + |Capture| <= at && buffer == io[at - |Capture|..at]
        invariant forall j :: from <= j && j + |Capture| < at ==> !Reportable(io, j)
        decreases |io| - at
      {
        if buffer == Capture {
          at := at - |Capture|;
          FindCaptureAt(io, from, at);
          return Some(at), at;
        }
        buffer := buffer[1..] + [io[at]];
        at := at + 1;
      }
      return None, at;
    }

    /** `read_page`: find the next capture and read a page there; nil at the
        end of the stream, after a candidate that does not parse, or for a
        page whose checksum fails while checksums are verified. */
    method ReadPage() returns (page: Option<Page>)
      requires Valid()
      modifies this`pos
      ensures Valid()
      ensures ReadPageAt(io, old(pos), verifyChecksum) == PageRead(page, pos)
    {
      page := None;
      while pos < |io|
        invariant Valid() && page.None?
        invariant pos == old(pos) || (pos == |io| && ReadPageAt(io, old(pos), verifyChecksum) == PageRead(None, |io|))
        decreases |io| - pos
      {
        var found := SeekToPage();
        if found.Err? {
          continue;
        }
        var parsed := ParsePage(io[pos..]);
        if parsed.None? {
          pos := |io|;
          continue;
        }
        var (p, len) := parsed.value;
        pos := pos + len;
        page := Some(p);
        if verifyChecksum {
          var ok := CorrectChecksum(p);
          if !ok {
            page := None;
          }
        }
        break;
      }
    }

    /** `read_last_page`: scan 1024-byte windows from the end of a file
        backwards, settle on the last capture of the first window that holds
        one, and read the page there. */
    method ReadLastPage() returns (r: Result<Option<Page>>)
      requires Valid()
      modifies this`pos
      ensures Valid()
      ensures !isFile ==> r == Err(NotAFileStream) && pos == old(pos)
      ensures isFile ==> match Locate(io, |io| - WindowSize, old(pos))
        case NotFound(c) => r == Err(MalformedFile) && pos == c
        case Found(s) => r.Ok? && ReadPageAt(io, s, verifyChecksum) == PageRead(r.value, pos)
    {
      if !isFile {
        return Err(NotAFileStream);
      }
      var found := ScanWindows();
      match found
      case NotFound(_) =>
        return Err(MalformedFile);
      case Found(s) =>
        pos := s;
        var page := ReadPage();
        return Ok(page);
    }

    /** The window loop of `read_last_page`: from 1024 bytes before the end,
        read a window, look for its last capture, and step back 2045 bytes
        while none is found and the window start is positive. */
    method ScanWindows() returns (found: Located)
      requires Valid()
      modifies this`pos
      ensures Valid()
      ensures found == Locate(io, |io| - WindowSize, old(pos))
      ensures found.NotFound? ==> pos == found.cursor
      ensures found.Found? ==> pos - WindowSize <= found.offset && found.offset + |Capture| < pos
      ensures found.Found? ==> (WindowSize <= pos <= |io| && LastCapture(io[pos - WindowSize..pos]).Some?
        && found.offset == pos - WindowSize + LastCapture(io[pos - WindowSize..pos]).value)
    {
      var start: int := |io| - WindowSize;
      while start > 0
        invariant start + WindowSize <= |io| && Valid()
        invariant Locate(io, start, pos) == Locate(io, |io| - WindowSize, old(pos))
        decreases start
      {
        var window := io[start..start + WindowSize];
        pos := start + WindowSize;
        var subPos := LastInWindow(window);
        if subPos.Some? {
          return Found(start + subPos.value);
        }
        start := start - WindowStep;
      }
      return NotFound(pos);
    }

    /** The inner loop of `read_last_page`: a decoder over the window runs
        `seek_to_page` again and again, stepping one byte past each capture,
        and the last offset it reports is kept. */
    static method LastInWindow(window: Bytes) returns (subPos: Option<nat>)
      ensures subPos == LastCapture(window)
    {
      var dec := new Decoder(window, false);
      subPos := None;
      while true
        invariant dec.io == window && dec.Valid()
        invariant subPos == LastCaptureBelow(window, dec.pos)
        modifies dec
        decreases |window| - dec.pos
      {
        ghost var from := dec.pos;
        var found := dec.SeekToPage();
        if found.Err? {
          NoCaptureBetween(window, from, |window|);
          break;
        }
        subPos := Some(found.value);
        dec.pos := dec.pos + 1;
      }
    }

    /** `read_packet`: hand out the oldest closed packet; when there is none,
        read pages and lace their bodies until one closes, or raise
        `EOFError` when `read_page` returns nil. */
    method ReadPacket() returns (r: Result<Bytes>)
      requires Valid()
      modifies this`pos, this`packets, this`partial
      ensures Valid()
      ensures old(packets) != [] ==>
        && r == Ok(old(Queue())[0]) && Queue() == old(Queue())[1..]
        && pos == old(pos) && partial == old(partial)
      ensures old(packets) == [] ==>
        var pl := Pull(io, old(pos), old(partial), verifyChecksum);
        && pos == pl.pos && partial == pl.partial
        && (pl.eof ==> r == Err(EndOfFile) && packets == [])
        && (!pl.eof ==> r == Ok(pl.completed[0]) && Queue() == pl.completed[1..])
    {
      if packets != [] {
        ReverseLast(packets);
        r := Ok(packets[|packets| - 1]);
        packets := packets[..|packets| - 1];
        return;
      }
      ghost var goal := Pull(io, pos, partial, verifyChecksum);
      while packets == []
        invariant Valid()
        invariant packets == [] ==> Pull(io, pos, partial, verifyChecksum) == goal
        invariant packets != [] ==>
          !goal.eof && Reverse(packets) == goal.completed && partial == goal.partial && pos == goal.pos
        decreases |io| - pos
      {
        var page := ReadPage();
        if page.None? {
          return Err(EndOfFile);
        }
        LacePage(page.value);
      }
      ReverseLast(packets);
      r := Ok(packets[|packets| - 1]);
      packets := packets[..|packets| - 1];
    }

    /** The segment loop of `read_packet` over one page: cut the body along
        the segment table, appending each segment to `@partial` and moving
        `@partial` to the front of `@packets` after every entry other than
        255. */
    method LacePage(p: Page)
      requires WellFormed(p) && packets == []
      modifies this`packets, this`partial
      ensures (Queue(), partial) == Lace(p.segmentTable, p.data, old(partial))
    {
      ghost var partial0 := partial;
      var offset := 0;
      for i := 0 to |p.segmentTable|
        invariant offset == Sum(p.segmentTable[..i]) <= |p.data|
        invariant Lace(p.segmentTable[..i], p.data[..offset], partial0) == (Reverse(packets), partial)
      {
        SumPrefix(p.segmentTable, i);
        var seg := p.segmentTable[i];
        ghost var before := packets;
        partial := partial + p.data[offset..offset + seg as int];
        offset := offset + seg as int;
        if seg != 255 {
          packets := [partial] + packets;
          partial := [];
          assert packets[1..] == before;
        }
        assert p.segmentTable[..i + 1][..i] == p.segmentTable[..i];
        assert p.data[..offset][..offset - seg as int] == p.data[..offset - seg as int];
        assert p.data[..offset][offset - seg as int..] == p.data[offset - seg as int..offset];
      }
      assert p.segmentTable[..|p.segmentTable|] == p.segmentTable;
      assert p.data[..offset] == p.data;
    }
  }
}
