/** The Vorbis metadata readers of lib/vorbis.rb: the identification header
    (section 4.2.2 of the Vorbis I specification), the comment header
    (section 5 of the Vorbis I specification) with its list of `KEY=value`
    entries, and the hash that looks comment keys up regardless of case. */
module Vorbis {

  import opened Binary

  // ---------------------------------------------------------------------
  // Reading from a byte stream
  // ---------------------------------------------------------------------

  /** `BinData::Uint32le.read` at offset `pos`: four bytes, least
      significant first, or an error when fewer remain: BinData raises
      `EOFError` when none remain and `IOError` when one to three do, and
      `EndOfFile` stands for both. */
  function ReadU32(s: Bytes, pos: nat): (r: Result<(u32, nat)>)
    ensures r.Ok? ==> r.value.1 == pos + 4 <= |s|
    ensures r.Err? ==> r.error == EndOfFile && |s| < pos + 4
  {
    if |s| < pos + 4 then Err(EndOfFile) else Ok((U32(s[pos..pos + 4]), pos + 4))
  }

  /** Four little-endian bytes are read back as the number they encode. */
  lemma ReadU32Encoded(s: Bytes, pos: nat, x: u32)
    requires pos + 4 <= |s| && s[pos..pos + 4] == Le32(x)
    ensures ReadU32(s, pos) == Ok((x, pos + 4))
  {
    U32RoundTrip(x, s[pos..pos + 4]);
  }

  // ---------------------------------------------------------------------
  // Comment keys and the case-insensitive hash
  // ---------------------------------------------------------------------

  /** A key as the hash receives it: a string, a symbol, or nil (the key of
      an empty comment). `to_s` turns each into text. */
  datatype Key = Str(text: Bytes) | Sym(name: Bytes) | Nil

  function ToS(k: Key): Bytes {
    match k
    case Str(t) => t
    case Sym(n) => n
    case Nil => []
  }

  predicate IsLower(b: byte) {
    0x61 <= b <= 0x7a
  }

  /** `upcase` on the binary strings the stream yields: the ASCII letters
      `a` to `z` become `A` to `Z` and every other byte stays. */
  function UpcaseByte(b: byte): (r: byte)
    ensures !IsLower(r)
    ensures IsLower(b) ==> r as int == b as int - 0x20
    ensures !IsLower(b) ==> r == b
  {
    if IsLower(b) then b - 0x20 else b
  }

  function Upcase(s: Bytes): (r: Bytes)
    ensures |r| == |s|
    ensures forall i :: 0 <= i < |s| ==> r[i] == UpcaseByte(s[i])
  {
    seq(|s|, i requires 0 <= i < |s| => UpcaseByte(s[i]))
  }

  /** The key a hash entry is stored and looked up under: `key.to_s.upcase`. */
  function Normal(k: Key): (r: Bytes)
    ensures |r| == |ToS(k)|
    ensures forall i :: 0 <= i < |r| ==> !IsLower(r[i])
  {
    Upcase(ToS(k))
  }

  /** Two texts that are equal once letter case is disregarded: byte for
      byte equal, or the same ASCII letter in its two cases. */
  predicate SameIgnoringCase(a: Bytes, b: Bytes) {
    |a| == |b| &&
    forall i :: 0 <= i < |a| ==>
      a[i] == b[i]
      || (IsLower(a[i]) && b[i] as int == a[i] as int - 0x20)
      || (IsLower(b[i]) && a[i] as int == b[i] as int - 0x20)
  }

  /** Upper-casing identifies exactly the texts that differ only in letter
      case. */
  lemma UpcaseIdentifiesCase(a: Bytes, b: Bytes)
    ensures Upcase(a) == Upcase(b) <==> SameIgnoringCase(a, b)
  {
    if Upcase(a) == Upcase(b) {
      forall i | 0 <= i < |a|
        ensures a[i] == b[i]
          || (IsLower(a[i]) && b[i] as int == a[i] as int - 0x20)
          || (IsLower(b[i]) && a[i] as int == b[i] as int - 0x20)
      {
        assert UpcaseByte(a[i]) == Upcase(a)[i] == Upcase(b)[i] == UpcaseByte(b[i]);
      }
    }
    if SameIgnoringCase(a, b) {
      forall i | 0 <= i < |a|
        ensures Upcase(a)[i] == Upcase(b)[i]
      {
      }
    }
  }

  /** Upper-casing twice is upper-casing once: stored keys are their own
      normal form. */
  lemma UpcaseIdempotent(s: Bytes)
    ensures Upcase(Upcase(s)) == Upcase(s)
  {
  }

  /** A symbol and a string with the same text name the same entry. */
  lemma SymbolMatchesString(t: Bytes)
    ensures Normal(Sym(t)) == Normal(Str(t))
  {
  }

  /** `InsensitiveHash`: a hash whose `[]` and `[]=` pass every key through
      `to_s.upcase` first. */
  class InsensitiveHash<V> {

    /** The underlying hash, keyed by normalised text. */
    var entries: map<Bytes, V>

    constructor()
      ensures entries == map[]
    {
      entries := map[];
    }

    /** `[]`: the value under the normalised key, or nil. */
    function Get(key: Key): (r: Option<V>)
      reads this
      ensures r.Some? <==> Normal(key) in entries
      ensures r.Some? ==> r.value == entries[Normal(key)]
    {
      if Normal(key) in entries then Some(entries[Normal(key)]) else None
    }

    /** `[]=`: store under the normalised key. Every key with the same
      normal form now yields the value; every other key is as before. */
    method Set(key: Key, value: V)
      modifies this
      ensures entries == old(entries)[Normal(key) := value]
      ensures forall k :: Normal(k) == Normal(key) ==> Get(k) == Some(value)
      ensures forall k :: Normal(k) != Normal(key) ==> Get(k) == old(Get(k))
    {
      entries := entries[Normal(key) := value];
    }
  }

  /** Looking up two keys that differ only in letter case, or a symbol and a
      string of the same text, finds the same entry. */
  lemma LookupIgnoresCase<V>(h: InsensitiveHash<V>, a: Key, b: Key)
    requires SameIgnoringCase(ToS(a), ToS(b))
    ensures h.Get(a) == h.Get(b)
  {
    UpcaseIdentifiesCase(ToS(a), ToS(b));
  }

  // ---------------------------------------------------------------------
  // One comment: `KEY=value`
  // ---------------------------------------------------------------------

  /** The byte `=`. */
  const Equals: byte := 0x3d

  /** The offset of the first `=` in `c`, if any. */
  function FirstEquals(c: Bytes): (r: Option<nat>)
    ensures r.Some? ==> r.value < |c| && c[r.value] == Equals && Equals !in c[..r.value]
    ensures r.None? ==> Equals !in c
  {
    if c == [] then None
    else if c[0] == Equals then Some(0)
    else match FirstEquals(c[1..])
      case None => None
      case Some(i) => assert c[..i + 1] == [c[0]] + c[1..][..i]; Some(i + 1)
  }

  /** `comment.split('=', 2)` assigned to `key, value`: the text before the
      first `=` and the rest after it. Without `=` the whole comment is the
      key and the value is nil; an empty comment splits into nothing, so key
      and value are both nil. */
  function SplitComment(c: Bytes): (r: (Key, Option<Bytes>))
    ensures r.0 == Nil <==> c == []
  {
    if c == [] then (Nil, None)
    else match FirstEquals(c)
      case None => (Str(c), None)
      case Some(i) => (Str(c[..i]), Some(c[i + 1..]))
  }

  /** Splitting keeps every byte: the key, then `=` and the value when there
      is one, give back the comment; the key holds no `=`, and a comment
      without a value holds none either. */
  lemma SplitCommentRestores(c: Bytes)
    ensures var (key, value) := SplitComment(c);
      && Equals !in ToS(key)
      && (value.Some? ==> ToS(key) + [Equals] + value.value == c)
      && (value.None? ==> ToS(key) == c && Equals !in c)
  {
    match FirstEquals(c)
    case None =>
    case Some(i) =>
      if c != [] {
        assert c[..i] + [Equals] + c[i + 1..] == c;
      }
  }

  /** The split is at the first `=`: a key without `=` followed by `=` and any
      value, even one holding more `=`, splits back into that key and value. */
  lemma SplitCommentOfJoin(key: Bytes, value: Bytes)
    requires Equals !in key
    ensures SplitComment(key + [Equals] + value) == (Str(key), Some(value))
  {
    var c := key + [Equals] + value;
    assert c[|key|] == Equals;
    assert c[..|key|] == key;
    assert c[|key| + 1..] == value;
  }

  // ---------------------------------------------------------------------
  // The comment list
  // ---------------------------------------------------------------------

  /** One entry of the list: a u32 length and that many bytes
      (`io.readbytes(length)`), or `EOFError` when the stream is short. */
  function ReadEntry(s: Bytes, pos: nat): (r: Result<(Bytes, nat)>)
    ensures r.Ok? ==> pos + 4 + |r.value.0| == r.value.1 <= |s|
    ensures r.Err? ==> r.error == EndOfFile
  {
    match ReadU32(s, pos)
    case Err(e) => Err(e)
    case Ok((length, p)) =>
      if |s| < p + length as int then Err(EndOfFile)
      else Ok((s[p..p + length as int], p + length as int))
  }

  /** `n` entries read one after the other, and the offset after the last. */
  function ReadEntries(s: Bytes, pos: nat, n: nat): (r: Result<(seq<Bytes>, nat)>)
    ensures r.Ok? ==> |r.value.0| == n && pos <= r.value.1 <= |s|
    ensures r.Err? ==> r.error == EndOfFile
    decreases n
  {
    if n == 0 then (if pos <= |s| then Ok(([], pos)) else Err(EndOfFile))
    else match ReadEntry(s, pos)
      case Err(e) => Err(e)
      case Ok((c, p)) =>
        match ReadEntries(s, p, n - 1)
        case Err(e) => Err(e)
        case Ok((cs, end)) => Ok(([c] + cs, end))
  }

  /** The comment list: a u32 count and exactly that many entries. */
  function ReadCommentList(s: Bytes, pos: nat): (r: Result<(seq<Bytes>, nat)>)
    ensures r.Ok? ==> pos + 4 <= r.value.1 <= |s|
    ensures r.Ok? ==> |r.value.0| == U32(s[pos..pos + 4]) as int
  {
    match ReadU32(s, pos)
    case Err(e) => Err(e)
    case Ok((n, p)) => ReadEntries(s, p, n as nat)
  }

  /** Entries whose lengths fit the u32 length prefix. */
  predicate Encodable(cs: seq<Bytes>) {
    forall i :: 0 <= i < |cs| ==> |cs[i]| < 0x1_0000_0000
  }

  /** The bytes of a run of entries: each one's length, then the entry. */
  function EncodeEntries(cs: seq<Bytes>): (r: Bytes)
    requires Encodable(cs)
    decreases |cs|
  {
    if cs == [] then [] else Le32(|cs[0]| as u32) + cs[0] + EncodeEntries(cs[1..])
  }

  /** The bytes of a comment list: the count, then the entries. */
  function EncodeCommentList(cs: seq<Bytes>): (r: Bytes)
    requires |cs| < 0x1_0000_0000 && Encodable(cs)
    ensures |r| >= 4
  {
    Le32(|cs| as u32) + EncodeEntries(cs)
  }

  /** A written entry is read back. */
  lemma ReadEncodedEntry(s: Bytes, pos: nat, c: Bytes)
    requires |c| < 0x1_0000_0000
    requires pos + 4 + |c| <= |s| && s[pos..pos + 4 + |c|] == Le32(|c| as u32) + c
    ensures ReadEntry(s, pos) == Ok((c, pos + 4 + |c|))
  {
    SliceSplit(s, pos, Le32(|c| as u32), c);
    ReadU32Encoded(s, pos, |c| as u32);
  }

  /** Written entries are read back, whatever surrounds them. */
  lemma {:induction false} ReadEncodedEntries(s: Bytes, pos: nat, cs: seq<Bytes>)
    requires Encodable(cs)
    requires pos + |EncodeEntries(cs)| <= |s| && s[pos..pos + |EncodeEntries(cs)|] == EncodeEntries(cs)
    ensures ReadEntries(s, pos, |cs|) == Ok((cs, pos + |EncodeEntries(cs)|))
    decreases |cs|
  {
    if cs != [] {
      var c := cs[0];
      var rest := EncodeEntries(cs[1..]);
      var first := Le32(|c| as u32) + c;
      assert EncodeEntries(cs) == first + rest;
      SliceSplit(s, pos, first, rest);
      ReadEncodedEntry(s, pos, c);
      assert Encodable(cs[1..]) by {
        forall i | 0 <= i < |cs[1..]| ensures |cs[1..][i]| < 0x1_0000_0000 {
          assert cs[1..][i] == cs[i + 1];
        }
      }
      ReadEncodedEntries(s, pos + |first|, cs[1..]);
      ReadEntriesFirst(s, pos, |cs|);
      assert [c] + cs[1..] == cs;
    } else {
      assert s[pos..pos] == [];
    }
  }

  /** Entries that were read are exactly the bytes they were read from: the
      reader consumes nothing it does not return. */
  lemma {:induction false} ReadEntriesEncoded(s: Bytes, pos: nat, n: nat)
    requires ReadEntries(s, pos, n).Ok?
    ensures Encodable(ReadEntries(s, pos, n).value.0)
    ensures s[pos..ReadEntries(s, pos, n).value.1] == EncodeEntries(ReadEntries(s, pos, n).value.0)
    decreases n
  {
    if n > 0 {
      var (c, p) := ReadEntry(s, pos).value;
      ReadEntryEncoded(s, pos);
      ReadEntriesEncoded(s, p, n - 1);
      var (cs, end) := ReadEntries(s, p, n - 1).value;
      var all := [c] + cs;
      assert all[1..] == cs && all[0] == c;
      assert Encodable(all) by {
        forall i | 0 <= i < |all| ensures |all[i]| < 0x1_0000_0000 {
          if i > 0 {
            assert all[i] == cs[i - 1];
          }
        }
      }
      SliceJoin(s, pos, p, end);
    } else {
      assert s[pos..pos] == [];
    }
  }

  /** An entry that was read is exactly the bytes it was read from. */
  lemma ReadEntryEncoded(s: Bytes, pos: nat)
    requires ReadEntry(s, pos).Ok?
    ensures |ReadEntry(s, pos).value.0| < 0x1_0000_0000
    ensures s[pos..ReadEntry(s, pos).value.1] == Le32(|ReadEntry(s, pos).value.0| as u32) + ReadEntry(s, pos).value.0
  {
    var (c, p) := ReadEntry(s, pos).value;
    U32RoundTrip(0, s[pos..pos + 4]);
    SliceJoin(s, pos, pos + 4, p);
  }

  /** A written comment list is read back, wherever it sits in the stream. */
  lemma ReadEncodedCommentList(s: Bytes, at: nat, cs: seq<Bytes>)
    requires |cs| < 0x1_0000_0000 && Encodable(cs)
    requires at + |EncodeCommentList(cs)| <= |s| && s[at..at + |EncodeCommentList(cs)|] == EncodeCommentList(cs)
    ensures ReadCommentList(s, at) == Ok((cs, at + |EncodeCommentList(cs)|))
  {
    SliceSplit(s, at, Le32(|cs| as u32), EncodeEntries(cs));
    ReadU32Encoded(s, at, |cs| as u32);
    ReadEncodedEntries(s, at + 4, cs);
  }

  // ---------------------------------------------------------------------
  // Collecting comments into the hash
  // ---------------------------------------------------------------------

  /** `(comments[key] ||= []) << value` on the hash's contents. */
  function AddComment(m: map<Bytes, seq<Option<Bytes>>>, c: Bytes): (r: map<Bytes, seq<Option<Bytes>>>)
    ensures r.Keys == m.Keys + {Normal(SplitComment(c).0)}
    ensures forall k :: k in m && k != Normal(SplitComment(c).0) ==> r[k] == m[k]
    ensures var k := Normal(SplitComment(c).0);
      r[k] == (if k in m then m[k] else []) + [SplitComment(c).1]
  {
    var (key, value) := SplitComment(c);
    var k := Normal(key);
    m[k := (if k in m then m[k] else []) + [value]]
  }

  /** The hash that `read_and_return_value` builds from the entries, in
      order. */
  function Collect(cs: seq<Bytes>): (r: map<Bytes, seq<Option<Bytes>>>)
    decreases |cs|
  {
    if cs == [] then map[] else AddComment(Collect(cs[..|cs| - 1]), cs[|cs| - 1])
  }

  /** The values of the entries whose key normalises to `k`, in the order
      the entries come. */
  function ValuesFor(cs: seq<Bytes>, k: Bytes): (r: seq<Option<Bytes>>)
    ensures |r| <= |cs|
    decreases |cs|
  {
    if cs == [] then []
    else
      var (key, value) := SplitComment(cs[|cs| - 1]);
      ValuesFor(cs[..|cs| - 1], k) + (if Normal(key) == k then [value] else [])
  }

  /** A key is in the collected hash exactly when some entry has it, and its
      values are those entries' values in input order: repeated keys keep
      every value and their order. */
  lemma {:induction false} CollectKeepsOrder(cs: seq<Bytes>, k: Bytes)
    ensures k in Collect(cs) <==> ValuesFor(cs, k) != []
    ensures k in Collect(cs) ==> Collect(cs)[k] == ValuesFor(cs, k)
    decreases |cs|
  {
    if cs != [] {
      CollectKeepsOrder(cs[..|cs| - 1], k);
    }
  }

  /** Every key of the collected hash is upper case. */
  lemma {:induction false} CollectKeysAreUpper(cs: seq<Bytes>)
    ensures forall k :: k in Collect(cs) ==> Upcase(k) == k
    decreases |cs|
  {
    if cs != [] {
      CollectKeysAreUpper(cs[..|cs| - 1]);
      var (key, _) := SplitComment(cs[|cs| - 1]);
      UpcaseIdempotent(ToS(key));
    }
  }

  /** `Comments#read_and_return_value`: read the count, then that many
      entries, splitting each at its first `=` and appending the value to the
      list kept under its key. A short stream raises `EOFError`. On success
      the result is the offset after the list and the hash, whose contents
      are the entries collected in order. */
  method ReadComments(s: Bytes, pos: nat) returns (r: Result<nat>, comments: InsensitiveHash<seq<Option<Bytes>>>)
    ensures fresh(comments)
    ensures ReadCommentList(s, pos).Err? ==> r == Err(ReadCommentList(s, pos).error)
    ensures ReadCommentList(s, pos).Ok? ==>
      r == Ok(ReadCommentList(s, pos).value.1) && comments.entries == Collect(ReadCommentList(s, pos).value.0)
  {
    comments := new InsensitiveHash();
    var count := ReadU32(s, pos);
    if count.Err? {
      return Err(count.error), comments;
    }
    var n: u32 := count.value.0;
    var at: nat := count.value.1;
    ghost var goal := ReadCommentList(s, pos);
    ghost var read: seq<Bytes> := [];
    JoinNothing(ReadEntries(s, at, n as nat));
    var i: nat := 0;
    ghost var left: nat := n as nat;
    while i < n as nat
      invariant i + left == n as nat && |read| == i && at <= |s|
      invariant comments.entries == Collect(read)
      invariant goal == Join(read, ReadEntries(s, at, left))
      decreases left
    {
      ReadListStep(s, at, left, read, goal);
      var next := ReadComment(s, at, comments);
      if next.Err? {
        return Err(EndOfFile), comments;
      }
      CollectStep(read, ReadEntry(s, at).value.0);
      read := read + [ReadEntry(s, at).value.0];
      at := next.value;
      i := i + 1;
      left := left - 1;
    }
    r := Ok(at);
    JoinDone(s, at, read);
  }

  /** Reading the next entry of the list moves it from what is left to read
      to what has been read; a failure to read it fails the whole list. */
  lemma ReadListStep(s: Bytes, at: nat, m: nat, read: seq<Bytes>, goal: Result<(seq<Bytes>, nat)>)
    requires m > 0 && goal == Join(read, ReadEntries(s, at, m))
    ensures ReadEntry(s, at).Err? ==> goal == Err(EndOfFile)
    ensures ReadEntry(s, at).Ok? ==>
      goal == Join(read + [ReadEntry(s, at).value.0], ReadEntries(s, ReadEntry(s, at).value.1, m - 1))
  {
    if ReadEntry(s, at).Ok? {
      JoinStep(read, ReadEntry(s, at).value.0, ReadEntries(s, ReadEntry(s, at).value.1, m - 1));
    }
  }

  lemma CollectStep(read: seq<Bytes>, c: Bytes)
    ensures Collect(read + [c]) == AddComment(Collect(read), c)
  {
    assert (read + [c])[..|read|] == read;
  }

  lemma JoinNothing(rest: Result<(seq<Bytes>, nat)>)
    ensures Join([], rest) == rest
  {
    if rest.Ok? {
      assert [] + rest.value.0 == rest.value.0;
    }
  }

  lemma JoinDone(s: Bytes, at: nat, read: seq<Bytes>)
    requires at <= |s|
    ensures Join(read, ReadEntries(s, at, 0)) == Ok((read, at))
  {
    assert read + [] == read;
  }

  /** The block of the `times` loop: read one entry, split it and append
      its value to the list under its key. */
  method ReadComment(s: Bytes, at: nat, comments: InsensitiveHash<seq<Option<Bytes>>>) returns (r: Result<nat>)
    modifies comments
    ensures ReadEntry(s, at).Err? ==> r == Err(EndOfFile) && comments.entries == old(comments.entries)
    ensures ReadEntry(s, at).Ok? ==>
      r == Ok(ReadEntry(s, at).value.1)
      && comments.entries == AddComment(old(comments.entries), ReadEntry(s, at).value.0)
  {
    var length := ReadU32(s, at);
    if length.Err? {
      return Err(EndOfFile);
    }
    var len: u32 := length.value.0;
    var p: nat := length.value.1;
    if |s| < p + len as int {
      return Err(EndOfFile);
    }
    var comment := s[p..p + len as int];
    assert ReadEntry(s, at) == Ok((comment, p + len as int));
    Append(comments, comment);
    r := Ok(p + len as int);
  }

  /** `key, value = comment.split('=', 2)` and
      `(comments[key] ||= []) << value`. */
  method Append(comments: InsensitiveHash<seq<Option<Bytes>>>, comment: Bytes)
    modifies comments
    ensures comments.entries == AddComment(old(comments.entries), comment)
  {
    var (key, value) := SplitComment(comment);
    var values := comments.Get(key).GetOr([]);
    comments.Set(key, values + [value]);
  }

  /** The list read so far in front of what the rest of the stream gives. */
  function Join(read: seq<Bytes>, rest: Result<(seq<Bytes>, nat)>): (r: Result<(seq<Bytes>, nat)>)
    ensures rest.Err? ==> r == rest
    ensures rest.Ok? ==> r.Ok? && r.value.0 == read + rest.value.0 && r.value.1 == rest.value.1
  {
    match rest
    case Err(e) => Err(e)
    case Ok((cs, end)) => Ok((read + cs, end))
  }

  /** The first of `m` entries is read before the rest, and a failure to
      read it is a failure to read them all. */
  lemma ReadEntriesFirst(s: Bytes, at: nat, m: nat)
    requires m > 0
    ensures ReadEntry(s, at).Err? ==> ReadEntries(s, at, m) == Err(EndOfFile)
    ensures ReadEntry(s, at).Ok? ==>
      ReadEntries(s, at, m) == Join([ReadEntry(s, at).value.0], ReadEntries(s, ReadEntry(s, at).value.1, m - 1))
  {
  }

  lemma JoinStep(read: seq<Bytes>, c: Bytes, rest: Result<(seq<Bytes>, nat)>)
    ensures Join(read, Join([c], rest)) == Join(read + [c], rest)
  {
    if rest.Ok? {
      assert read + ([c] + rest.value.0) == (read + [c]) + rest.value.0;
    }
  }

  // ---------------------------------------------------------------------
  // The identification header
  // ---------------------------------------------------------------------

  /** BinData's `int32`: a signed 32-bit integer. */
  newtype i32 = x: int | -0x8000_0000 <= x < 0x8000_0000

  /** A 4-bit field. */
  newtype nibble = x: int | 0 <= x < 16

  /** Four little-endian bytes read as a two's-complement integer. */
  function I32(b: Bytes): (x: i32)
    requires |b| == 4
  {
    var u := U32(b) as int;
    (if u < 0x8000_0000 then u else u - 0x1_0000_0000) as i32
  }

  function LeI32(x: i32): (r: Bytes)
    ensures |r| == 4
  {
    Le32((if x >= 0 then x as int else x as int + 0x1_0000_0000) as u32)
  }

  lemma I32RoundTrip(x: i32, b: Bytes)
    requires |b| == 4
    ensures I32(LeI32(x)) == x
    ensures LeI32(I32(b)) == b
  {
    U32RoundTrip((if x >= 0 then x as int else x as int + 0x1_0000_0000) as u32, b);
  }

  /** Size of the fixed layout. */
  const IdentificationSize := 29

  /** `IdentificationHeader`, field for field. `packetType` and `codec` hold
      the bytes as read. */
  datatype IdentificationHeader = IdentificationHeader(
    packetType: byte,
    codec: Bytes,
    vorbisVersion: u32,
    audioChannels: byte,
    audioSampleRate: u32,
    bitrateMaximum: i32,
    bitrateNominal: i32,
    bitrateMinimum: i32,
    blocksize0: nibble,
    blocksize1: nibble)

  /** `IdentificationHeader.read`: the 29-byte layout in field order,
      integers little-endian, and the two block sizes from the last byte,
      `blocksize_0` from its high four bits as BinData's `bit4` reads them.
      Bytes after the layout are not looked at; a shorter packet raises
      `EOFError`. */
  function ReadIdentification(s: Bytes): (r: Result<IdentificationHeader>)
    ensures r.Err? <==> |s| < IdentificationSize
    ensures r.Ok? ==> |r.value.codec| == 6
  {
    if |s| < IdentificationSize then Err(EndOfFile)
    else Ok(IdentificationHeader(
      s[0], s[1..7], U32(s[7..11]), s[11], U32(s[12..16]),
      I32(s[16..20]), I32(s[20..24]), I32(s[24..28]),
      (s[28] / 16) as int as nibble, (s[28] % 16) as int as nibble))
  }

  /** `to_binary_s` of the identification header. */
  function EncodeIdentification(h: IdentificationHeader): (r: Bytes)
    requires |h.codec| == 6
    ensures |r| == IdentificationSize
  {
    [h.packetType] + h.codec + Le32(h.vorbisVersion) + [h.audioChannels] + Le32(h.audioSampleRate)
    + LeI32(h.bitrateMaximum) + LeI32(h.bitrateNominal) + LeI32(h.bitrateMinimum)
    + [(h.blocksize0 as int * 16 + h.blocksize1 as int) as byte]
  }

  /** A written identification header is read back, whatever follows it. */
  lemma IdentificationRoundTrip(h: IdentificationHeader, rest: Bytes)
    requires |h.codec| == 6
    ensures ReadIdentification(EncodeIdentification(h) + rest) == Ok(h)
  {
    var s := EncodeIdentification(h) + rest;
    assert s[1..7] == h.codec;
    assert s[7..11] == Le32(h.vorbisVersion);
    assert s[12..16] == Le32(h.audioSampleRate);
    assert s[16..20] == LeI32(h.bitrateMaximum);
    assert s[20..24] == LeI32(h.bitrateNominal);
    assert s[24..28] == LeI32(h.bitrateMinimum);
    U32RoundTrip(h.vorbisVersion, s[7..11]);
    U32RoundTrip(h.audioSampleRate, s[12..16]);
    I32RoundTrip(h.bitrateMaximum, s[16..20]);
    I32RoundTrip(h.bitrateNominal, s[20..24]);
    I32RoundTrip(h.bitrateMinimum, s[24..28]);
  }

  /** Writing a header that was read gives back the 29 bytes it was read
      from. */
  lemma IdentificationBytesRoundTrip(s: Bytes)
    requires |s| >= IdentificationSize
    ensures EncodeIdentification(ReadIdentification(s).value) == s[..IdentificationSize]
  {
    U32RoundTrip(0, s[7..11]);
    U32RoundTrip(0, s[12..16]);
    I32RoundTrip(0, s[16..20]);
    I32RoundTrip(0, s[20..24]);
    I32RoundTrip(0, s[24..28]);
    assert s[..IdentificationSize] == [s[0]] + s[1..7] + s[7..11] + [s[11]] + s[12..16]
      + s[16..20] + s[20..24] + s[24..28] + [s[28]];
  }

  /** The sample rate bytes `44 ac 00 00` read as 44100 and the nominal
      bitrate bytes `00 ee 02 00` as 192000. */
  lemma IdentificationExample(s: Bytes)
    requires |s| >= IdentificationSize
    requires s[12..16] == [0x44, 0xac, 0x00, 0x00] && s[20..24] == [0x00, 0xee, 0x02, 0x00]
    ensures ReadIdentification(s).value.audioSampleRate == 44100
    ensures ReadIdentification(s).value.bitrateNominal == 192000
  {
  }

  // ---------------------------------------------------------------------
  // The comment header
  // ---------------------------------------------------------------------

  /** `CommentHeader`, field for field. `packetType` and `codec` hold the
      bytes as read; `comments` is the contents of the case-insensitive
      hash. */
  datatype CommentHeader = CommentHeader(
    packetType: byte,
    codec: Bytes,
    vendorLength: u32,
    vendorString: Bytes,
    comments: map<Bytes, seq<Option<Bytes>>>)

  /** `CommentHeader.read`: packet type, codec, vendor length, a vendor
      string of exactly that length, then the comment list. Bytes after the
      list are not looked at; a short packet raises `EOFError`. */
  function ReadCommentHeader(s: Bytes): (r: Result<CommentHeader>)
    ensures r.Ok? ==> |r.value.codec| == 6 && |r.value.vendorString| == r.value.vendorLength as int
  {
    if |s| < 11 then Err(EndOfFile)
    else
      var vendorLength := U32(s[7..11]);
      if |s| < 11 + vendorLength as int then Err(EndOfFile)
      else match ReadCommentList(s, 11 + vendorLength as int)
        case Err(e) => Err(e)
        case Ok((cs, _)) =>
          Ok(CommentHeader(s[0], s[1..7], vendorLength, s[11..11 + vendorLength as int], Collect(cs)))
  }

  /** The bytes of a comment header with the given vendor and entries. */
  function EncodeCommentHeader(packetType: byte, codec: Bytes, vendor: Bytes, cs: seq<Bytes>): (r: Bytes)
    requires |codec| == 6 && |vendor| < 0x1_0000_0000
    requires |cs| < 0x1_0000_0000 && Encodable(cs)
  {
    [packetType] + codec + Le32(|vendor| as u32) + vendor + EncodeCommentList(cs)
  }

  /** A written comment header is read back: the vendor string as written,
      and every entry filed under its upper-cased key. */
  lemma CommentHeaderRoundTrip(packetType: byte, codec: Bytes, vendor: Bytes, cs: seq<Bytes>, rest: Bytes)
    requires |codec| == 6 && |vendor| < 0x1_0000_0000
    requires |cs| < 0x1_0000_0000 && Encodable(cs)
    ensures ReadCommentHeader(EncodeCommentHeader(packetType, codec, vendor, cs) + rest)
      == Ok(CommentHeader(packetType, codec, |vendor| as u32, vendor, Collect(cs)))
  {
    var s := EncodeCommentHeader(packetType, codec, vendor, cs) + rest;
    EncodedCommentHeaderLayout(packetType, codec, vendor, cs, rest);
    ReadEncodedCommentList(s, 11 + |vendor|, cs);
    ReadCommentHeaderOf(s, cs);
  }

  /** Where the fields of a written comment header sit. */
  lemma EncodedCommentHeaderLayout(packetType: byte, codec: Bytes, vendor: Bytes, cs: seq<Bytes>, rest: Bytes)
    requires |codec| == 6 && |vendor| < 0x1_0000_0000
    requires |cs| < 0x1_0000_0000 && Encodable(cs)
    ensures var s := EncodeCommentHeader(packetType, codec, vendor, cs) + rest;
      var at := 11 + |vendor|;
      && at + |EncodeCommentList(cs)| <= |s|
      && s[0] == packetType && s[1..7] == codec && U32(s[7..11]) as int == |vendor|
      && s[11..at] == vendor && s[at..at + |EncodeCommentList(cs)|] == EncodeCommentList(cs)
  {
    var head := [packetType] + codec + Le32(|vendor| as u32);
    var list := EncodeCommentList(cs);
    var s := EncodeCommentHeader(packetType, codec, vendor, cs) + rest;
    var at := 11 + |vendor|;
    var tail := vendor + (list + rest);
    assert s == head + tail;
    assert s[..11] == head && s[11..] == tail;
    assert head[1..7] == codec && head[7..11] == Le32(|vendor| as u32);
    assert s[1..7] == codec && s[7..11] == Le32(|vendor| as u32);
    U32RoundTrip(|vendor| as u32, s[7..11]);
    assert s[11..at] == tail[..|vendor|] == vendor;
    assert s[at..] == tail[|vendor|..] == list + rest;
    assert s[at..at + |list|] == (list + rest)[..|list|] == list;
  }

  /** The comment header read from bytes whose comment list reads as `cs`. */
  lemma ReadCommentHeaderOf(s: Bytes, cs: seq<Bytes>)
    requires |s| >= 11 && 11 + U32(s[7..11]) as int <= |s|
    requires ReadCommentList(s, 11 + U32(s[7..11]) as int).Ok?
    requires ReadCommentList(s, 11 + U32(s[7..11]) as int).value.0 == cs
    ensures ReadCommentHeader(s)
      == Ok(CommentHeader(s[0], s[1..7], U32(s[7..11]), s[11..11 + U32(s[7..11]) as int], Collect(cs)))
  {
  }
}
