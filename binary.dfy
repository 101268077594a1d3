/** Byte strings, little-endian integers and the result types shared by the
    Ogg and Vorbis readers. */
module Binary {

  /** A byte as the readers see it: an integer from 0 to 255. */
  newtype byte = x: int | 0 <= x < 256

  type Bytes = seq<byte>

  /** Unsigned integers of 32 and 64 bits, as BinData's `uint32` and
      `uint64` deliver them. */
  newtype u32 = x: int | 0 <= x < 0x1_0000_0000
  newtype u64 = x: int | 0 <= x < 0x1_0000_0000_0000_0000

  datatype Option<+T> = None | Some(value: T) {
    function GetOr(default: T): T {
      match this
      case Some(v) => v
      case None => default
    }
  }

  /** The exceptions the readers raise, as values: `EOFError` when the input
      runs out, `MalformedFileError` when no page can be found at all, and the
      `RuntimeError` of `read_last_page` on a stream that is not a file. */
  datatype Error = EndOfFile | MalformedFile | NotAFileStream

  datatype Result<+T> = Ok(value: T) | Err(error: Error)

  /** The sum of a table of byte values, folded from the left like
      `inject(0) { |t, e| t + e }`. */
  function Sum(t: Bytes): nat
    decreases |t|
  {
    if t == [] then 0 else Sum(t[..|t| - 1]) + t[|t| - 1] as int
  }

  /** A table announces at most 255 bytes per entry. */
  lemma {:induction false} SumBound(t: Bytes)
    ensures Sum(t) <= 255 * |t|
    decreases |t|
  {
    if t != [] {
      SumBound(t[..|t| - 1]);
    }
  }

  lemma {:induction false} SumPrefix(t: Bytes, i: nat)
    requires i < |t|
    ensures Sum(t[..i + 1]) == Sum(t[..i]) + t[i] as int
    ensures Sum(t[..i]) + t[i] as int <= Sum(t)
    decreases |t|
  {
    assert t[..i + 1][..i] == t[..i];
    if i + 1 < |t| {
      SumPrefix(t[..|t| - 1], i);
      assert t[..|t| - 1][..i] == t[..i];
      assert t[..|t| - 1][..i + 1] == t[..i + 1];
    } else {
      assert t[..i + 1] == t;
    }
  }

  // Little-endian integers, as BinData's `uint32` and `uint64` under
  // `endian :little` read and write them: the first byte is the least
  // significant.

  function U32(b: Bytes): (x: u32)
    requires |b| == 4
  {
    (b[0] as int + 0x100 * (b[1] as int + 0x100 * (b[2] as int + 0x100 * b[3] as int))) as u32
  }

  function Le32(x: u32): (r: Bytes)
    ensures |r| == 4
  {
    var q0 := x as int / 0x100;
    var q1 := q0 / 0x100;
    [(x as int % 0x100) as byte, (q0 % 0x100) as byte, (q1 % 0x100) as byte, (q1 / 0x100) as byte]
  }

  function U64(b: Bytes): (x: u64)
    requires |b| == 8
  {
    (U32(b[..4]) as int + 0x1_0000_0000 * U32(b[4..]) as int) as u64
  }

  function Le64(x: u64): (r: Bytes)
    ensures |r| == 8
  {
    Le32((x as int % 0x1_0000_0000) as u32) + Le32((x as int / 0x1_0000_0000) as u32)
  }

  lemma U32RoundTrip(x: u32, b: Bytes)
    requires |b| == 4
    ensures U32(Le32(x)) == x
    ensures Le32(U32(b)) == b
  {
    var v := b[1] as int + 0x100 * (b[2] as int + 0x100 * b[3] as int);
    assert U32(b) as int / 0x100 == v;
    assert v / 0x100 == b[2] as int + 0x100 * b[3] as int;
  }

  lemma U64RoundTrip(x: u64, b: Bytes)
    requires |b| == 8
    ensures U64(Le64(x)) == x
    ensures Le64(U64(b)) == b
  {
    U64OfLe64(x);
    Le64OfU64(b);
  }

  lemma U64OfLe64(x: u64)
    ensures U64(Le64(x)) == x
  {
    var lo := (x as int % 0x1_0000_0000) as u32;
    var hi := (x as int / 0x1_0000_0000) as u32;
    var e := Le64(x);
    assert e[..4] == Le32(lo) && e[4..] == Le32(hi);
    U32RoundTrip(lo, e[..4]);
    U32RoundTrip(hi, e[4..]);
    assert U64(e) as int == lo as int + 0x1_0000_0000 * hi as int;
  }

  lemma Le64OfU64(b: Bytes)
    requires |b| == 8
    ensures Le64(U64(b)) == b
  {
    var l := U32(b[..4]);
    var h := U32(b[4..]);
    U32RoundTrip(0, b[..4]);
    U32RoundTrip(0, b[4..]);
    var y := U64(b) as int;
    assert y == l as int + 0x1_0000_0000 * h as int;
    assert (y % 0x1_0000_0000) as u32 == l;
    assert (y / 0x1_0000_0000) as u32 == h;
    assert b == b[..4] + b[4..];
  }

  /** A slice holding two strings one after the other holds each of them
      at its place. */
  lemma SliceSplit(s: Bytes, at: nat, x: Bytes, y: Bytes)
    requires at + |x| + |y| <= |s| && s[at..at + |x| + |y|] == x + y
    ensures s[at..at + |x|] == x
    ensures s[at + |x|..at + |x| + |y|] == y
  {
    assert s[at..at + |x|] == s[at..at + |x| + |y|][..|x|];
    assert s[at + |x|..at + |x| + |y|] == s[at..at + |x| + |y|][|x|..];
  }

  /** Adjacent slices join into one. */
  lemma SliceJoin(s: Bytes, a: nat, b: nat, c: nat)
    requires a <= b <= c <= |s|
    ensures s[a..c] == s[a..b] + s[b..c]
  {
  }

  /** The concatenation of a list of byte strings. */
  function Flatten(ps: seq<Bytes>): Bytes
    decreases |ps|
  {
    if ps == [] then [] else ps[0] + Flatten(ps[1..])
  }

  lemma {:induction false} FlattenAppend(a: seq<Bytes>, b: seq<Bytes>)
    ensures Flatten(a + b) == Flatten(a) + Flatten(b)
    decreases |a|
  {
    if a == [] {
      assert a + b == b;
    } else {
      assert (a + b)[1..] == a[1..] + b;
      FlattenAppend(a[1..], b);
    }
  }

  /** The elements of `s` in the opposite order. */
  function Reverse<T>(s: seq<T>): (r: seq<T>)
    ensures |r| == |s|
    ensures forall i :: 0 <= i < |r| ==> r[i] == s[|s| - 1 - i]
    decreases |s|
  {
    if s == [] then [] else Reverse(s[1..]) + [s[0]]
  }

  /** Reversal turns the last element into the first: taking from the end of
      a list that grows at the front is taking the oldest element. */
  lemma {:induction false} ReverseLast<T>(s: seq<T>)
    requires s != []
    ensures Reverse(s)[0] == s[|s| - 1]
    ensures Reverse(s)[1..] == Reverse(s[..|s| - 1])
    decreases |s|
  {
    if |s| > 1 {
      ReverseLast(s[1..]);
      assert s[1..][..|s| - 2] == s[..|s| - 1][1..];
    } else {
      assert s[..|s| - 1] == [];
    }
  }
}
