/**
 * Small helpers of common.c: the extent gap finder the URL cache uses to
 * merge reads, integer range intersection, byte swapping of 16, 32 and 64
 * bit words, and in-place byte reversal.
 */
module Common {
  import opened Wrappers

  // ---------------------------------------------------------------------
  // fileOffsetSizeFindGap

  /** One element of a fileOffsetSize list: a byte range of a file. */
  datatype Extent = Extent(offset: int, size: int)

  /** Extent i + 1 starts exactly where extent i ends. */
  predicate Adjoins(list: seq<Extent>, i: nat)
    requires i + 1 < |list|
  {
    list[i + 1].offset == list[i].offset + list[i].size
  }

  /**
   * fileOffsetSizeFindGap: walks the list while each element starts where the
   * previous one ends.  beforeGap is the last element of that contiguous
   * prefix and afterGap the element after it, or None at the end of the list.
   * The list must not be empty: the walk starts by reading the first element.
   */
  method FindGap(list: seq<Extent>) returns (beforeGap: nat, afterGap: Option<nat>)
    requires |list| > 0
    ensures beforeGap < |list|
    ensures forall i | 0 <= i < beforeGap :: Adjoins(list, i)
    ensures beforeGap + 1 < |list| ==> !Adjoins(list, beforeGap)
    ensures afterGap == (if beforeGap + 1 < |list| then Some(beforeGap + 1) else None)
  {
    var pt := 0;
    while true
      invariant pt < |list|
      invariant forall i | 0 <= i < pt :: Adjoins(list, i)
      decreases |list| - pt
    {
      var next: Option<nat> := if pt + 1 < |list| then Some(pt + 1) else None;
      if next.None? || list[pt + 1].offset != list[pt].offset + list[pt].size {
        return pt, next;
      }
      pt := pt + 1;
    }
  }

  // ---------------------------------------------------------------------
  // rangeIntersection, positiveRangeIntersection

  /** x lies in the half-open range [lo, hi). */
  predicate InRange(x: int, lo: int, hi: int)
  {
    lo <= x < hi
  }

  /** The integers of a half-open range [lo, hi). */
  ghost function Range(lo: int, hi: int): set<int>
  {
    set x: int | lo <= x < hi && InRange(x, lo, hi)
  }

  /** The integers in both half-open ranges [start1, end1) and [start2, end2). */
  ghost function Overlap(start1: int, end1: int, start2: int, end2: int): set<int>
  {
    Range(start1, end1) * Range(start2, end2)
  }

  /** A half-open integer range [lo, hi) has max(0, hi - lo) elements. */
  lemma {:induction false} RangeCardinality(lo: int, hi: int)
    ensures |Range(lo, hi)| == if hi <= lo then 0 else hi - lo
    decreases hi - lo
  {
    if hi > lo {
      RangeCardinality(lo, hi - 1);
      assert Range(lo, hi) == Range(lo, hi - 1) + {hi - 1};
    } else {
      assert Range(lo, hi) == {};
    }
  }

  /**
   * The distance between two well-formed ranges: how far the later one starts after the
   * earlier one ends, and 0 when they touch or overlap.
   */
  function Gap(start1: int, end1: int, start2: int, end2: int): (d: nat)
    requires start1 <= end1 && start2 <= end2
    ensures d > 0 <==> end1 < start2 || end2 < start1
  {
    if end1 < start2 then start2 - end1 else if end2 < start1 then start1 - end2 else 0
  }

  /**
   * rangeIntersection: min(end1, end2) - max(start1, start2).  When positive
   * it is the number of integers the two ranges share; zero or negative when
   * they share none.
   */
  function RangeIntersection(start1: int, end1: int, start2: int, end2: int): (r: int)
    ensures r > 0 ==> r == |Overlap(start1, end1, start2, end2)|
    ensures r <= 0 ==> Overlap(start1, end1, start2, end2) == {}
    ensures start1 <= end1 && start2 <= end2 && r <= 0 ==> -r == Gap(start1, end1, start2, end2)
  {
    var s := if start1 > start2 then start1 else start2;
    var e := if end1 < end2 then end1 else end2;
    assert Overlap(start1, end1, start2, end2) == Range(s, e);
    RangeCardinality(s, e);
    e - s
  }

  /** positiveRangeIntersection: the number of integers the two ranges share. */
  function PositiveRangeIntersection(start1: int, end1: int, start2: int, end2: int): (r: nat)
    ensures r == |Overlap(start1, end1, start2, end2)|
  {
    var ret := RangeIntersection(start1, end1, start2, end2);
    if ret < 0 then 0 else ret
  }

  // ---------------------------------------------------------------------
  // byteSwap16, byteSwap32, byteSwap64
  //
  // The source reverses the bytes of the word's memory image through a
  // union.  Whatever the host byte order, reversing the memory image reverses
  // the bytes by significance, which is how the words are read here: byte k
  // is bits 8k .. 8k + 7.

  function Bytes16(a: bv16): (b: seq<bv8>)
    ensures |b| == 2
  {
    [(a & 0xFF) as bv8, (a >> 8) as bv8]
  }

  function Word16(b: seq<bv8>): bv16
    requires |b| == 2
  {
    (b[0] as bv16) | ((b[1] as bv16) << 8)
  }

  function Bytes32(a: bv32): (b: seq<bv8>)
    ensures |b| == 4
  {
    [(a & 0xFF) as bv8, ((a >> 8) & 0xFF) as bv8, ((a >> 16) & 0xFF) as bv8, (a >> 24) as bv8]
  }

  function Word32(b: seq<bv8>): bv32
    requires |b| == 4
  {
    (b[0] as bv32) | ((b[1] as bv32) << 8) | ((b[2] as bv32) << 16) | ((b[3] as bv32) << 24)
  }

  function Bytes64(a: bv64): (b: seq<bv8>)
    ensures |b| == 8
  {
    [(a & 0xFF) as bv8, ((a >> 8) & 0xFF) as bv8, ((a >> 16) & 0xFF) as bv8, ((a >> 24) & 0xFF) as bv8,
     ((a >> 32) & 0xFF) as bv8, ((a >> 40) & 0xFF) as bv8, ((a >> 48) & 0xFF) as bv8, (a >> 56) as bv8]
  }

  function Word64(b: seq<bv8>): bv64
    requires |b| == 8
  {
    (b[0] as bv64) | ((b[1] as bv64) << 8) | ((b[2] as bv64) << 16) | ((b[3] as bv64) << 24) |
    ((b[4] as bv64) << 32) | ((b[5] as bv64) << 40) | ((b[6] as bv64) << 48) | ((b[7] as bv64) << 56)
  }

  /** A sequence in reverse order. */
  function Reversed<T>(s: seq<T>): (r: seq<T>)
    ensures |r| == |s|
    ensures forall i | 0 <= i < |s| :: r[i] == s[|s| - 1 - i]
  {
    seq(|s|, i requires 0 <= i < |s| => s[|s| - 1 - i])
  }

  /** Reversing twice gives the sequence back. */
  lemma ReversedTwice<T>(s: seq<T>)
    ensures Reversed(Reversed(s)) == s
  {
  }

  lemma Bytes16RoundTrip(a: bv16, b: seq<bv8>)
    requires |b| == 2
    ensures Word16(Bytes16(a)) == a
    ensures Bytes16(Word16(b)) == b
  {
  }

  lemma Bytes32RoundTrip(a: bv32, b: seq<bv8>)
    requires |b| == 4
    ensures Word32(Bytes32(a)) == a
    ensures Bytes32(Word32(b)) == b
  {
  }

  lemma Bytes64RoundTrip(a: bv64, b: seq<bv8>)
    requires |b| == 8
    ensures Word64(Bytes64(a)) == a
    ensures Bytes64(Word64(b)) == b
  {
  }

  /** byteSwap16: the word whose bytes are a's in reverse order. */
  function ByteSwap16(a: bv16): (r: bv16)
    ensures Bytes16(r) == Reversed(Bytes16(a))
  {
    var u := Bytes16(a);
    Bytes16RoundTrip(a, [u[1], u[0]]);
    Word16([u[1], u[0]])
  }

  /** byteSwap32: the word whose bytes are a's in reverse order. */
  function ByteSwap32(a: bv32): (r: bv32)
    ensures Bytes32(r) == Reversed(Bytes32(a))
  {
    var u := Bytes32(a);
    Bytes32RoundTrip(a, [u[3], u[2], u[1], u[0]]);
    Word32([u[3], u[2], u[1], u[0]])
  }

  /** byteSwap64: the word whose bytes are a's in reverse order. */
  function ByteSwap64(a: bv64): (r: bv64)
    ensures Bytes64(r) == Reversed(Bytes64(a))
  {
    var u := Bytes64(a);
    Bytes64RoundTrip(a, [u[7], u[6], u[5], u[4], u[3], u[2], u[1], u[0]]);
    Word64([u[7], u[6], u[5], u[4], u[3], u[2], u[1], u[0]])
  }

  /** Each byte swap is its own inverse. */
  lemma ByteSwapInvolutive(a16: bv16, a32: bv32, a64: bv64)
    ensures ByteSwap16(ByteSwap16(a16)) == a16
    ensures ByteSwap32(ByteSwap32(a32)) == a32
    ensures ByteSwap64(ByteSwap64(a64)) == a64
  {
    var r16 := ByteSwap16(ByteSwap16(a16));
    ReversedTwice(Bytes16(a16));
    Bytes16RoundTrip(r16, Bytes16(a16));
    Bytes16RoundTrip(a16, Bytes16(a16));
    var r32 := ByteSwap32(ByteSwap32(a32));
    ReversedTwice(Bytes32(a32));
    Bytes32RoundTrip(r32, Bytes32(a32));
    Bytes32RoundTrip(a32, Bytes32(a32));
    var r64 := ByteSwap64(ByteSwap64(a64));
    ReversedTwice(Bytes64(a64));
    Bytes64RoundTrip(r64, Bytes64(a64));
    Bytes64RoundTrip(a64, Bytes64(a64));
  }

  // ---------------------------------------------------------------------
  // reverseBytes

  /**
   * reverseBytes: swaps the two ends of the first length bytes inwards, in place.  A length of
   * 0 or less leaves the buffer as it was, as the source's loop then never runs.
   */
  method ReverseBytes(bytes: array<char>, length: int)
    requires length <= bytes.Length
    modifies bytes
    ensures var n := if length < 0 then 0 else length;
      bytes[..n] == Reversed(old(bytes[..n])) && bytes[n..] == old(bytes[n..])
  {
    ghost var n := if length < 0 then 0 else length;
    var halfLen := length / 2;
    var lo := 0;
    var end := length;
    assert 2 * halfLen <= length;
    while lo < halfLen
      invariant 0 <= lo && (lo == 0 || lo <= halfLen) && end == length - lo
      invariant forall i | 0 <= i < lo :: bytes[i] == old(bytes[length - 1 - i])
      invariant forall i | 0 <= i && end <= i < n :: bytes[i] == old(bytes[length - 1 - i])
      invariant forall i | lo <= i < end :: bytes[i] == old(bytes[i])
      invariant forall i | n <= i < bytes.Length :: bytes[i] == old(bytes[i])
    {
      end := end - 1;
      var c := bytes[lo];
      bytes[lo] := bytes[end];
      bytes[end] := c;
      lo := lo + 1;
    }
  }
}
