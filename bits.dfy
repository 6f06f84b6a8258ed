/**
 * The packed bit array of bits.c, the per-block "already fetched" map of the
 * URL data cache.  Bit i lives in byte i / 8; inside a byte the most
 * significant bit comes first.  The meaning of a bit array is given by
 * `IsSet`, which reads a bit by shifting; the operations use the source's
 * mask tables, and their contracts tie the two together.
 */
module Bits {

  // The source's static mask tables.
  const OneBit: seq<bv8> := [0x80, 0x40, 0x20, 0x10, 0x08, 0x04, 0x02, 0x01]
  const LeftMask: seq<bv8> := [0xFF, 0x7F, 0x3F, 0x1F, 0x0F, 0x07, 0x03, 0x01]
  const RightMask: seq<bv8> := [0x80, 0xC0, 0xE0, 0xF0, 0xF8, 0xFC, 0xFE, 0xFF]

  /** Bit j of byte x, counting from the most significant bit (j = 0). */
  ghost predicate ByteBit(x: bv8, j: nat)
    requires j < 8
  {
    (x >> (7 - j)) & 1 == 1
  }

  /** Bit i of a packed bit array. */
  ghost predicate IsSet(s: seq<bv8>, i: nat)
    requires i < 8 * |s|
  {
    ByteBit(s[i / 8], i % 8)
  }

  /** Number of set bits of x among the positions [a, c). */
  ghost function BitsIn(x: bv8, a: nat, c: nat): nat
    requires a <= c <= 8
    decreases c - a
  {
    if a == c then 0 else (if ByteBit(x, a) then 1 else 0) + BitsIn(x, a + 1, c)
  }

  /** Population count of a byte. */
  ghost function PopCount(x: bv8): nat
  {
    BitsIn(x, 0, 8)
  }

  /** Number of set bits of a packed bit array in the range [lo, hi). */
  ghost function CountSet(s: seq<bv8>, lo: nat, hi: nat): nat
    requires lo <= hi <= 8 * |s|
    decreases hi - lo
  {
    if lo == hi then 0 else (if IsSet(s, lo) then 1 else 0) + CountSet(s, lo + 1, hi)
  }

  // ---------------------------------------------------------------------
  // Facts about single bytes and the mask tables.

  lemma BitAnd(x: bv8, y: bv8, j: nat)
    requires j < 8
    ensures ByteBit(x & y, j) <==> ByteBit(x, j) && ByteBit(y, j)
  {
  }

  lemma BitOr(x: bv8, y: bv8, j: nat)
    requires j < 8
    ensures ByteBit(x | y, j) <==> ByteBit(x, j) || ByteBit(y, j)
  {
  }

  lemma BitNot(x: bv8, j: nat)
    requires j < 8
    ensures ByteBit(!x, j) <==> !ByteBit(x, j)
  {
  }

  lemma BitOfOneBit(k: nat, j: nat)
    requires k < 8 && j < 8
    ensures ByteBit(OneBit[k], j) <==> j == k
  {
  }

  lemma BitOfLeftMask(a: nat, j: nat)
    requires a < 8 && j < 8
    ensures ByteBit(LeftMask[a], j) <==> a <= j
  {
  }

  lemma BitOfRightMask(b: nat, j: nat)
    requires b < 8 && j < 8
    ensures ByteBit(RightMask[b], j) <==> j <= b
  {
  }

  lemma BitOfFullBytes(j: nat)
    requires j < 8
    ensures ByteBit(0xFF, j) && !ByteBit(0, j)
  {
  }

  /** `x & OneBit[k]` is non-zero exactly when bit k of x is set. */
  lemma ReadThroughOneBit(x: bv8, k: nat)
    requires k < 8
    ensures (x & OneBit[k] != 0) <==> ByteBit(x, k)
  {
    assert k == 0 || k == 1 || k == 2 || k == 3 || k == 4 || k == 5 || k == 6 || k == 7;
  }

  /** Bit i of s is bit i % 8 of byte k when i lies in byte k. */
  lemma BitInByte(s: seq<bv8>, k: nat, i: nat)
    requires k < |s| && 8 * k <= i < 8 * k + 8
    ensures IsSet(s, i) <==> ByteBit(s[k], i - 8 * k)
  {
    assert i / 8 == k;
  }

  /** Changing byte k of s leaves every bit outside byte k as it was. */
  lemma UpdateOtherByte(s: seq<bv8>, k: nat, v: bv8, i: nat)
    requires k < |s| && i < 8 * |s| && !(8 * k <= i < 8 * k + 8)
    ensures IsSet(s[k := v], i) <==> IsSet(s, i)
  {
    assert i / 8 != k;
  }

  lemma {:induction false} BitsInSplit(x: bv8, a: nat, m: nat, c: nat)
    requires a <= m <= c <= 8
    ensures BitsIn(x, a, c) == BitsIn(x, a, m) + BitsIn(x, m, c)
    decreases m - a
  {
    if a < m {
      BitsInSplit(x, a + 1, m, c);
    }
  }

  /** Bits of two bytes that agree on [a, c) are counted alike there. */
  lemma {:induction false} BitsInSame(x: bv8, y: bv8, a: nat, c: nat)
    requires a <= c <= 8
    requires forall j | a <= j < c :: ByteBit(x, j) <==> ByteBit(y, j)
    ensures BitsIn(x, a, c) == BitsIn(y, a, c)
    decreases c - a
  {
    if a < c {
      BitsInSame(x, y, a + 1, c);
    }
  }

  lemma {:induction false} BitsInNone(x: bv8, a: nat, c: nat)
    requires a <= c <= 8
    requires forall j | a <= j < c :: !ByteBit(x, j)
    ensures BitsIn(x, a, c) == 0
    decreases c - a
  {
    if a < c {
      BitsInNone(x, a + 1, c);
    }
  }

  /** Masking x to the bit positions [a, c) and counting gives the set bits of x there. */
  lemma PopCountMasked(x: bv8, y: bv8, a: nat, c: nat)
    requires a <= c <= 8
    requires forall j | 0 <= j < 8 :: ByteBit(y, j) <==> (ByteBit(x, j) && a <= j < c)
    ensures PopCount(y) == BitsIn(x, a, c)
  {
    BitsInSplit(y, 0, a, 8);
    BitsInSplit(y, a, c, 8);
    BitsInNone(y, 0, a);
    BitsInNone(y, c, 8);
    BitsInSame(x, y, a, c);
  }

  /** The set bits of s in a range inside byte k are the set bits of that byte. */
  lemma {:induction false} CountSetInByte(s: seq<bv8>, k: nat, a: nat, c: nat)
    requires k < |s| && a <= c <= 8
    ensures CountSet(s, 8 * k + a, 8 * k + c) == BitsIn(s[k], a, c)
    decreases c - a
  {
    if a < c {
      BitInByte(s, k, 8 * k + a);
      CountSetInByte(s, k, a + 1, c);
    }
  }

  lemma {:induction false} CountSetSplit(s: seq<bv8>, lo: nat, mid: nat, hi: nat)
    requires lo <= mid <= hi <= 8 * |s|
    ensures CountSet(s, lo, hi) == CountSet(s, lo, mid) + CountSet(s, mid, hi)
    decreases mid - lo
  {
    if lo < mid {
      CountSetSplit(s, lo + 1, mid, hi);
    }
  }

  /** A range whose every bit is set counts as its own length. */
  lemma {:induction false} CountSetFull(s: seq<bv8>, lo: nat, hi: nat)
    requires lo <= hi <= 8 * |s|
    requires forall i | lo <= i < hi :: IsSet(s, i)
    ensures CountSet(s, lo, hi) == hi - lo
    decreases hi - lo
  {
    if lo < hi {
      CountSetFull(s, lo + 1, hi);
    }
  }

  // ---------------------------------------------------------------------
  // The operations of bits.c.

  /** Bytes needed to hold bitCount bits: ceil(bitCount / 8). */
  function ByteCount(bitCount: nat): (r: nat)
    ensures 8 * r >= bitCount && 8 * r < bitCount + 8
  {
    (bitCount + 7) / 8
  }

  /** The popcount of x is the number of the eight one-bit masks that x meets. */
  lemma PopCountByMasks(x: bv8)
    ensures PopCount(x) ==
      (if x & 0x01 != 0 then 1 else 0) + (if x & 0x02 != 0 then 1 else 0) +
      (if x & 0x04 != 0 then 1 else 0) + (if x & 0x08 != 0 then 1 else 0) +
      (if x & 0x10 != 0 then 1 else 0) + (if x & 0x20 != 0 then 1 else 0) +
      (if x & 0x40 != 0 then 1 else 0) + (if x & 0x80 != 0 then 1 else 0)
  {
    assert BitsIn(x, 8, 8) == 0;
    assert ByteBit(x, 7) <==> x & 0x01 != 0;
    assert ByteBit(x, 6) <==> x & 0x02 != 0;
    assert ByteBit(x, 5) <==> x & 0x04 != 0;
    assert ByteBit(x, 4) <==> x & 0x08 != 0;
    assert ByteBit(x, 3) <==> x & 0x10 != 0;
    assert ByteBit(x, 2) <==> x & 0x20 != 0;
    assert ByteBit(x, 1) <==> x & 0x40 != 0;
    assert ByteBit(x, 0) <==> x & 0x80 != 0;
  }

  /** The eight tests of one entry of bitsInByteInit: the popcount of x. */
  function ByteBitsByMasks(x: bv8): (count: nat)
    ensures count == PopCount(x)
  {
    PopCountByMasks(x);
    (if x & 0x01 != 0 then 1 else 0) + (if x & 0x02 != 0 then 1 else 0) +
    (if x & 0x04 != 0 then 1 else 0) + (if x & 0x08 != 0 then 1 else 0) +
    (if x & 0x10 != 0 then 1 else 0) + (if x & 0x20 != 0 then 1 else 0) +
    (if x & 0x40 != 0 then 1 else 0) + (if x & 0x80 != 0 then 1 else 0)
  }

  /** bitsInByteInit: the popcount table, filled one entry at a time. */
  method BitsInByteInit() returns (table: seq<nat>)
    ensures |table| == 256
    ensures forall i | 0 <= i < 256 :: table[i] == PopCount(i as bv8)
  {
    table := [];
    var i := 0;
    while i < 256
      invariant 0 <= i <= 256 && |table| == i
      invariant forall k | 0 <= k < i :: table[k] == PopCount(k as bv8)
    {
      table := table + [ByteBitsByMasks(i as bv8)];
      i := i + 1;
    }
  }

  /** bitAlloc: room for bitCount bits, every bit clear. */
  method BitAlloc(bitCount: nat) returns (b: array<bv8>)
    ensures fresh(b) && b.Length == ByteCount(bitCount)
    ensures forall i | 0 <= i < 8 * b.Length :: !IsSet(b[..], i)
  {
    b := new bv8[ByteCount(bitCount)](_ => 0);
    forall i | 0 <= i < 8 * b.Length ensures !IsSet(b[..], i) {
      BitOfFullBytes(i % 8);
    }
  }

  /** bitClone: a fresh copy of the ByteCount(bitCount) bytes holding bitCount bits. */
  method BitClone(orig: array<bv8>, bitCount: nat) returns (b: array<bv8>)
    requires ByteCount(bitCount) <= orig.Length
    ensures fresh(b) && b[..] == orig[..ByteCount(bitCount)]
    ensures forall i | 0 <= i < bitCount :: IsSet(b[..], i) == IsSet(orig[..], i)
  {
    var n := ByteCount(bitCount);
    b := new bv8[n](k requires 0 <= k < n reads orig => orig[k]);
    forall i | 0 <= i < bitCount ensures IsSet(b[..], i) == IsSet(orig[..], i) {
      assert b[..][i / 8] == orig[..][i / 8];
    }
  }

  /** bitReadOne: the bit at bitIx, read through the one-bit mask table. */
  function BitReadOne(b: array<bv8>, bitIx: nat): (r: bool)
    reads b
    requires bitIx < 8 * b.Length
    ensures r == IsSet(b[..], bitIx)
  {
    ReadThroughOneBit(b[bitIx / 8], bitIx % 8);
    b[bitIx / 8] & OneBit[bitIx % 8] != 0
  }

  /** One bit of s after OR-ing into byte k a mask whose set positions are [lo, hi). */
  lemma OrMaskBit(s: seq<bv8>, k: nat, m: bv8, lo: nat, hi: nat, i: nat)
    requires k < |s| && lo <= hi <= 8 && i < 8 * |s|
    requires forall j | 0 <= j < 8 :: ByteBit(m, j) <==> lo <= j < hi
    ensures IsSet(s[k := s[k] | m], i) == ((8 * k + lo <= i < 8 * k + hi) || IsSet(s, i))
  {
    var t := s[k := s[k] | m];
    if 8 * k <= i < 8 * k + 8 {
      BitInByte(t, k, i);
      BitInByte(s, k, i);
      BitOr(s[k], m, i - 8 * k);
    } else {
      UpdateOtherByte(s, k, s[k] | m, i);
    }
  }

  /** OR-ing into byte k a mask whose set positions are [lo, hi) sets those bits and no others. */
  lemma OrMaskIntoByte(s: seq<bv8>, k: nat, m: bv8, lo: nat, hi: nat)
    requires k < |s| && lo <= hi <= 8
    requires forall j | 0 <= j < 8 :: ByteBit(m, j) <==> lo <= j < hi
    ensures |s[k := s[k] | m]| == |s|
    ensures forall i | 0 <= i < 8 * |s| ::
      IsSet(s[k := s[k] | m], i) == ((8 * k + lo <= i < 8 * k + hi) || IsSet(s, i))
  {
    forall i | 0 <= i < 8 * |s|
      ensures IsSet(s[k := s[k] | m], i) == ((8 * k + lo <= i < 8 * k + hi) || IsSet(s, i))
    {
      OrMaskBit(s, k, m, lo, hi, i);
    }
  }

  /** The set bits of byte k masked to the positions [lo, hi) are the set bits of s there. */
  lemma PopCountOfMaskedByte(s: seq<bv8>, k: nat, m: bv8, lo: nat, hi: nat)
    requires k < |s| && lo <= hi <= 8
    requires forall j | 0 <= j < 8 :: ByteBit(m, j) <==> lo <= j < hi
    ensures PopCount(s[k] & m) == CountSet(s, 8 * k + lo, 8 * k + hi)
  {
    forall j | 0 <= j < 8
      ensures ByteBit(s[k] & m, j) <==> (ByteBit(s[k], j) && lo <= j < hi)
    {
      BitAnd(s[k], m, j);
    }
    PopCountMasked(s[k], s[k] & m, lo, hi);
    CountSetInByte(s, k, lo, hi);
  }

  lemma OneBitMask(k: nat)
    requires k < 8
    ensures forall j | 0 <= j < 8 :: ByteBit(OneBit[k], j) <==> k <= j < k + 1
  {
    forall j | 0 <= j < 8 ensures ByteBit(OneBit[k], j) <==> k <= j < k + 1 {
      BitOfOneBit(k, j);
    }
  }

  lemma LeftMaskMask(a: nat)
    requires a < 8
    ensures forall j | 0 <= j < 8 :: ByteBit(LeftMask[a], j) <==> a <= j < 8
  {
    forall j | 0 <= j < 8 ensures ByteBit(LeftMask[a], j) <==> a <= j < 8 {
      BitOfLeftMask(a, j);
    }
  }

  lemma RightMaskMask(b: nat)
    requires b < 8
    ensures forall j | 0 <= j < 8 :: ByteBit(RightMask[b], j) <==> 0 <= j < b + 1
  {
    forall j | 0 <= j < 8 ensures ByteBit(RightMask[b], j) <==> 0 <= j < b + 1 {
      BitOfRightMask(b, j);
    }
  }

  lemma BothMasksMask(a: nat, b: nat, m: bv8)
    requires a < 8 && b < 8 && m == LeftMask[a] & RightMask[b]
    ensures forall j | 0 <= j < 8 :: ByteBit(m, j) <==> a <= j < b + 1
  {
    forall j | 0 <= j < 8 ensures ByteBit(m, j) <==> a <= j < b + 1 {
      BitAnd(LeftMask[a], RightMask[b], j);
      BitOfLeftMask(a, j);
      BitOfRightMask(b, j);
    }
  }

  lemma FullMask()
    ensures forall j | 0 <= j < 8 :: ByteBit(0xFF, j) <==> 0 <= j < 8
  {
    forall j | 0 <= j < 8 ensures ByteBit(0xFF, j) {
      BitOfFullBytes(j);
    }
  }

  /** bitSetOne: bit bitIx becomes set; every other bit keeps its value. */
  method BitSetOne(b: array<bv8>, bitIx: nat)
    requires bitIx < 8 * b.Length
    modifies b
    ensures forall i | 0 <= i < 8 * b.Length :: IsSet(b[..], i) == (i == bitIx || IsSet(old(b[..]), i))
  {
    var k := bitIx / 8;
    assert bitIx == 8 * k + bitIx % 8;
    OneBitMask(bitIx % 8);
    OrIntoByte(b, k, OneBit[bitIx % 8], bitIx % 8, bitIx % 8 + 1);
  }

  /** bitClearOne: bit bitIx becomes clear; every other bit keeps its value. */
  method BitClearOne(b: array<bv8>, bitIx: nat)
    requires bitIx < 8 * b.Length
    modifies b
    ensures forall i | 0 <= i < 8 * b.Length :: IsSet(b[..], i) == (i != bitIx && IsSet(old(b[..]), i))
  {
    var k := bitIx / 8;
    ghost var s := b[..];
    var v := b[k] & !OneBit[bitIx % 8];
    b[k] := v;
    assert b[..] == s[k := v];
    forall i | 0 <= i < 8 * b.Length
      ensures IsSet(b[..], i) == (i != bitIx && IsSet(s, i))
    {
      if 8 * k <= i < 8 * k + 8 {
        BitInByte(b[..], k, i);
        BitInByte(s, k, i);
        BitAnd(s[k], !OneBit[bitIx % 8], i - 8 * k);
        BitNot(OneBit[bitIx % 8], i - 8 * k);
        BitOfOneBit(bitIx % 8, i - 8 * k);
      } else {
        UpdateOtherByte(s, k, v, i);
      }
    }
  }

  /** b[k] |= m, where m's set positions are exactly [lo, hi). */
  method OrIntoByte(b: array<bv8>, k: nat, m: bv8, ghost lo: nat, ghost hi: nat)
    requires k < b.Length && lo <= hi <= 8
    requires forall j | 0 <= j < 8 :: ByteBit(m, j) <==> lo <= j < hi
    modifies b
    ensures forall i | 0 <= i < 8 * b.Length ::
      IsSet(b[..], i) == ((8 * k + lo <= i < 8 * k + hi) || IsSet(old(b[..]), i))
  {
    ghost var s := b[..];
    OrMaskIntoByte(s, k, m, lo, hi);
    b[k] := b[k] | m;
    assert b[..] == s[k := s[k] | m];
  }

  /** b[k] = 0xff: all eight bits of byte k become set. */
  method FillByte(b: array<bv8>, k: nat)
    requires k < b.Length
    modifies b
    ensures forall i | 0 <= i < 8 * b.Length ::
      IsSet(b[..], i) == ((8 * k <= i < 8 * k + 8) || IsSet(old(b[..]), i))
  {
    ghost var s := b[..];
    FullMask();
    OrMaskIntoByte(s, k, 0xFF, 0, 8);
    assert s[k] | 0xFF == 0xFF;
    b[k] := 0xFF;
    assert b[..] == s[k := s[k] | 0xFF];
  }

  /**
   * bitSetRange: every bit of [startIx, startIx + bitCount) becomes set and
   * every other bit keeps its value; a count of zero or less changes nothing.
   */
  method BitSetRange(b: array<bv8>, startIx: nat, bitCount: int)
    requires bitCount > 0 ==> startIx + bitCount <= 8 * b.Length
    modifies b
    ensures bitCount <= 0 ==> b[..] == old(b[..])
    ensures forall i | 0 <= i < 8 * b.Length ::
      IsSet(b[..], i) == ((startIx <= i < startIx + bitCount) || IsSet(old(b[..]), i))
  {
    if bitCount <= 0 {
      return;
    }
    var endIx := startIx + bitCount - 1;
    var startByte := startIx / 8;
    var endByte := endIx / 8;
    var startBits := startIx % 8;
    var endBits := endIx % 8;
    assert startIx == 8 * startByte + startBits && endIx == 8 * endByte + endBits;
    if startByte == endByte {
      var m := LeftMask[startBits] & RightMask[endBits];
      BothMasksMask(startBits, endBits, m);
      OrIntoByte(b, startByte, m, startBits, endBits + 1);
      return;
    }
    ghost var s := b[..];
    LeftMaskMask(startBits);
    OrIntoByte(b, startByte, LeftMask[startBits], startBits, 8);
    var i := startByte + 1;
    while i < endByte
      invariant startByte + 1 <= i <= endByte
      invariant forall j | 0 <= j < 8 * b.Length ::
        IsSet(b[..], j) == ((startIx <= j < 8 * i) || IsSet(s, j))
    {
      FillByte(b, i);
      i := i + 1;
    }
    RightMaskMask(endBits);
    OrIntoByte(b, endByte, RightMask[endBits], 0, endBits + 1);
  }

  /** bitsInByte[b[k] & m]: the set bits of byte k at the positions [lo, hi) that m selects. */
  method CountInByte(b: array<bv8>, bitsInByte: seq<nat>, k: nat, m: bv8, ghost lo: nat, ghost hi: nat)
    returns (c: nat)
    requires |bitsInByte| == 256
    requires forall i | 0 <= i < 256 :: bitsInByte[i] == PopCount(i as bv8)
    requires k < b.Length && lo <= hi <= 8
    requires forall j | 0 <= j < 8 :: ByteBit(m, j) <==> lo <= j < hi
    ensures c == CountSet(b[..], 8 * k + lo, 8 * k + hi)
  {
    var x := b[k] & m;
    assert (x as int) as bv8 == x;
    PopCountOfMaskedByte(b[..], k, m, lo, hi);
    c := bitsInByte[x as int];
  }

  /** The middle bytes of bitCountRange: the set bits of bytes [from, to), looked up whole. */
  method CountWholeBytes(b: array<bv8>, bitsInByte: seq<nat>, from: nat, to: nat) returns (count: nat)
    requires |bitsInByte| == 256
    requires forall i | 0 <= i < 256 :: bitsInByte[i] == PopCount(i as bv8)
    requires from <= to <= b.Length
    ensures count == CountSet(b[..], 8 * from, 8 * to)
  {
    count := 0;
    var i := from;
    while i < to
      invariant from <= i <= to
      invariant count == CountSet(b[..], 8 * from, 8 * i)
    {
      FullMask();
      var c := CountInByte(b, bitsInByte, i, 0xFF, 0, 8);
      CountSetSplit(b[..], 8 * from, 8 * i, 8 * i + 8);
      count := count + c;
      i := i + 1;
    }
  }

  /** The first byte of a multi-byte bitCountRange: bits [a, 8) of byte k. */
  method CountLeftPart(b: array<bv8>, bitsInByte: seq<nat>, k: nat, a: nat) returns (c: nat)
    requires |bitsInByte| == 256
    requires forall i | 0 <= i < 256 :: bitsInByte[i] == PopCount(i as bv8)
    requires k < b.Length && a < 8
    ensures c == CountSet(b[..], 8 * k + a, 8 * k + 8)
  {
    LeftMaskMask(a);
    c := CountInByte(b, bitsInByte, k, LeftMask[a], a, 8);
  }

  /** The last byte of a multi-byte bitCountRange: bits [0, e] of byte k. */
  method CountRightPart(b: array<bv8>, bitsInByte: seq<nat>, k: nat, e: nat) returns (c: nat)
    requires |bitsInByte| == 256
    requires forall i | 0 <= i < 256 :: bitsInByte[i] == PopCount(i as bv8)
    requires k < b.Length && e < 8
    ensures c == CountSet(b[..], 8 * k, 8 * k + e + 1)
  {
    RightMaskMask(e);
    c := CountInByte(b, bitsInByte, k, RightMask[e], 0, e + 1);
  }

  /** A bitCountRange inside one byte: bits [a, e] of byte k, through both masks. */
  method CountWithinByte(b: array<bv8>, bitsInByte: seq<nat>, k: nat, a: nat, e: nat) returns (c: nat)
    requires |bitsInByte| == 256
    requires forall i | 0 <= i < 256 :: bitsInByte[i] == PopCount(i as bv8)
    requires k < b.Length && a <= e < 8
    ensures c == CountSet(b[..], 8 * k + a, 8 * k + e + 1)
  {
    var m := LeftMask[a] & RightMask[e];
    BothMasksMask(a, e, m);
    c := CountInByte(b, bitsInByte, k, m, a, e + 1);
  }

  /** bitCountRange for a range that spans several bytes: first, middle and last byte. */
  method CountAcrossBytes(b: array<bv8>, bitsInByte: seq<nat>, startByte: nat, startBits: nat, endByte: nat, endBits: nat)
    returns (count: nat)
    requires |bitsInByte| == 256
    requires forall i | 0 <= i < 256 :: bitsInByte[i] == PopCount(i as bv8)
    requires startByte < endByte < b.Length && startBits < 8 && endBits < 8
    ensures count == CountSet(b[..], 8 * startByte + startBits, 8 * endByte + endBits + 1)
  {
    var first := CountLeftPart(b, bitsInByte, startByte, startBits);
    var middle := CountWholeBytes(b, bitsInByte, startByte + 1, endByte);
    var last := CountRightPart(b, bitsInByte, endByte, endBits);
    ghost var lo, mid, hi := 8 * startByte + startBits, 8 * endByte, 8 * endByte + endBits + 1;
    CountSetSplit(b[..], lo, 8 * startByte + 8, mid);
    CountSetSplit(b[..], lo, mid, hi);
    count := first + middle + last;
  }

  /** Bit index x lies in byte x / 8 at position x % 8. */
  lemma ByteAndBit(x: nat, n: nat)
    requires x < 8 * n
    ensures x / 8 < n && x % 8 < 8 && x == 8 * (x / 8) + x % 8
  {
  }

  /**
   * bitCountRange: the number of set bits in [startIx, startIx + bitCount),
   * counted byte by byte through the popcount table; 0 for a count of zero
   * or less.
   */
  method BitCountRange(b: array<bv8>, startIx: nat, bitCount: int) returns (count: nat)
    requires bitCount > 0 ==> startIx + bitCount <= 8 * b.Length
    ensures bitCount <= 0 ==> count == 0
    ensures bitCount > 0 ==> count == CountSet(b[..], startIx, startIx + bitCount)
  {
    if bitCount <= 0 {
      return 0;
    }
    var endIx := startIx + bitCount - 1;
    var startByte := startIx / 8;
    var endByte := endIx / 8;
    var startBits := startIx % 8;
    var endBits := endIx % 8;
    ByteAndBit(startIx, b.Length);
    ByteAndBit(endIx, b.Length);
    ghost var lo, hi := 8 * startByte + startBits, 8 * endByte + endBits + 1;
    assert lo == startIx && hi == startIx + bitCount;
    var bitsInByte := BitsInByteInit();
    if startByte == endByte {
      count := CountWithinByte(b, bitsInByte, startByte, startBits, endBits);
      assert count == CountSet(b[..], lo, hi);
    } else {
      count := CountAcrossBytes(b, bitsInByte, startByte, startBits, endByte, endBits);
      assert count == CountSet(b[..], lo, hi);
    }
  }

  /**
   * bitFind: the least index i with startIx <= i < bitCount whose bit equals
   * val, or bitCount when there is none.  Whole bytes that hold only the
   * unwanted value are skipped without looking at their bits.
   */
  method BitFind(b: array<bv8>, startIx: nat, val: bool, bitCount: nat) returns (r: nat)
    requires bitCount <= 8 * b.Length
    ensures r <= bitCount
    ensures r < bitCount ==> startIx <= r && IsSet(b[..], r) == val
    ensures forall i | startIx <= i < r :: IsSet(b[..], i) != val
  {
    var notByteVal: bv8 := if val then 0 else 0xFF;
    var iBit := startIx;
    var endByte := (bitCount - 1) / 8;
    // Scan the initial byte bit by bit.
    while iBit % 8 != 0 && iBit < bitCount
      invariant startIx <= iBit <= bitCount || iBit == startIx
      invariant forall i | startIx <= i < iBit :: IsSet(b[..], i) != val
      decreases bitCount - iBit
    {
      if BitReadOne(b, iBit) == val {
        return iBit;
      }
      iBit := iBit + 1;
    }
    // Skip whole bytes, if not already in the last byte.
    var iByte := iBit / 8;
    if iByte < endByte {
      while iByte < endByte && b[iByte] == notByteVal
        invariant iBit / 8 <= iByte <= endByte
        invariant forall i | startIx <= i < 8 * iByte :: IsSet(b[..], i) != val
      {
        forall i | 8 * iByte <= i < 8 * iByte + 8
          ensures IsSet(b[..], i) != val
        {
          BitInByte(b[..], iByte, i);
          BitOfFullBytes(i - 8 * iByte);
        }
        iByte := iByte + 1;
      }
      iBit := iByte * 8;
    }
    // Scan the rest bit by bit.
    while iBit < bitCount
      invariant iBit <= bitCount || iBit <= startIx
      invariant forall i | startIx <= i < iBit :: IsSet(b[..], i) != val
    {
      if BitReadOne(b, iBit) == val {
        return iBit;
      }
      iBit := iBit + 1;
    }
    return bitCount;
  }

  /** bitFindSet: bitFind looking for a set bit. */
  method BitFindSet(b: array<bv8>, startIx: nat, bitCount: nat) returns (r: nat)
    requires bitCount <= 8 * b.Length
    ensures r <= bitCount
    ensures r < bitCount ==> startIx <= r && IsSet(b[..], r)
    ensures forall i | startIx <= i < r :: !IsSet(b[..], i)
  {
    r := BitFind(b, startIx, true, bitCount);
  }

  /** bitFindClear: bitFind looking for a clear bit. */
  method BitFindClear(b: array<bv8>, startIx: nat, bitCount: nat) returns (r: nat)
    requires bitCount <= 8 * b.Length
    ensures r <= bitCount
    ensures r < bitCount ==> startIx <= r && !IsSet(b[..], r)
    ensures forall i | startIx <= i < r :: IsSet(b[..], i)
  {
    r := BitFind(b, startIx, false, bitCount);
  }

  /**
   * bitFindClear followed by bitFindSet, as the cache uses them: the first
   * maximal run [lo, hi) of clear bits at or after startIx.  Every bit before
   * lo is set, every bit of the run is clear, and the run ends at a set bit
   * or at bitCount.
   */
  method FindClearRun(b: array<bv8>, startIx: nat, bitCount: nat) returns (lo: nat, hi: nat)
    requires startIx <= bitCount <= 8 * b.Length
    ensures startIx <= lo <= hi <= bitCount
    ensures forall i | startIx <= i < lo :: IsSet(b[..], i)
    ensures forall i | lo <= i < hi :: !IsSet(b[..], i)
    ensures lo < bitCount ==> lo < hi
    ensures hi < bitCount ==> IsSet(b[..], hi)
  {
    lo := BitFindClear(b, startIx, bitCount);
    hi := BitFindSet(b, lo, bitCount);
  }

  /** After bitSetRange(b, s, c) with c > 0, bitCountRange(b, s, c) returns c. */
  method SetRangeThenCount(b: array<bv8>, startIx: nat, bitCount: nat) returns (count: nat)
    requires 0 < bitCount && startIx + bitCount <= 8 * b.Length
    modifies b
    ensures count == bitCount
  {
    BitSetRange(b, startIx, bitCount);
    CountSetFull(b[..], startIx, startIx + bitCount);
    count := BitCountRange(b, startIx, bitCount);
  }
}
