/**
 * The in-memory core of the .2bit codec: four bases packed per byte, runs of
 * N and of lower-case (masked) bases kept as (start, size) blocks, the binary
 * search that finds the first block touching a window, and the decoding of a
 * window of bases with the N and mask blocks laid over it.  Reading from and
 * writing to files is replaced by the `TwoBit` record the file holds.
 */
module TwoBit {
  import opened Wrappers
  import opened CLib
  import opened DnaUtil

  /** The positions [start, start + size) of a sequence: an N block or a mask block. */
  datatype Block = Block(start: nat, size: nat)

  function End(b: Block): nat
  {
    b.start + b.size
  }

  predicate InBlock(b: Block, p: int)
  {
    b.start <= p < End(b)
  }

  /** Position p lies in one of the blocks. */
  predicate InBlocks(blocks: seq<Block>, p: int)
  {
    exists j | 0 <= j < |blocks| :: InBlock(blocks[j], p)
  }

  /** Blocks in increasing order, none overlapping a later one. */
  predicate Ordered(blocks: seq<Block>)
  {
    forall j, k | 0 <= j < k < |blocks| :: End(blocks[j]) <= blocks[k].start
  }

  /** Every block is non-empty, ends within n, and leaves a gap before the next one. */
  predicate Separated(blocks: seq<Block>, n: nat)
  {
    (forall j | 0 <= j < |blocks| :: blocks[j].size > 0 && End(blocks[j]) <= n) &&
    (forall j | 0 <= j < |blocks| - 1 :: End(blocks[j]) < blocks[j + 1].start)
  }

  /** packedSize: the bytes needed for n bases at four per byte, rounding up. */
  function PackedSize(unpackedSize: nat): (r: nat)
    ensures unpackedSize <= 4 * r < unpackedSize + 4
  {
    (unpackedSize + 3) / 4
  }

  // ---------------------------------------------------------------------
  // countBlocksOfN/Lower, storeBlocksOfN/Lower

  /**
   * The maximal runs of positions of s whose characters satisfy inBlock, left
   * to right, built one character at a time as the block scanners see them.
   */
  function Runs(s: seq<char>, inBlock: char -> bool): (r: seq<Block>)
    ensures |s| > 0 && inBlock(s[|s| - 1]) ==> |r| > 0 && End(r[|r| - 1]) == |s|
    decreases |s|
  {
    if |s| == 0 then []
    else
      var i := |s| - 1;
      var prev := Runs(s[..i], inBlock);
      if !inBlock(s[i]) then prev
      else if i > 0 && inBlock(s[i - 1]) then
        assert s[..i][i - 1] == s[i - 1];
        var last := prev[|prev| - 1];
        prev[..|prev| - 1] + [Block(last.start, last.size + 1)]
      else prev + [Block(i, 1)]
  }

  /** Separated blocks are ordered. */
  lemma SeparatedOrdered(blocks: seq<Block>, n: nat)
    requires Separated(blocks, n)
    ensures Ordered(blocks)
  {
    forall j, k | 0 <= j < k < |blocks| ensures End(blocks[j]) <= blocks[k].start {
      var m := j;
      while m < k
        invariant j <= m <= k && End(blocks[j]) <= blocks[m].start + (if m == j then blocks[j].size else 0)
      {
        m := m + 1;
      }
    }
  }

  /** The positions the blocks cover are exactly those of s that satisfy inBlock. */
  predicate Covers(blocks: seq<Block>, s: seq<char>, inBlock: char -> bool)
  {
    forall p | 0 <= p < |s| :: InBlocks(blocks, p) <==> inBlock(s[p])
  }

  /** Blocks describing exactly the positions of s that satisfy inBlock, as maximal runs. */
  predicate RunsOf(blocks: seq<Block>, s: seq<char>, inBlock: char -> bool)
  {
    Separated(blocks, |s|) && Covers(blocks, s, inBlock)
  }

  /**
   * The runs are non-empty, increasing, separated by at least one other
   * character, and cover exactly the positions that satisfy inBlock; so they
   * are the maximal runs.
   */
  lemma {:induction false} RunsExact(s: seq<char>, inBlock: char -> bool)
    ensures RunsOf(Runs(s, inBlock), s, inBlock) && Ordered(Runs(s, inBlock))
    decreases |s|
  {
    if |s| > 0 {
      var i := |s| - 1;
      RunsExact(s[..i], inBlock);
      if !inBlock(s[i]) {
        RunsSkip(s, inBlock);
      } else if i > 0 && inBlock(s[i - 1]) {
        RunsExtend(s, inBlock);
      } else {
        RunsOpen(s, inBlock);
      }
    }
    SeparatedOrdered(Runs(s, inBlock), |s|);
  }

  lemma RunsSkip(s: seq<char>, inBlock: char -> bool)
    requires |s| > 0 && !inBlock(s[|s| - 1])
    requires RunsOf(Runs(s[..|s| - 1], inBlock), s[..|s| - 1], inBlock)
    ensures RunsOf(Runs(s, inBlock), s, inBlock)
  {
    var prev := Runs(s[..|s| - 1], inBlock);
    assert Runs(s, inBlock) == prev;
    SkipCovers(s, inBlock, prev);
  }

  lemma SkipCovers(s: seq<char>, inBlock: char -> bool, prev: seq<Block>)
    requires |s| > 0 && !inBlock(s[|s| - 1])
    requires RunsOf(prev, s[..|s| - 1], inBlock)
    ensures RunsOf(prev, s, inBlock)
  {
    var i := |s| - 1;
    forall p | 0 <= p < |s| ensures InBlocks(prev, p) <==> inBlock(s[p]) {
      if p < i {
        assert s[..i][p] == s[p];
      } else {
        forall j | 0 <= j < |prev| ensures !InBlock(prev[j], p) {
          assert End(prev[j]) <= i;
        }
      }
    }
  }

  lemma RunsExtend(s: seq<char>, inBlock: char -> bool)
    requires |s| > 1 && inBlock(s[|s| - 1]) && inBlock(s[|s| - 2])
    requires RunsOf(Runs(s[..|s| - 1], inBlock), s[..|s| - 1], inBlock)
    ensures RunsOf(Runs(s, inBlock), s, inBlock)
  {
    var i := |s| - 1;
    var prev := Runs(s[..i], inBlock);
    assert s[..i][i - 1] == s[i - 1];
    var m := |prev| - 1;
    var r := Runs(s, inBlock);
    assert r == prev[..m] + [Block(prev[m].start, prev[m].size + 1)];
    ExtendCovers(s, inBlock, prev, r);
  }

  lemma ExtendCovers(s: seq<char>, inBlock: char -> bool, prev: seq<Block>, r: seq<Block>)
    requires |s| > 0 && inBlock(s[|s| - 1]) && |prev| > 0 && End(prev[|prev| - 1]) == |s| - 1
    requires RunsOf(prev, s[..|s| - 1], inBlock)
    requires r == prev[..|prev| - 1] + [Block(prev[|prev| - 1].start, prev[|prev| - 1].size + 1)]
    ensures RunsOf(r, s, inBlock)
  {
    var i := |s| - 1;
    var m := |prev| - 1;
    assert |r| == |prev| && r[m] == Block(prev[m].start, prev[m].size + 1);
    assert forall j | 0 <= j < m :: r[j] == prev[j];
    forall p | 0 <= p < |s| ensures InBlocks(r, p) <==> inBlock(s[p]) {
      if p < i {
        assert s[..i][p] == s[p];
        if InBlocks(prev, p) {
          var j :| 0 <= j < |prev| && InBlock(prev[j], p);
          assert InBlock(r[j], p);
        }
        if InBlocks(r, p) {
          var j :| 0 <= j < |r| && InBlock(r[j], p);
          assert InBlock(prev[j], p);
        }
      } else {
        assert InBlock(r[m], p);
      }
    }
  }

  lemma RunsOpen(s: seq<char>, inBlock: char -> bool)
    requires |s| > 0 && inBlock(s[|s| - 1]) && (|s| == 1 || !inBlock(s[|s| - 2]))
    requires RunsOf(Runs(s[..|s| - 1], inBlock), s[..|s| - 1], inBlock)
    ensures RunsOf(Runs(s, inBlock), s, inBlock)
  {
    var i := |s| - 1;
    var prev := Runs(s[..i], inBlock);
    var r := Runs(s, inBlock);
    assert r == prev + [Block(i, 1)];
    if |prev| > 0 {
      var m := |prev| - 1;
      assert s[..i][i - 1] == s[i - 1];
      assert !InBlock(prev[m], i - 1);
    }
    OpenCovers(s, inBlock, prev, r);
  }

  lemma OpenCovers(s: seq<char>, inBlock: char -> bool, prev: seq<Block>, r: seq<Block>)
    requires |s| > 0 && inBlock(s[|s| - 1])
    requires RunsOf(prev, s[..|s| - 1], inBlock)
    requires |prev| > 0 ==> End(prev[|prev| - 1]) < |s| - 1
    requires r == prev + [Block(|s| - 1, 1)]
    ensures RunsOf(r, s, inBlock)
  {
    var i := |s| - 1;
    forall p | 0 <= p < |s| ensures InBlocks(r, p) <==> inBlock(s[p]) {
      if p < i {
        assert s[..i][p] == s[p];
        if InBlocks(prev, p) {
          var j :| 0 <= j < |prev| && InBlock(prev[j], p);
          assert InBlock(r[j], p);
        }
        if InBlocks(r, p) {
          var j :| 0 <= j < |r| && InBlock(r[j], p);
          assert j < |prev|;
          assert InBlock(prev[j], p);
        }
      } else {
        assert InBlock(r[|prev|], p);
      }
    }
  }

  /** A character outside a run after another one changes nothing. */
  lemma RunsStaysClosed(s: seq<char>, i: nat, inBlock: char -> bool, closed: seq<Block>)
    requires i < |s| && !inBlock(s[i]) && !(i > 0 && inBlock(s[i - 1]))
    requires Runs(s[..i], inBlock) == closed
    ensures Runs(s[..i + 1], inBlock) == closed
  {
    RunsPrefix(s, i);
  }

  /** A character outside a run right after one closes it. */
  lemma RunsCloses(s: seq<char>, i: nat, inBlock: char -> bool, closed: seq<Block>, startN: nat)
    requires i < |s| && !inBlock(s[i]) && i > 0 && inBlock(s[i - 1]) && startN <= i
    requires Runs(s[..i], inBlock) == closed + [Block(startN, i - startN)]
    ensures Runs(s[..i + 1], inBlock) == closed + [Block(startN, i - startN)]
  {
    RunsPrefix(s, i);
  }

  /** The first character of a run opens it. */
  lemma RunsOpens(s: seq<char>, i: nat, inBlock: char -> bool, closed: seq<Block>)
    requires i < |s| && inBlock(s[i]) && !(i > 0 && inBlock(s[i - 1]))
    requires Runs(s[..i], inBlock) == closed
    ensures Runs(s[..i + 1], inBlock) == closed + [Block(i, 1)]
  {
    RunsPrefix(s, i);
  }

  /** Any later character of a run extends it. */
  lemma RunsExtends(s: seq<char>, i: nat, inBlock: char -> bool, closed: seq<Block>, startN: nat)
    requires i < |s| && inBlock(s[i]) && i > 0 && inBlock(s[i - 1]) && startN <= i
    requires Runs(s[..i], inBlock) == closed + [Block(startN, i - startN)]
    ensures Runs(s[..i + 1], inBlock) == closed + [Block(startN, i + 1 - startN)]
  {
    RunsPrefix(s, i);
    var prev := closed + [Block(startN, i - startN)];
    assert prev[..|prev| - 1] == closed;
  }

  lemma RunsPrefix(s: seq<char>, i: nat)
    requires i < |s|
    ensures s[..i + 1][..i] == s[..i] && s[..i + 1][i] == s[i]
    ensures i > 0 ==> s[..i + 1][i - 1] == s[i - 1]
  {
  }

  /** One more character adds a run exactly at the first character of a run. */
  lemma RunsStep(s: seq<char>, i: nat, inBlock: char -> bool)
    requires i < |s|
    ensures |Runs(s[..i + 1], inBlock)| ==
      |Runs(s[..i], inBlock)| + (if inBlock(s[i]) && !(i > 0 && inBlock(s[i - 1])) then 1 else 0)
  {
    assert s[..i + 1][..i] == s[..i];
    assert s[..i + 1][i] == s[i];
    if i > 0 {
      assert s[..i + 1][i - 1] == s[i - 1];
    }
  }

  /** A longer prefix never has fewer runs. */
  lemma {:induction false} RunsCountGrows(s: seq<char>, i: nat, inBlock: char -> bool)
    requires i <= |s|
    ensures |Runs(s[..i], inBlock)| <= |Runs(s, inBlock)|
    decreases |s| - i
  {
    if i < |s| {
      RunsStep(s, i, inBlock);
      RunsCountGrows(s, i + 1, inBlock);
    } else {
      assert s[..i] == s;
    }
  }

  /** countBlocksOfN and countBlocksOfLower: the number of maximal runs, counted at each run's first character. */
  method CountBlocks(s: seq<char>, inBlock: char -> bool) returns (blockCount: nat)
    ensures blockCount == |Runs(s, inBlock)|
  {
    var lastIs := false;
    blockCount := 0;
    for i := 0 to |s|
      invariant lastIs == (i > 0 && inBlock(s[i - 1]))
      invariant blockCount == |Runs(s[..i], inBlock)|
    {
      var isIn := inBlock(s[i]);
      RunsStep(s, i, inBlock);
      if isIn && !lastIs {
        blockCount := blockCount + 1;
      }
      lastIs := isIn;
    }
    assert s[..|s|] == s;
  }

  /**
   * The state of storeBlocksOfN/storeBlocksOfLower after the first i characters:
   * closed holds the runs already written out, and lastIs says whether the run
   * starting at startN is still open.
   */
  ghost predicate ScanState(s: seq<char>, inBlock: char -> bool, i: nat, lastIs: bool, startN: nat, closed: seq<Block>)
    requires i <= |s|
  {
    && lastIs == (i > 0 && inBlock(s[i - 1])) && startN <= i
    && (lastIs ==> Runs(s[..i], inBlock) == closed + [Block(startN, i - startN)])
    && (!lastIs ==> Runs(s[..i], inBlock) == closed)
    && |Runs(s[..i], inBlock)| <= |Runs(s, inBlock)|
  }

  /** One pass of the store loop: a run that ends at character i is written at index k. */
  method StoreStep(s: seq<char>, inBlock: char -> bool, starts: array<nat>, sizes: array<nat>,
                   i: nat, lastIs: bool, startN: nat, k: nat, ghost closed: seq<Block>)
    returns (startN': nat, k': nat, ghost closed': seq<Block>)
    requires starts != sizes && starts.Length == |Runs(s, inBlock)| == sizes.Length
    requires i < |s| && ScanState(s, inBlock, i, lastIs, startN, closed) && k == |closed|
    requires forall j | 0 <= j < k :: starts[j] == closed[j].start && sizes[j] == closed[j].size
    modifies starts, sizes
    ensures ScanState(s, inBlock, i + 1, inBlock(s[i]), startN', closed') && k' == |closed'|
    ensures forall j | 0 <= j < k' :: starts[j] == closed'[j].start && sizes[j] == closed'[j].size
  {
    startN', k', closed' := startN, k, closed;
    var isIn := inBlock(s[i]);
    RunsCountGrows(s, i + 1, inBlock);
    if isIn {
      if !lastIs {
        RunsOpens(s, i, inBlock, closed);
        startN' := i;
      } else {
        RunsExtends(s, i, inBlock, closed, startN);
      }
    } else {
      if lastIs {
        RunsCloses(s, i, inBlock, closed, startN);
        starts[k] := startN;
        sizes[k] := i - startN;
        closed' := closed + [Block(startN, i - startN)];
        k' := k + 1;
      } else {
        RunsStaysClosed(s, i, inBlock, closed);
      }
    }
  }

  /**
   * storeBlocksOfN/storeBlocksOfLower: writes the start and size of every run
   * into arrays allocated with the count the counting pass returned.
   */
  method StoreBlocks(s: seq<char>, inBlock: char -> bool, starts: array<nat>, sizes: array<nat>)
    requires starts != sizes
    requires starts.Length == |Runs(s, inBlock)| == sizes.Length
    modifies starts, sizes
    ensures forall j | 0 <= j < starts.Length ::
      starts[j] == Runs(s, inBlock)[j].start && sizes[j] == Runs(s, inBlock)[j].size
  {
    var lastIs := false;
    var startN := 0;
    var k := 0;
    ghost var closed: seq<Block> := [];
    RunsCountGrows(s, 0, inBlock);
    for i := 0 to |s|
      invariant ScanState(s, inBlock, i, lastIs, startN, closed) && k == |closed|
      invariant forall j | 0 <= j < k :: starts[j] == closed[j].start && sizes[j] == closed[j].size
    {
      startN, k, closed := StoreStep(s, inBlock, starts, sizes, i, lastIs, startN, k, closed);
      lastIs := inBlock(s[i]);
    }
    assert s[..|s|] == s;
    if lastIs {
      starts[k] := startN;
      sizes[k] := |s| - startN;
    }
  }

  /** The runs of s as the block tables hold them, counted, allocated and stored as twoBitFromDnaSeq does. */
  method BlocksOf(s: seq<char>, inBlock: char -> bool) returns (blocks: seq<Block>)
    ensures blocks == Runs(s, inBlock)
  {
    var blockCount := CountBlocks(s, inBlock);
    blocks := [];
    if blockCount > 0 {
      var starts := new nat[blockCount];
      var sizes := new nat[blockCount];
      StoreBlocks(s, inBlock, starts, sizes);
      blocks := seq(blockCount, j requires 0 <= j < blockCount reads starts, sizes => Block(starts[j], sizes[j]));
    }
  }

  // ---------------------------------------------------------------------
  // twoBitFromDnaSeq

  /** A sequence as a .2bit file stores it: its size, N blocks, mask blocks and packed bases. */
  datatype TwoBitSeq = TwoBitSeq(name: string, size: nat, nBlocks: seq<Block>, maskBlocks: seq<Block>, data: seq<Byte>)

  /** The four bases packed into byte k: bases 4k to 4k+3, with 'T' past the end of the sequence. */
  function Quad(dna: seq<char>, k: nat): (q: seq<char>)
    ensures |q| == 4
  {
    seq(4, j requires 0 <= j < 4 => if 4 * k + j < |dna| then dna[4 * k + j] else 'T')
  }

  /** The packed bytes of a sequence, byte k holding packDna4 of Quad(dna, k). */
  function PackedBases(dna: seq<char>): (data: seq<Byte>)
    ensures |data| == PackedSize(|dna|)
    ensures forall k | 0 <= k < |data| :: data[k] == Pack4(Quad(dna, k))
  {
    seq(PackedSize(|dna|), k requires 0 <= k < PackedSize(|dna|) => Pack4(Quad(dna, k)))
  }

  /** The record twoBitFromDnaSeq builds: N blocks always, mask blocks of lower-case runs only with doMask. */
  function Encode(name: string, dna: seq<char>, doMask: bool): TwoBitSeq
  {
    TwoBitSeq(name, |dna|, Runs(dna, IsNChar), if doMask then Runs(dna, IsLower) else [], PackedBases(dna))
  }

  /** A whole group of four bases packs as its Quad. */
  lemma WholeQuad(dna: seq<char>, i: nat, k: nat)
    requires i == 4 * k && i + 4 <= |dna|
    ensures Pack4(dna[i..]) == Pack4(Quad(dna, k))
  {
    assert dna[i..][0] == Quad(dna, k)[0] && dna[i..][1] == Quad(dna, k)[1];
    assert dna[i..][2] == Quad(dna, k)[2] && dna[i..][3] == Quad(dna, k)[3];
  }

  /** The last, padded group: the remaining bases copied over four 'T's. */
  lemma LastQuad(dna: seq<char>, i: nat, k: nat)
    requires i == 4 * k && i < |dna| <= i + 4
    ensures dna[i..] + "TTTT"[|dna| - i..] == Quad(dna, k)
    ensures k == PackedSize(|dna|) - 1
  {
  }

  /** twoBitFromDnaSeq: packs the bases four to a byte and records the N blocks, and the mask blocks with doMask. */
  method TwoBitFromDnaSeq(name: string, dna: seq<char>, doMask: bool) returns (tb: TwoBitSeq)
    requires |dna| >= 1
    ensures tb == Encode(name, dna, doMask)
  {
    var ubyteSize := PackedSize(|dna|);
    var data := new Byte[ubyteSize];
    var pt := 0;
    var i := 0;
    var end := |dna| - 4;
    while i < end
      invariant i == 4 * pt && i < |dna| && pt < ubyteSize
      invariant forall k | 0 <= k < pt :: data[k] == Pack4(Quad(dna, k))
    {
      WholeQuad(dna, i, pt);
      data[pt] := PackDna4(dna[i..]);
      pt := pt + 1;
      i := i + 4;
    }
    var last4 := "TTTT";
    last4 := dna[i..] + last4[|dna| - i..];
    LastQuad(dna, i, pt);
    data[pt] := PackDna4(last4);
    var nBlocks := BlocksOf(dna, IsNChar);
    var maskBlocks := [];
    if doMask {
      maskBlocks := BlocksOf(dna, IsLower);
    }
    tb := TwoBitSeq(name, |dna|, nBlocks, maskBlocks, data[..]);
  }

  // ---------------------------------------------------------------------
  // findGreatestLowerBound

  predicate Sorted(pos: seq<int>)
  {
    forall j, k | 0 <= j < k < |pos| :: pos[j] <= pos[k]
  }

  predicate StrictlyIncreasing(pos: seq<int>)
  {
    forall j, k | 0 <= j < k < |pos| :: pos[j] < pos[k]
  }

  /**
   * findGreatestLowerBound: a binary search over sorted positions.  Every
   * position before the result is below val, and the result is 0 or at most
   * val; when the positions strictly increase, the result is the greatest
   * index whose position is at most val, or 0 when every position exceeds val.
   */
  method FindGreatestLowerBound(pos: seq<int>, val: int) returns (ix: nat)
    requires |pos| >= 1 && Sorted(pos)
    ensures ix < |pos|
    ensures forall j | 0 <= j < ix :: pos[j] < val
    ensures ix == 0 || pos[ix] <= val
    ensures StrictlyIncreasing(pos) ==> forall j | ix < j < |pos| :: pos[j] > val
  {
    var startIx := 0;
    var endIx := |pos| - 1;
    while true
      invariant 0 <= startIx <= endIx < |pos|
      invariant forall j | 0 <= j < startIx :: pos[j] < val
      invariant forall j | endIx < j < |pos| :: pos[j] >= val
      invariant endIx < |pos| - 1 ==> pos[endIx] >= val
      decreases endIx - startIx
    {
      if startIx == endIx {
        var posVal := pos[startIx];
        if posVal <= val || startIx == 0 {
          return startIx;
        } else {
          return startIx - 1;
        }
      }
      var midIx := (startIx + endIx) / 2;
      var posVal := pos[midIx];
      if posVal < val {
        startIx := midIx + 1;
      } else {
        endIx := midIx;
      }
    }
  }

  /** The starts of the blocks, the table findGreatestLowerBound searches. */
  function Starts(blocks: seq<Block>): (pos: seq<int>)
    ensures |pos| == |blocks| && forall j | 0 <= j < |blocks| :: pos[j] == blocks[j].start
  {
    seq(|blocks|, j requires 0 <= j < |blocks| => blocks[j].start)
  }

  /** Ordered blocks have sorted starts, and separated ones strictly increasing starts. */
  lemma StartsSorted(blocks: seq<Block>)
    requires Ordered(blocks)
    ensures Sorted(Starts(blocks))
    ensures (forall j | 0 <= j < |blocks| :: blocks[j].size > 0) ==> StrictlyIncreasing(Starts(blocks))
  {
  }

  // ---------------------------------------------------------------------
  // twoBitReadSeqFragExt: decoding

  /** The four bases a byte packs, first base in its high bits. */
  function ByteBases(x: Byte): (r: seq<char>)
    ensures |r| == 4 && forall j | 0 <= j < 4 :: r[j] == UnpackBase(x, j)
  {
    [UnpackBase(x, 0), UnpackBase(x, 1), UnpackBase(x, 2), UnpackBase(x, 3)]
  }

  /** Every base the packed bytes hold, four to a byte: base p is in byte p>>2 at bit 6-2*(p&3). */
  function Bases(data: seq<Byte>): (r: seq<char>)
    ensures |r| == 4 * |data|
    ensures forall p | 0 <= p < |r| :: IsLowerBase(r[p])
  {
    if |data| == 0 then [] else Bases(data[..|data| - 1]) + ByteBases(data[|data| - 1])
  }

  lemma {:induction false} BasesAt(data: seq<Byte>, k: nat, j: nat)
    requires k < |data| && j < 4
    ensures Bases(data)[4 * k + j] == UnpackBase(data[k], j)
  {
    var n := |data| - 1;
    if k < n {
      BasesAt(data[..n], k, j);
    }
  }

  /** A byte after m shifts right by two bits. */
  function ShiftedBy(x: Byte, m: nat): Byte
  {
    if m == 0 then x else ShiftedBy(x, m - 1) / 4
  }

  /** An unsigned byte shifted right by n bits. */
  function ShiftRight(x: Byte, n: nat): Byte
  {
    if n == 0 then x else ShiftRight(x, n - 1) / 2
  }

  lemma {:induction false} ShiftRightPairs(x: Byte, m: nat)
    ensures ShiftRight(x, 2 * m) == ShiftedBy(x, m)
  {
    if m > 0 {
      ShiftRightPairs(x, m - 1);
      assert ShiftRight(x, 2 * m) == ShiftRight(x, 2 * m - 2) / 2 / 2;
    }
  }

  lemma {:induction false} ShiftedByInner(x: Byte, n: nat)
    ensures ShiftedBy(x / 4, n) == ShiftedBy(x, n + 1)
  {
    if n > 0 {
      ShiftedByInner(x, n - 1);
    }
  }

  /** After m two-bit shifts the low two bits hold base 3-m. */
  lemma {:induction false} LowField(x: Byte, m: nat)
    requires m <= 3
    ensures ShiftedBy(x, m) % 4 == Field(x, 3 - m)
  {
    if m > 0 {
      LowField(x / 4, m - 1);
      ShiftedByInner(x, m - 1);
    }
  }

  /**
   * The loop decoding part of a byte, from its last wanted base back to its
   * first: part is byte x after 4-k0-count shifts, so that base k0+count-1 is
   * in its low two bits, and dna[at+j] receives base k0+j.
   */
  method UnpackPartial(part: Byte, ghost x: Byte, k0: nat, count: nat, dna: array<char>, at: nat)
    requires 1 <= count && k0 + count <= 4 && at + count <= dna.Length
    requires part == ShiftedBy(x, 4 - k0 - count)
    modifies dna
    ensures forall q | at <= q < at + count :: dna[q] == UnpackBase(x, k0 + q - at)
    ensures forall q | 0 <= q < at :: dna[q] == old(dna[q])
    ensures forall q | at + count <= q < dna.Length :: dna[q] == old(dna[q])
  {
    var p := part;
    var i := count - 1;
    while i >= 0
      invariant -1 <= i < count
      invariant p == ShiftedBy(x, 3 - k0 - i)
      invariant forall q | at + i < q < at + count :: dna[q] == UnpackBase(x, k0 + q - at)
      invariant forall q | 0 <= q <= at + i :: dna[q] == old(dna[q])
      invariant forall q | at + count <= q < dna.Length :: dna[q] == old(dna[q])
    {
      LowField(x, 3 - k0 - i);
      dna[at + i] := ValToNt(p % 4);
      p := p / 4;
      i := i - 1;
    }
  }

  /** The four bases of a whole byte, written from the last back to the first. */
  method UnpackWhole(x: Byte, dna: array<char>, at: nat)
    requires at + 4 <= dna.Length
    modifies dna
    ensures forall q | at <= q < at + 4 :: dna[q] == UnpackBase(x, q - at)
    ensures forall q | 0 <= q < at :: dna[q] == old(dna[q])
    ensures forall q | at + 4 <= q < dna.Length :: dna[q] == old(dna[q])
  {
    var b := x;
    dna[at + 3] := ValToNt(b % 4);
    b := b / 4;
    dna[at + 2] := ValToNt(b % 4);
    b := b / 4;
    dna[at + 1] := ValToNt(b % 4);
    b := b / 4;
    dna[at] := ValToNt(b % 4);
    ByteFields(x / 64, x / 16 % 4, x / 4 % 4, x % 4);
  }

  /** Bases pStart up to pEnd of a single byte, each shifted out directly. */
  method DecodeWithinByte(partial: Byte, pStart: nat, pEnd: nat, dna: array<char>)
    requires pStart < pEnd <= 4 && pEnd - pStart <= dna.Length
    modifies dna
    ensures forall q | 0 <= q < pEnd - pStart :: dna[q] == UnpackBase(partial, pStart + q)
    ensures forall q | pEnd - pStart <= q < dna.Length :: dna[q] == old(dna[q])
  {
    var d := 0;
    for i := pStart to pEnd
      invariant d == i - pStart
      invariant forall q | 0 <= q < d :: dna[q] == UnpackBase(partial, pStart + q)
      invariant forall q | d <= q < dna.Length :: dna[q] == old(dna[q])
    {
      ShiftRightPairs(partial, 3 - i);
      LowField(partial, 3 - i);
      dna[d] := ValToNt(ShiftRight(partial, 6 - i - i) % 4);
      d := d + 1;
    }
  }

  /** The whole middle bytes, four bases each, up to base midEnd; returns the next byte and base. */
  method DecodeMiddle(packed: seq<Byte>, off: nat, pk0: nat, d0: nat, midEnd: nat, dna: array<char>)
    returns (pk: nat, d: nat)
    requires off + d0 == 4 * pk0 && off + d0 <= midEnd && midEnd % 4 == 0
    requires midEnd <= 4 * |packed| && midEnd - off <= dna.Length
    modifies dna
    ensures off + d == midEnd == 4 * pk
    ensures forall q | d0 <= q < d :: dna[q] == Bases(packed)[off + q]
    ensures forall q | 0 <= q < d0 :: dna[q] == old(dna[q])
    ensures forall q | d <= q < dna.Length :: dna[q] == old(dna[q])
  {
    pk, d := pk0, d0;
    while off + d < midEnd
      invariant off + d == 4 * pk && d0 <= d && off + d <= midEnd
      invariant forall q | d0 <= q < d :: dna[q] == Bases(packed)[off + q]
      invariant forall q | 0 <= q < d0 :: dna[q] == old(dna[q])
      invariant forall q | d <= q < dna.Length :: dna[q] == old(dna[q])
    {
      var b := packed[pk];
      UnpackWhole(b, dna, d);
      forall q | d <= q < d + 4 ensures dna[q] == Bases(packed)[off + q] {
        BasesAt(packed, pk, q - d);
      }
      pk := pk + 1;
      d := d + 4;
    }
  }

  /** Bases spread over several bytes: a partial first byte, whole middle bytes, a partial last byte. */
  method DecodeAcrossBytes(packed: seq<Byte>, off: nat, outSize: nat, dna: array<char>)
    requires off < 4 && 1 <= outSize <= dna.Length && |packed| == PackedSize(off + outSize) && |packed| > 1
    modifies dna
    ensures forall i | 0 <= i < outSize :: dna[i] == Bases(packed)[off + i]
    ensures forall i | outSize <= i < dna.Length :: dna[i] == old(dna[i])
  {
    var d := 0;
    var pk := 0;
    if off > 0 {
      var partial := packed[pk];
      pk := pk + 1;
      var partCount := 4 - off;
      UnpackPartial(partial, packed[0], off, partCount, dna, 0);
      forall q | 0 <= q < partCount ensures dna[q] == Bases(packed)[off + q] {
        BasesAt(packed, 0, off + q);
      }
      d := partCount;
    }
    var remainder := (off + outSize) % 4;
    var midEnd := off + outSize - remainder;
    pk, d := DecodeMiddle(packed, off, pk, d, midEnd, dna);
    if remainder > 0 {
      var part := packed[pk];
      part := ShiftRight(part, 8 - remainder - remainder);
      ShiftRightPairs(packed[pk], 4 - remainder);
      UnpackPartial(part, packed[pk], 0, remainder, dna, d);
      forall q | d <= q < d + remainder ensures dna[q] == Bases(packed)[off + q] {
        BasesAt(packed, pk, q - d);
      }
    }
  }

  /**
   * The decoding core of twoBitReadSeqFragExt: outSize bases starting off bases
   * into the bytes read, dna[i] being base off+i of them.
   */
  method DecodeFrag(packed: seq<Byte>, off: nat, outSize: nat, dna: array<char>)
    requires off < 4 && 1 <= outSize <= dna.Length && |packed| == PackedSize(off + outSize)
    modifies dna
    ensures forall i | 0 <= i < outSize :: dna[i] == Bases(packed)[off + i]
    ensures forall i | outSize <= i < dna.Length :: dna[i] == old(dna[i])
  {
    if |packed| == 1 {
      DecodeWithinByte(packed[0], off, off + outSize, dna);
      forall i | 0 <= i < outSize ensures dna[i] == Bases(packed)[off + i] {
        BasesAt(packed, 0, off + i);
      }
    } else {
      DecodeAcrossBytes(packed, off, outSize, dna);
    }
  }

  // ---------------------------------------------------------------------
  // twoBitReadSeqFragExt: N and mask blocks over the decoded bases

  /** memset, toUpperN and toLowerN: every character in [lo, hi) goes through f. */
  method MapRange(dna: array<char>, lo: nat, hi: nat, f: char -> char)
    requires lo <= hi <= dna.Length
    modifies dna
    ensures forall q | 0 <= q < dna.Length :: dna[q] == if lo <= q < hi then f(old(dna[q])) else old(dna[q])
  {
    for i := lo to hi
      invariant forall q | 0 <= q < dna.Length :: dna[q] == if lo <= q < i then f(old(dna[q])) else old(dna[q])
    {
      dna[i] := f(dna[i]);
    }
  }

  /** Position base+q lies in one of the first n blocks. */
  function CoveredBy(blocks: seq<Block>, n: nat, base: nat, q: int): bool
    requires n <= |blocks|
  {
    n > 0 && (InBlock(blocks[n - 1], base + q) || CoveredBy(blocks, n - 1, base, q))
  }

  lemma {:induction false} CoveredByAll(blocks: seq<Block>, n: nat, base: nat, q: int)
    requires n <= |blocks|
    ensures CoveredBy(blocks, n, base, q) <==> exists j | 0 <= j < n :: InBlock(blocks[j], base + q)
  {
    if n > 0 {
      CoveredByAll(blocks, n - 1, base, q);
    }
  }

  /** Blocks that all end by base cover nothing from base on. */
  lemma {:induction false} CoveredByNone(blocks: seq<Block>, n: nat, base: nat, q: int)
    requires n <= |blocks| && 0 <= q
    requires forall j | 0 <= j < n :: End(blocks[j]) <= base
    ensures !CoveredBy(blocks, n, base, q)
  {
    if n > 0 {
      CoveredByNone(blocks, n - 1, base, q);
    }
  }

  /** In ordered blocks, a position of block n is in none of the blocks before it. */
  lemma CoveredByDisjoint(blocks: seq<Block>, n: nat, base: nat, q: int)
    requires Ordered(blocks) && n < |blocks| && InBlock(blocks[n], base + q)
    ensures !CoveredBy(blocks, n, base, q)
  {
    CoveredByAll(blocks, n, base, q);
  }

  /** In ordered blocks, no block from n on holds a position before block n's start. */
  lemma CoveredByRest(blocks: seq<Block>, n: nat, base: nat, q: int)
    requires Ordered(blocks) && n < |blocks| && base + q < blocks[n].start
    ensures CoveredBy(blocks, |blocks|, base, q) == CoveredBy(blocks, n, base, q)
  {
    CoveredByAll(blocks, n, base, q);
    CoveredByAll(blocks, |blocks|, base, q);
    forall j | n <= j < |blocks| ensures !InBlock(blocks[j], base + q) {
      if j > n {
        assert End(blocks[n]) <= blocks[j].start;
      }
    }
  }

  /**
   * The block loop of twoBitReadSeqFragExt: from startIx on, each block that
   * starts before fragEnd is clipped to the fragment and its characters go
   * through f; the loop stops at the first block starting at or past fragEnd.
   */
  method OverlayBlocks(dna: array<char>, blocks: seq<Block>, startIx: nat, fragStart: nat, fragEnd: nat, f: char -> char)
    requires Ordered(blocks) && startIx <= |blocks|
    requires fragStart < fragEnd && dna.Length == fragEnd - fragStart
    requires forall j | 0 <= j < startIx :: End(blocks[j]) <= fragStart
    modifies dna
    ensures forall q | 0 <= q < dna.Length ::
      dna[q] == if InBlocks(blocks, fragStart + q) then f(old(dna[q])) else old(dna[q])
  {
    forall q | 0 <= q < dna.Length ensures !CoveredBy(blocks, startIx, fragStart, q) {
      CoveredByNone(blocks, startIx, fragStart, q);
    }
    var i := startIx;
    while i < |blocks|
      invariant startIx <= i <= |blocks|
      invariant forall q | 0 <= q < dna.Length ::
        dna[q] == if CoveredBy(blocks, i, fragStart, q) then f(old(dna[q])) else old(dna[q])
    {
      var s := blocks[i].start;
      var e := s + blocks[i].size;
      if s >= fragEnd {
        break;
      }
      if s < fragStart {
        s := fragStart;
      }
      if e > fragEnd {
        e := fragEnd;
      }
      forall q | 0 <= q < dna.Length && InBlock(blocks[i], fragStart + q)
        ensures !CoveredBy(blocks, i, fragStart, q)
      {
        CoveredByDisjoint(blocks, i, fragStart, q);
      }
      if s < e {
        MapRange(dna, s - fragStart, e - fragStart, f);
      }
      i := i + 1;
    }
    forall q | 0 <= q < dna.Length
      ensures CoveredBy(blocks, i, fragStart, q) == InBlocks(blocks, fragStart + q)
    {
      if i < |blocks| {
        CoveredByRest(blocks, i, fragStart, q);
      }
      CoveredByAll(blocks, |blocks|, fragStart, q);
    }
  }

  // ---------------------------------------------------------------------
  // twoBitReadSeqFragExt

  /** What the reader relies on in a stored sequence: one byte per four bases, blocks in order. */
  predicate Valid(tb: TwoBitSeq)
  {
    |tb.data| == PackedSize(tb.size) && Ordered(tb.nBlocks) && Ordered(tb.maskBlocks)
  }

  /** A sequence as the reader returns it (struct dnaSeq, its size being |dna|). */
  datatype DnaSeq = DnaSeq(name: string, dna: seq<char>)

  /**
   * Base p as read back: 'n' inside an N block, otherwise the packed base in
   * lower case; with doMask, lower case inside a mask block and upper case
   * everywhere else.
   */
  function ShownBase(tb: TwoBitSeq, p: nat, doMask: bool): char
    requires Valid(tb) && p < tb.size
  {
    var c := if InBlocks(tb.nBlocks, p) then 'n' else Bases(tb.data)[p];
    if !doMask then c
    else if InBlocks(tb.maskBlocks, p) then ToLower(c)
    else ToUpper(c)
  }

  /** The name of a fragment: the sequence name followed by ":start-end". */
  function FragName(name: string, fragStart: nat, fragEnd: nat): string
  {
    name + ":" + NatToString(fragStart) + "-" + NatToString(fragEnd)
  }

  /** Size of the buffer the fragment name is formatted into. */
  const NameBufSize: nat := 512

  /**
   * The result of twoBitReadSeqFragExt: fragEnd 0 stands for the end of the
   * sequence; an end past the sequence (a negative end compares as a huge
   * unsigned one) or an empty fragment aborts; a fragment that is not the whole
   * sequence is named FragName, and aborts when that name overflows its buffer.
   */
  function ReadFrag(tb: TwoBitSeq, name: string, fragStart: nat, fragEnd: int, doMask: bool): (r: Result<DnaSeq>)
    requires Valid(tb)
  {
    var end := if fragEnd == 0 then tb.size as int else fragEnd;
    if end < 0 || end > tb.size then Abort("twoBitReadSeqFrag: end past the sequence")
    else if end - fragStart < 1 then Abort("twoBitReadSeqFrag: start not before end")
    else if end - fragStart != tb.size && |FragName(name, fragStart, end)| >= NameBufSize then
      Abort("buffer overflow")
    else
      var seqName := if end - fragStart == tb.size then name else FragName(name, fragStart, end);
      Ok(DnaSeq(seqName, seq(end - fragStart, i requires 0 <= i < end - fragStart => ShownBase(tb, fragStart + i, doMask))))
  }

  /** The bytes read for a fragment hold its bases from base fragStart%4 on. */
  lemma BasesSlice(data: seq<Byte>, a: nat, b: nat, i: nat)
    requires a <= b <= |data| && i < 4 * (b - a)
    ensures Bases(data[a..b])[i] == Bases(data)[4 * a + i]
  {
    var k, j := Quarter(i);
    BaseOfSlice(data, a, b, k, j, i);
    BaseOfWhole(data, a, k, j, i);
  }

  lemma BaseOfWhole(data: seq<Byte>, a: nat, k: nat, j: nat, i: nat)
    requires a + k < |data| && j < 4 && i == 4 * k + j
    ensures Bases(data)[4 * a + i] == UnpackBase(data[a + k], j)
  {
    BaseAtIndex(data, a + k, j, 4 * a + i);
  }

  lemma BaseOfSlice(data: seq<Byte>, a: nat, b: nat, k: nat, j: nat, i: nat)
    requires a + k < b <= |data| && j < 4 && i == 4 * k + j
    ensures Bases(data[a..b])[i] == UnpackBase(data[a + k], j)
  {
    assert data[a..b][k] == data[a + k];
    BaseAtIndex(data[a..b], k, j, i);
  }

  /** BasesAt with the position given separately from its byte and offset. */
  lemma BaseAtIndex(data: seq<Byte>, k: nat, j: nat, p: nat)
    requires k < |data| && j < 4 && p == 4 * k + j
    ensures Bases(data)[p] == UnpackBase(data[k], j)
  {
    BasesAt(data, k, j);
  }

  /** A base position as byte and position within the byte. */
  lemma Quarter(i: nat) returns (k: nat, j: nat)
    ensures i == 4 * k + j && j < 4
  {
    k, j := i / 4, i % 4;
  }

  lemma PackedRange(fragStart: nat, fragEnd: nat)
    requires fragStart < fragEnd
    ensures (fragEnd + 3) / 4 - fragStart / 4 == PackedSize(fragStart % 4 + fragEnd - fragStart)
    ensures fragStart / 4 <= (fragEnd + 3) / 4
  {
  }

  /** A lower-case base or 'n' read with doMask and then put in a mask block is lower case again. */
  lemma MaskedCase(c: char)
    requires IsLowerBase(c) || c == 'n'
    ensures ToLower(ToUpper(c)) == ToLower(c)
  {
    CaseRoundTrip(c);
  }

  /** The decoding part of twoBitReadSeqFragExt: the bytes spanning the fragment, unpacked. */
  method DecodeRange(tb: TwoBitSeq, fragStart: nat, fragEnd: nat) returns (dna: array<char>)
    requires Valid(tb) && fragStart < fragEnd <= tb.size
    ensures fresh(dna) && dna.Length == fragEnd - fragStart
    ensures forall i | 0 <= i < dna.Length :: dna[i] == Bases(tb.data)[fragStart + i]
  {
    var outSize := fragEnd - fragStart;
    dna := new char[outSize];
    var packedStart := fragStart / 4;
    var packedEnd := (fragEnd + 3) / 4;
    PackedRange(fragStart, fragEnd);
    var packed := tb.data[packedStart..packedEnd];
    var off := fragStart - 4 * packedStart;
    DecodeFrag(packed, off, outSize, dna);
    SliceBases(tb.data, packedStart, packedEnd);
  }

  /** The bases of a run of bytes are the bases of the whole sequence from four times its first byte on. */
  lemma SliceBases(data: seq<Byte>, a: nat, b: nat)
    requires a <= b <= |data|
    ensures forall j | 0 <= j < 4 * (b - a) :: Bases(data[a..b])[j] == Bases(data)[4 * a + j]
  {
    forall j | 0 <= j < 4 * (b - a) ensures Bases(data[a..b])[j] == Bases(data)[4 * a + j] {
      BasesSlice(data, a, b, j);
    }
  }

  /** The bases of a fragment as twoBitReadSeqFragExt returns them: decoded, N blocks, then case. */
  method ReadRange(tb: TwoBitSeq, fragStart: nat, fragEnd: nat, doMask: bool) returns (dna: array<char>)
    requires Valid(tb) && fragStart < fragEnd <= tb.size
    ensures fresh(dna) && dna.Length == fragEnd - fragStart
    ensures forall i | 0 <= i < dna.Length :: dna[i] == ShownBase(tb, fragStart + i, doMask)
  {
    dna := DecodeRange(tb, fragStart, fragEnd);
    var outSize := fragEnd - fragStart;
    if |tb.nBlocks| > 0 {
      var startIx := FindNextBlock(tb.nBlocks, fragStart);
      OverlayBlocks(dna, tb.nBlocks, startIx, fragStart, fragEnd, _ => 'n');
    }
    ghost var withN := dna[..];
    assert forall i | 0 <= i < outSize ::
      withN[i] == if InBlocks(tb.nBlocks, fragStart + i) then 'n' else Bases(tb.data)[fragStart + i];
    if doMask {
      MapRange(dna, 0, outSize, ToUpper);
      if |tb.maskBlocks| > 0 {
        var startIx := FindNextBlock(tb.maskBlocks, fragStart);
        OverlayBlocks(dna, tb.maskBlocks, startIx, fragStart, fragEnd, ToLower);
      }
      forall i | 0 <= i < outSize ensures dna[i] == ShownBase(tb, fragStart + i, doMask) {
        MaskedCase(withN[i]);
      }
    }
  }

  /**
   * twoBitReadSeqFragExt on a stored sequence: checks the range, names the
   * fragment, and reads its bases; also returns the full size.
   */
  method ReadSeqFragExt(tb: TwoBitSeq, name: string, fragStart: nat, fragEnd: int, doMask: bool)
    returns (r: Result<DnaSeq>, fullSize: nat)
    requires Valid(tb)
    ensures r == ReadFrag(tb, name, fragStart, fragEnd, doMask)
    ensures fullSize == tb.size
  {
    fullSize := tb.size;
    var seqSize := tb.size;
    var end := fragEnd;
    if end == 0 {
      end := seqSize;
    }
    if end < 0 || end > seqSize {
      return Abort("twoBitReadSeqFrag: end past the sequence"), fullSize;
    }
    var outSize := end - fragStart;
    if outSize < 1 {
      return Abort("twoBitReadSeqFrag: start not before end"), fullSize;
    }
    var seqName := name;
    if outSize != seqSize {
      seqName := FragName(name, fragStart, end);
      if |seqName| >= NameBufSize {
        return Abort("buffer overflow"), fullSize;
      }
    }
    var dna := ReadRange(tb, fragStart, end, doMask);
    assert dna[..] == seq(outSize, i requires 0 <= i < outSize => ShownBase(tb, fragStart + i, doMask));
    r := Ok(DnaSeq(seqName, dna[..]));
  }

  // ---------------------------------------------------------------------
  // Round trip: twoBitFromDnaSeq, then twoBitReadSeqFragExt

  /** The letters a .2bit file keeps exactly: the four bases and N, in either case. */
  predicate IsTwoBitChar(c: char)
  {
    match c
    case 'A' => true
    case 'C' => true
    case 'G' => true
    case 'T' => true
    case 'N' => true
    case 'a' => true
    case 'c' => true
    case 'g' => true
    case 't' => true
    case 'n' => true
    case _ => false
  }

  /** Every character through tolower. */
  function LowerCase(s: seq<char>): (r: seq<char>)
    ensures |r| == |s| && forall i | 0 <= i < |s| :: r[i] == ToLower(s[i])
  {
    seq(|s|, i requires 0 <= i < |s| => ToLower(s[i]))
  }

  /** What twoBitFromDnaSeq stores meets what the reader relies on. */
  lemma EncodeValid(name: string, dna: seq<char>, doMask: bool)
    ensures Valid(Encode(name, dna, doMask))
  {
    RunsExact(dna, IsNChar);
    RunsExact(dna, IsLower);
  }

  /** A packed base reads back as its letter in lower case. */
  lemma PackedBaseBack(dna: seq<char>, p: nat)
    requires p < |dna| && IsTwoBitChar(dna[p]) && !IsNChar(dna[p])
    ensures Bases(PackedBases(dna))[p] == ToLower(dna[p])
  {
    var k, j := Quarter(p);
    BasesAt(PackedBases(dna), k, j);
    assert Quad(dna, k)[j] == dna[p];
    PackDna4RoundTrip(Quad(dna, k), j);
  }

  /** Each base of a stored sequence reads back as it was, or in lower case without doMask. */
  lemma ShownEncoded(name: string, dna: seq<char>, p: nat, doMask: bool)
    requires p < |dna| && IsTwoBitChar(dna[p])
    ensures Valid(Encode(name, dna, doMask))
    ensures ShownBase(Encode(name, dna, doMask), p, doMask) == if doMask then dna[p] else ToLower(dna[p])
  {
    EncodeValid(name, dna, doMask);
    RunsExact(dna, IsNChar);
    RunsExact(dna, IsLower);
    assert InBlocks(Runs(dna, IsNChar), p) <==> IsNChar(dna[p]);
    assert InBlocks(Runs(dna, IsLower), p) <==> IsLower(dna[p]);
    if !IsNChar(dna[p]) {
      PackedBaseBack(dna, p);
    }
    CaseRoundTrip(dna[p]);
  }

  /**
   * Reading back any fragment of a stored sequence of ACGTNacgtn gives its
   * letters, in their own case with doMask and in lower case without.
   */
  lemma ReadFragEncoded(name: string, dna: seq<char>, a: nat, b: nat, doMask: bool)
    requires a < b <= |dna| && forall p | 0 <= p < |dna| :: IsTwoBitChar(dna[p])
    requires b - a == |dna| || |FragName(name, a, b)| < NameBufSize
    ensures Valid(Encode(name, dna, doMask))
    ensures ReadFrag(Encode(name, dna, doMask), name, a, b, doMask)
      == Ok(DnaSeq(if b - a == |dna| then name else FragName(name, a, b),
                   if doMask then dna[a..b] else LowerCase(dna[a..b])))
  {
    EncodeValid(name, dna, doMask);
    var tb := Encode(name, dna, doMask);
    ReadFragInRange(tb, name, a, b, doMask);
    EncodedBases(name, dna, a, b, doMask);
  }

  /** A read inside the sequence whose name fits succeeds with the bases ShownBase gives. */
  lemma ReadFragInRange(tb: TwoBitSeq, name: string, a: nat, b: nat, doMask: bool)
    requires Valid(tb) && a < b <= tb.size
    requires b - a == tb.size || |FragName(name, a, b)| < NameBufSize
    ensures ReadFrag(tb, name, a, b, doMask)
      == Ok(DnaSeq(if b - a == tb.size then name else FragName(name, a, b),
                   seq(b - a, i requires 0 <= i < b - a => ShownBase(tb, a + i, doMask))))
  {
  }

  lemma EncodedBases(name: string, dna: seq<char>, a: nat, b: nat, doMask: bool)
    requires a < b <= |dna| && forall p | 0 <= p < |dna| :: IsTwoBitChar(dna[p])
    ensures Valid(Encode(name, dna, doMask))
    ensures seq(b - a, i requires 0 <= i < b - a => ShownBase(Encode(name, dna, doMask), a + i, doMask))
      == if doMask then dna[a..b] else LowerCase(dna[a..b])
  {
    EncodeValid(name, dna, doMask);
    var tb := Encode(name, dna, doMask);
    var bases := seq(b - a, i requires 0 <= i < b - a => ShownBase(tb, a + i, doMask));
    var frag := dna[a..b];
    forall i | 0 <= i < b - a ensures bases[i] == if doMask then frag[i] else ToLower(frag[i]) {
      ShownEncoded(name, dna, a + i, doMask);
    }
    if doMask {
      assert bases == frag;
    } else {
      assert bases == LowerCase(frag);
    }
  }

  /** Reading with start = end = 0 gives the whole sequence back under its own name. */
  lemma ReadWholeEncoded(name: string, dna: seq<char>)
    requires |dna| >= 1 && forall p | 0 <= p < |dna| :: IsTwoBitChar(dna[p])
    ensures Valid(Encode(name, dna, true))
    ensures ReadFrag(Encode(name, dna, true), name, 0, 0, true) == Ok(DnaSeq(name, dna))
  {
    ReadFragEncoded(name, dna, 0, |dna|, true);
    assert dna[0..|dna|] == dna;
  }

  /** The error cases of twoBitReadSeqFragExt. */
  lemma ReadFragErrors(tb: TwoBitSeq, name: string, fragStart: nat, fragEnd: int, doMask: bool)
    requires Valid(tb)
    ensures fragEnd > tb.size ==> ReadFrag(tb, name, fragStart, fragEnd, doMask).Abort?
    ensures fragEnd < 0 ==> ReadFrag(tb, name, fragStart, fragEnd, doMask).Abort?
    ensures fragEnd != 0 && fragEnd <= fragStart ==> ReadFrag(tb, name, fragStart, fragEnd, doMask).Abort?
    ensures fragEnd == 0 && fragStart >= tb.size ==> ReadFrag(tb, name, fragStart, fragEnd, doMask).Abort?
  {
  }

  /** A successful read has one base per position of the range, and a suffixed name unless it is the whole sequence. */
  lemma ReadFragShape(tb: TwoBitSeq, name: string, fragStart: nat, fragEnd: int, doMask: bool)
    requires Valid(tb) && ReadFrag(tb, name, fragStart, fragEnd, doMask).Ok?
    ensures var end := if fragEnd == 0 then tb.size as int else fragEnd;
      var r := ReadFrag(tb, name, fragStart, fragEnd, doMask).value;
      && fragStart < end <= tb.size
      && |r.dna| == end - fragStart
      && (r.name == name <==> end - fragStart == tb.size || FragName(name, fragStart, end) == name)
  {
  }

  /**
   * findGreatestLowerBound over the block starts: the blocks before the index
   * it returns all end by fragStart.
   */
  method FindNextBlock(blocks: seq<Block>, fragStart: nat) returns (startIx: nat)
    requires Ordered(blocks) && |blocks| >= 1
    ensures startIx < |blocks|
    ensures forall j | 0 <= j < startIx :: End(blocks[j]) <= fragStart
  {
    StartsSorted(blocks);
    startIx := FindGreatestLowerBound(Starts(blocks), fragStart);
    forall j | 0 <= j < startIx ensures End(blocks[j]) <= fragStart {
      assert End(blocks[j]) <= blocks[startIx].start;
    }
  }
}
