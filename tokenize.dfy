/**
 * The tokenisers of common.c.  chopString and chopByChar cut a C string held
 * in a buffer into pieces, record where each piece starts and, when they
 * record anything, overwrite the separator after each recorded piece with
 * '\0' so that every piece reads as a C string of its own.
 * countSeparatedItems and slNameListFromString read a delimited list in
 * which the final delimiter is optional.
 */
module Tokenize {
  import opened CLib

  /** A piece of a string: the characters at indices lo .. hi - 1. */
  datatype Span = Span(lo: nat, hi: nat)

  // ---------------------------------------------------------------------
  // Buffers with terminators written after recorded pieces

  /** The indices at which the spans of ws end. */
  ghost function Ends(ws: seq<Span>): set<int>
  {
    set k | 0 <= k < |ws| :: ws[k].hi as int
  }

  /** The buffer with a terminator written at each index of z. */
  ghost function ZeroAt(buf: seq<char>, z: set<int>): (r: seq<char>)
    ensures |r| == |buf|
  {
    seq(|buf|, j requires 0 <= j < |buf| => if j in z then '\0' else buf[j])
  }

  /** One more span, one more end. */
  lemma EndsAppend(ws: seq<Span>, sp: Span)
    ensures Ends(ws + [sp]) == Ends(ws) + {sp.hi as int}
  {
    var l := ws + [sp];
    assert l[|ws|] == sp;
    forall x | x in Ends(ws) ensures x in Ends(l) {
      var k :| 0 <= k < |ws| && ws[k].hi == x;
      assert l[k] == ws[k];
    }
  }

  /** A buffer that agrees pointwise with ZeroAt is ZeroAt. */
  lemma ZeroAtPointwise(a: seq<char>, buf: seq<char>, z: set<int>)
    requires |a| == |buf|
    requires forall j | 0 <= j < |a| :: a[j] == if j in z then '\0' else buf[j]
    ensures a == ZeroAt(buf, z)
  {
  }

  // ---------------------------------------------------------------------
  // chopString

  /** Index of the first character at or after i that is not a separator (strspn). */
  function SkipSeps(s: seq<char>, i: nat, sep: seq<char>): (j: nat)
    requires i <= |s|
    ensures i <= j <= |s| && (j < |s| ==> s[j] !in sep)
    decreases |s| - i
  {
    if i == |s| || s[i] !in sep then i else SkipSeps(s, i + 1, sep)
  }

  /** Index of the first separator at or after i, or |s| (strcspn). */
  function SkipWord(s: seq<char>, i: nat, sep: seq<char>): (j: nat)
    requires i <= |s|
    ensures i <= j <= |s| && (j < |s| ==> s[j] in sep)
    decreases |s| - i
  {
    if i == |s| || s[i] in sep then i else SkipWord(s, i + 1, sep)
  }

  /** The maximal runs of non-separators of s from index i on, in order. */
  function WordsFrom(s: seq<char>, i: nat, sep: seq<char>): seq<Span>
    requires i <= |s|
    decreases |s| - i
  {
    var b := SkipSeps(s, i, sep);
    if b == |s| then []
    else
      var e := SkipWord(s, b, sep);
      if e == |s| then [Span(b, e)] else [Span(b, e)] + WordsFrom(s, e + 1, sep)
  }

  /** The words chopString finds in s. */
  function Words(s: seq<char>, sep: seq<char>): seq<Span>
  {
    WordsFrom(s, 0, sep)
  }

  /** strspn skips separators only. */
  lemma {:induction false} SkipSepsSkipped(s: seq<char>, i: nat, sep: seq<char>)
    requires i <= |s|
    ensures forall k | i <= k < SkipSeps(s, i, sep) :: s[k] in sep
    decreases |s| - i
  {
    if i < |s| && s[i] in sep {
      SkipSepsSkipped(s, i + 1, sep);
    }
  }

  /** strcspn skips non-separators only. */
  lemma {:induction false} SkipWordSkipped(s: seq<char>, i: nat, sep: seq<char>)
    requires i <= |s|
    ensures forall k | i <= k < SkipWord(s, i, sep) :: s[k] !in sep
    decreases |s| - i
  {
    if i < |s| && s[i] !in sep {
      SkipWordSkipped(s, i + 1, sep);
    }
  }

  /** Every span of ws lies within the first n indices. */
  ghost predicate Within(ws: seq<Span>, n: nat)
  {
    forall k | 0 <= k < |ws| :: ws[k].lo <= ws[k].hi <= n
  }

  /** Each span of ws ends before the next one starts. */
  ghost predicate Ordered(ws: seq<Span>)
  {
    forall k1, k2 | 0 <= k1 < k2 < |ws| :: ws[k1].hi < ws[k2].lo
  }

  /** No character of s inside the span is one of cs. */
  ghost predicate Avoids(s: seq<char>, sp: Span, cs: seq<char>)
  {
    forall j | sp.lo <= j < sp.hi && j < |s| :: s[j] !in cs
  }

  /** No character of s inside the span is c. */
  ghost predicate Lacks(s: seq<char>, sp: Span, c: char)
  {
    forall j | sp.lo <= j < sp.hi && j < |s| :: s[j] != c
  }

  /**
   * A word found from i on: a non-empty run without a separator, ending at a
   * separator or at the end of s.
   */
  ghost predicate WordShaped(s: seq<char>, w: Span, sep: seq<char>, i: nat)
  {
    && i <= w.lo < w.hi <= |s|
    && (w.hi == |s| || s[w.hi] in sep)
    && Avoids(s, w, sep)
  }

  /** The words found from i on: each shaped like a word, in order with gaps between. */
  ghost predicate WordsShaped(s: seq<char>, W: seq<Span>, sep: seq<char>, i: nat)
  {
    Ordered(W) && forall k | 0 <= k < |W| :: WordShaped(s, W[k], sep, i)
  }

  /** The words chopString finds have the shape of words. */
  lemma {:induction false} WordsFromShape(s: seq<char>, i: nat, sep: seq<char>)
    requires i <= |s|
    ensures WordsShaped(s, WordsFrom(s, i, sep), sep, i)
    decreases |s| - i
  {
    var b := SkipSeps(s, i, sep);
    var W := WordsFrom(s, i, sep);
    if b < |s| {
      var e := SkipWord(s, b, sep);
      SkipWordSkipped(s, b, sep);
      assert WordShaped(s, W[0], sep, i);
      if e < |s| {
        var R := WordsFrom(s, e + 1, sep);
        WordsFromShape(s, e + 1, sep);
        WordsNextShape(s, i, b, e, sep, W, R);
      } else {
        assert W == [Span(b, e)];
      }
    }
  }

  /** The inductive step of WordsFromShape: a word, then words found further on. */
  lemma WordsNextShape(s: seq<char>, i: nat, b: nat, e: nat, sep: seq<char>, W: seq<Span>, R: seq<Span>)
    requires i <= b < e < |s| && W == [Span(b, e)] + R
    requires WordShaped(s, Span(b, e), sep, i) && WordsShaped(s, R, sep, e + 1)
    ensures WordsShaped(s, W, sep, i)
  {
    forall k | 1 <= k < |W| ensures W[k].lo > e && WordShaped(s, W[k], sep, i) {
      assert W[k] == R[k - 1];
      assert WordShaped(s, R[k - 1], sep, e + 1);
    }
    assert W[0] == Span(b, e);
    forall k1, k2 | 0 <= k1 < k2 < |W| ensures W[k1].hi < W[k2].lo {
      if k1 > 0 {
        assert W[k1] == R[k1 - 1] && W[k2] == R[k2 - 1];
      }
    }
  }

  /** Index j lies inside one of the spans of ws. */
  ghost predicate Covered(ws: seq<Span>, j: int)
  {
    exists k | 0 <= k < |ws| :: ws[k].lo <= j < ws[k].hi
  }

  /** Every non-separator of s from i on lies in one of the words. */
  lemma {:induction false} WordsFromCover(s: seq<char>, i: nat, sep: seq<char>)
    requires i <= |s|
    ensures forall j | i <= j < |s| && s[j] !in sep :: Covered(WordsFrom(s, i, sep), j)
    decreases |s| - i
  {
    var b := SkipSeps(s, i, sep);
    SkipSepsSkipped(s, i, sep);
    var W := WordsFrom(s, i, sep);
    if b < |s| {
      var e := SkipWord(s, b, sep);
      assert W[0] == Span(b, e);
      if e < |s| {
        var R := WordsFrom(s, e + 1, sep);
        WordsFromCover(s, e + 1, sep);
        assert W == [Span(b, e)] + R;
        forall j | i <= j < |s| && s[j] !in sep ensures Covered(W, j) {
          if j < e {
            assert W[0].lo <= j < W[0].hi;
          } else {
            assert Covered(R, j);
            var k :| 0 <= k < |R| && R[k].lo <= j < R[k].hi;
            assert W[k + 1] == R[k];
          }
        }
      } else {
        forall j | i <= j < |s| && s[j] !in sep ensures Covered(W, j) {
          assert W[0].lo <= j < W[0].hi;
        }
      }
    }
  }

  /** The number of pieces a routine records when its output array holds outSize entries. */
  function Clamp(outSize: int, available: nat): (n: nat)
    ensures n <= available && (outSize >= 0 ==> n <= outSize)
    ensures n < available ==> n == outSize || (outSize < 0 && n == 0)
  {
    if outSize <= 0 then 0 else if outSize < available then outSize else available
  }

  /** strspn on the buffer: the scan stops at the terminator or the first non-separator. */
  method ScanSeps(a: array<char>, p: nat, sep: seq<char>, ghost s: seq<char>) returns (b: nat)
    requires p <= |s| < a.Length && a[|s|] == '\0' && IsCString(s) && IsCString(sep)
    requires forall j | p <= j < |s| :: a[j] == s[j]
    ensures b == SkipSeps(s, p, sep)
  {
    b := p;
    while a[b] != '\0' && a[b] in sep
      invariant p <= b <= |s| && SkipSeps(s, b, sep) == SkipSeps(s, p, sep)
      decreases |s| - b
    {
      b := b + 1;
    }
  }

  /** strcspn on the buffer: the scan stops at the terminator or the first separator. */
  method ScanWord(a: array<char>, p: nat, sep: seq<char>, ghost s: seq<char>) returns (e: nat)
    requires p <= |s| < a.Length && a[|s|] == '\0' && IsCString(s)
    requires forall j | p <= j < |s| :: a[j] == s[j]
    ensures e == SkipWord(s, p, sep)
  {
    e := p;
    while a[e] != '\0' && a[e] !in sep
      invariant p <= e <= |s| && SkipWord(s, e, sep) == SkipWord(s, p, sep)
      decreases |s| - e
    {
      e := e + 1;
    }
  }

  /** One word further: the next word of W is the one found from p, and the rest follow its separator. */
  lemma WordsAdvance(s: seq<char>, p: nat, sep: seq<char>, W: seq<Span>, count: nat, b: nat, e: nat)
    requires p <= |s| && count <= |W| && W[count..] == WordsFrom(s, p, sep)
    requires b == SkipSeps(s, p, sep) < |s| && e == SkipWord(s, b, sep)
    ensures count < |W| && W[count] == Span(b, e)
    ensures e == |s| ==> count + 1 == |W|
    ensures e < |s| ==> W[count + 1..] == WordsFrom(s, e + 1, sep)
  {
    assert W[count..][1..] == W[count + 1..];
  }

  /**
   * The part of chopString's loop state that does not live in the arrays:
   * count words of W recorded, the rest of them to be found from p on, and
   * z the ends of the recorded words when out is not null.
   */
  ghost predicate ChopScan(sep: seq<char>, buf: seq<char>, s: seq<char>, W: seq<Span>, count: nat, p: nat,
                           z: set<int>, hasOut: bool)
  {
    && |s| < |buf| && buf[|s|] == '\0' && IsCString(s) && (forall j | 0 <= j < |s| :: buf[j] == s[j])
    && p <= |s| && count <= |W|
    && W[count..] == WordsFrom(s, p, sep)
    && z == (if hasOut then Ends(W[..count]) else {})
    && (forall j | j in z :: j < p || j == |s|)
  }

  /** The buffer holds its original contents with a terminator written at each index of z. */
  ghost predicate Zeroed(a: array<char>, buf: seq<char>, z: set<int>)
    reads a
  {
    |buf| == a.Length && forall j | 0 <= j < a.Length :: a[j] == if j in z then '\0' else buf[j]
  }

  /** The output array holds the starts of the first count words, and its old contents after them. */
  ghost predicate Recorded(out: array<nat>, outSize: int, outBefore: seq<nat>, W: seq<Span>, count: nat)
    reads out
    requires count <= |W|
  {
    && (count == 0 || count <= outSize) && outSize <= out.Length && |outBefore| == out.Length
    && (forall k | 0 <= k < count :: out[k] == W[k].lo)
    && (forall k | count <= k < out.Length :: out[k] == outBefore[k])
  }

  /** The state of chopString's walk at the top of its loop. */
  ghost predicate ChopState(a: array<char>, out: array?<nat>, outSize: int, sep: seq<char>, buf: seq<char>, s: seq<char>,
                            outBefore: seq<nat>, W: seq<Span>, count: nat, p: nat, z: set<int>)
    reads a, out
  {
    && ChopScan(sep, buf, s, W, count, p, z, out != null)
    && Zeroed(a, buf, z)
    && (out != null ==> Recorded(out, outSize, outBefore, W, count))
  }

  /**
   * Past p, where no terminator has been written except possibly at the end
   * of the string, the buffer still holds the string and its terminator.
   */
  lemma Unwritten(a: array<char>, buf: seq<char>, s: seq<char>, z: set<int>, p: nat)
    requires Zeroed(a, buf, z) && |s| < |buf| && buf[|s|] == '\0'
    requires forall j | 0 <= j < |s| :: buf[j] == s[j]
    requires forall j | j in z :: j < p || j == |s|
    ensures forall j | p <= j < |s| :: a[j] == s[j]
    ensures a[|s|] == '\0'
  {
    forall j | p <= j < |s| ensures a[j] == s[j] {
      assert j !in z;
    }
  }

  /** The scan state after one more word, found at b .. e. */
  lemma ChopScanAdvance(sep: seq<char>, buf: seq<char>, s: seq<char>, W: seq<Span>, count: nat, p: nat,
                        z: set<int>, hasOut: bool, b: nat, e: nat)
    requires ChopScan(sep, buf, s, W, count, p, z, hasOut)
    requires b == SkipSeps(s, p, sep) < |s| && e == SkipWord(s, b, sep)
    ensures count < |W| && W[count] == Span(b, e) && p <= b < e <= |s|
    ensures e == |s| ==> count + 1 == |W|
    ensures var z' := if hasOut then z + {e} else z;
      && (e < |s| ==> ChopScan(sep, buf, s, W, count + 1, e + 1, z', hasOut))
      && (e == |s| ==> ChopScan(sep, buf, s, W, count + 1, e, z', hasOut))
  {
    WordsAdvance(s, p, sep, W, count, b, e);
    assert W[..count] + [Span(b, e)] == W[..count + 1];
    EndsAppend(W[..count], Span(b, e));
    if e == |s| {
      assert W[count + 1..] == [];
    }
  }

  /**
   * One turn of chopString's loop: skip separators; at the end of the string
   * stop; else go on to the word.
   */
  method ChopStep(a: array<char>, sep: seq<char>, out: array?<nat>, outSize: int, count: nat, p: nat,
                  ghost buf: seq<char>, ghost s: seq<char>, ghost outBefore: seq<nat>, ghost W: seq<Span>, ghost z: set<int>)
    returns (count': nat, p': nat, stop: bool, ghost z': set<int>)
    requires IsCString(sep) && ChopState(a, out, outSize, sep, buf, s, outBefore, W, count, p, z)
    requires out != null ==> count < outSize
    modifies a, out
    ensures ChopState(a, out, outSize, sep, buf, s, outBefore, W, count', p', z')
    ensures stop ==> count' == |W|
    ensures !stop ==> p' > p
  {
    Unwritten(a, buf, s, z, p);
    var b := ScanSeps(a, p, sep, s);
    if a[b] == '\0' {
      assert W[count..] == [];
      return count, p, true, z;
    }
    count', p', stop, z' := ChopWord(a, sep, out, outSize, count, p, b, buf, s, outBefore, W, z);
  }

  /**
   * The rest of a turn of chopString's loop, at the word starting at b:
   * record it, find its end, and unless the string ends there write a
   * terminator over the separator and step past it.
   */
  method ChopWord(a: array<char>, sep: seq<char>, out: array?<nat>, outSize: int, count: nat, p: nat, b: nat,
                  ghost buf: seq<char>, ghost s: seq<char>, ghost outBefore: seq<nat>, ghost W: seq<Span>, ghost z: set<int>)
    returns (count': nat, p': nat, stop: bool, ghost z': set<int>)
    requires IsCString(sep) && ChopState(a, out, outSize, sep, buf, s, outBefore, W, count, p, z)
    requires out != null ==> count < outSize
    requires b == SkipSeps(s, p, sep) < |s|
    modifies a, out
    ensures ChopState(a, out, outSize, sep, buf, s, outBefore, W, count', p', z')
    ensures stop ==> count' == |W|
    ensures !stop ==> p' > p
  {
    Unwritten(a, buf, s, z, b);
    var e := ScanWord(a, b, sep, s);
    ChopScanAdvance(sep, buf, s, W, count, p, z, out != null, b, e);
    if out != null {
      RecordStart(out, outSize, outBefore, W, count, b);
    }
    z' := if out != null then z + {e} else z;
    stop := EndPiece(a, buf, z, e, out != null);
    assert stop <==> e == |s|;
    if stop {
      return count + 1, e, true, z';
    }
    return count + 1, e + 1, false, z';
  }

  /** Records the start b of piece number count in out. */
  method RecordStart(out: array<nat>, outSize: int, ghost outBefore: seq<nat>, ghost W: seq<Span>, count: nat, b: nat)
    requires count < |W| && W[count].lo == b && count < outSize
    requires Recorded(out, outSize, outBefore, W, count)
    modifies out
    ensures Recorded(out, outSize, outBefore, W, count + 1)
  {
    out[count] := b;
  }

  /**
   * At the end e of a piece: reports whether the string ends there, and
   * otherwise, when write is set, overwrites the separator with '\0'.
   */
  method EndPiece(a: array<char>, ghost buf: seq<char>, ghost z: set<int>, e: nat, write: bool) returns (ended: bool)
    requires Zeroed(a, buf, z) && e < a.Length && (e in z ==> buf[e] == '\0')
    modifies a
    ensures ended <==> buf[e] == '\0'
    ensures Zeroed(a, buf, if write then z + {e} else z)
  {
    ended := a[e] == '\0';
    if !ended && write {
      a[e] := '\0';
    }
  }

  /**
   * chopString: skips runs of separators, records the start of each word in
   * out and ends it with '\0' there, until out holds outSize words or the
   * string ends.  With a null out it only counts, and leaves the buffer alone.
   */
  method ChopString(a: array<char>, sep: seq<char>, out: array?<nat>, outSize: int) returns (count: nat)
    requires '\0' in a[..] && IsCString(sep)
    requires out != null ==> outSize <= out.Length
    modifies a, out
    ensures var W := Words(CString(old(a[..])), sep);
      && count == (if out == null then |W| else Clamp(outSize, |W|))
      && a[..] == ZeroAt(old(a[..]), if out == null then {} else Ends(W[..count]))
      && (out != null ==> forall k | 0 <= k < count :: out[k] == W[k].lo)
    ensures out != null ==> forall k | count <= k < out.Length :: out[k] == old(out[k])
  {
    ghost var buf := a[..];
    ghost var s := CString(buf);
    ghost var W := Words(s, sep);
    ghost var outBefore: seq<nat> := if out == null then [] else out[..];
    ghost var z: set<int> := {};
    var p := 0;
    count := 0;
    while true
      invariant ChopState(a, out, outSize, sep, buf, s, outBefore, W, count, p, z)
      decreases |s| - p
    {
      if out != null && count >= outSize {
        break;
      }
      var stop;
      count, p, stop, z := ChopStep(a, sep, out, outSize, count, p, buf, s, outBefore, W, z);
      if stop {
        break;
      }
    }
    ZeroAtPointwise(a[..], buf, z);
  }

  /**
   * In a buffer holding the C string s, with a terminator written at the end
   * of each of the first count of the ordered spans ws, the C string starting
   * at span k is exactly the text of that span.
   */
  lemma SpanReadBack(buf: seq<char>, ws: seq<Span>, count: nat, k: nat)
    requires '\0' in buf && k < count <= |ws|
    requires Within(ws, |CString(buf)|) && Ordered(ws)
    ensures var a := ZeroAt(buf, Ends(ws[..count]));
      && ws[k].lo <= ws[k].hi <= |CString(buf)| < |a|
      && '\0' in a[ws[k].lo..] && CString(a[ws[k].lo..]) == CString(buf)[ws[k].lo..ws[k].hi]
  {
    var s := CString(buf);
    var z := Ends(ws[..count]);
    var a := ZeroAt(buf, z);
    var lo, hi := ws[k].lo, ws[k].hi;
    assert ws[..count][k] == ws[k];
    assert hi in z;
    forall j | lo <= j < hi ensures a[j] == s[j] {
      forall m | 0 <= m < count ensures ws[..count][m].hi != j {
        assert ws[..count][m] == ws[m];
      }
    }
    assert a[lo..][..hi - lo] == s[lo..hi];
    TerminatedAt(a[lo..], hi - lo);
  }

  /** After chopString each recorded start points at a C string that is exactly its word. */
  lemma ChoppedReadBack(buf: seq<char>, sep: seq<char>, count: nat, k: nat)
    requires '\0' in buf && k < count <= |Words(CString(buf), sep)|
    ensures var W := Words(CString(buf), sep);
      var a := ZeroAt(buf, Ends(W[..count]));
      && W[k].lo < W[k].hi <= |CString(buf)| < |a|
      && '\0' in a[W[k].lo..] && CString(a[W[k].lo..]) == CString(buf)[W[k].lo..W[k].hi]
  {
    var W := Words(CString(buf), sep);
    assert W == WordsFrom(CString(buf), 0, sep);
    WordsFromShape(CString(buf), 0, sep);
    assert Within(W, |CString(buf)|) by {
      forall m | 0 <= m < |W| ensures W[m].lo <= W[m].hi <= |CString(buf)| {
        assert WordShaped(CString(buf), W[m], sep, 0);
      }
    }
    SpanReadBack(buf, W, count, k);
  }

  // ---------------------------------------------------------------------
  // chopByChar

  /** strchr without the terminator: the first index at or after i holding c, or |s|. */
  function FindChar(s: seq<char>, i: nat, c: char): (j: nat)
    requires i <= |s|
    ensures i <= j <= |s| && (j < |s| ==> s[j] == c)
    decreases |s| - i
  {
    if i == |s| || s[i] == c then i else FindChar(s, i + 1, c)
  }

  /** Appending c to s does not move the first c found in s, and puts one at |s| when there was none. */
  lemma {:induction false} FindCharExtended(s: seq<char>, i: nat, c: char)
    requires i <= |s|
    ensures FindChar(s + [c], i, c) == FindChar(s, i, c)
    decreases |s| - i
  {
    if i < |s| && s[i] != c {
      assert (s + [c])[i] == s[i];
      FindCharExtended(s, i + 1, c);
    } else if i < |s| {
      assert (s + [c])[i] == c;
    } else {
      assert (s + [c])[i] == c;
    }
  }

  /** strchr skips only characters other than c. */
  lemma {:induction false} FindCharSkipped(s: seq<char>, i: nat, c: char)
    requires i <= |s|
    ensures forall k | i <= k < FindChar(s, i, c) :: s[k] != c
    decreases |s| - i
  {
    if i < |s| && s[i] != c {
      FindCharSkipped(s, i + 1, c);
    }
  }

  /** The fields of s from index i on: the runs between occurrences of ch, empty ones included. */
  function FieldsFrom(s: seq<char>, i: nat, ch: char): (r: seq<Span>)
    requires i <= |s|
    ensures |r| > 0 && r[0].lo == i
    decreases |s| - i
  {
    var e := FindChar(s, i, ch);
    if e == |s| then [Span(i, e)] else [Span(i, e)] + FieldsFrom(s, e + 1, ch)
  }

  /** The fields chopByChar finds: none in the empty string. */
  function Fields(s: seq<char>, ch: char): seq<Span>
  {
    if |s| == 0 then [] else FieldsFrom(s, 0, ch)
  }

  /** The texts of the spans ws of s. */
  function Texts(s: seq<char>, ws: seq<Span>): (r: seq<seq<char>>)
    requires Within(ws, |s|)
    ensures |r| == |ws| && forall k | 0 <= k < |ws| :: r[k] == s[ws[k].lo..ws[k].hi]
  {
    seq(|ws|, k requires 0 <= k < |ws| => s[ws[k].lo..ws[k].hi])
  }

  /** The pieces joined back together with c between neighbours. */
  function Join(pieces: seq<seq<char>>, c: char): (r: seq<char>)
  {
    if |pieces| == 0 then []
    else if |pieces| == 1 then pieces[0]
    else pieces[0] + [c] + Join(pieces[1..], c)
  }

  /** A slice is split by one of its characters into the part before it, the character and the part after. */
  lemma SplitAt(s: seq<char>, lo: nat, m: nat, hi: nat)
    requires lo <= m < hi <= |s|
    ensures s[lo..hi] == s[lo..m] + [s[m]] + s[m + 1..hi]
  {
  }

  /** Joining a piece in front of more pieces puts c between it and their join. */
  lemma JoinCons(x: seq<char>, R: seq<seq<char>>, c: char)
    requires |R| > 0
    ensures Join([x] + R, c) == x + [c] + Join(R, c)
  {
    assert ([x] + R)[1..] == R;
  }

  /** A slice of s joined back: the piece before the c at e, then the pieces that join to the rest. */
  lemma JoinGlue(s: seq<char>, i: nat, e: nat, hi: nat, x: seq<char>, R: seq<seq<char>>, c: char)
    requires i <= e < hi <= |s| && s[e] == c && x == s[i..e]
    requires |R| > 0 && Join(R, c) == s[e + 1..hi]
    ensures Join([x] + R, c) == s[i..hi]
    ensures hi == |s| ==> Join([x] + R, c) == s[i..]
  {
    JoinCons(x, R, c);
    SplitAt(s, i, e, hi);
  }

  /** A field found from i on: a run of s without ch. */
  ghost predicate FieldShaped(s: seq<char>, f: Span, ch: char, i: nat)
  {
    i <= f.lo <= f.hi <= |s| && Lacks(s, f, ch)
  }

  /**
   * The fields of s from i on: ordered runs without ch, the last ending at
   * the end of s.  That the gaps between them are single ch's is stated by
   * the join round trip, FieldsJoin.
   */
  ghost predicate FieldsShaped(s: seq<char>, F: seq<Span>, ch: char, i: nat)
  {
    && |F| > 0 && F[|F| - 1].hi == |s| && Ordered(F)
    && forall k | 0 <= k < |F| :: FieldShaped(s, F[k], ch, i)
  }

  /** The fields chopByChar finds have the shape of fields. */
  lemma {:induction false} FieldsFromShape(s: seq<char>, i: nat, ch: char)
    requires i <= |s|
    ensures FieldsShaped(s, FieldsFrom(s, i, ch), ch, i)
    decreases |s| - i
  {
    var e := FindChar(s, i, ch);
    FindCharSkipped(s, i, ch);
    var F := FieldsFrom(s, i, ch);
    assert FieldShaped(s, Span(i, e), ch, i);
    if e < |s| {
      var R := FieldsFrom(s, e + 1, ch);
      FieldsFromShape(s, e + 1, ch);
      FieldsNextShape(s, i, e, ch, F, R);
    } else {
      assert F == [Span(i, e)];
    }
  }

  /** The inductive step of FieldsFromShape: a field, a ch, then fields found further on. */
  lemma FieldsNextShape(s: seq<char>, i: nat, e: nat, ch: char, F: seq<Span>, R: seq<Span>)
    requires i <= e < |s| && F == [Span(i, e)] + R
    requires FieldShaped(s, Span(i, e), ch, i) && FieldsShaped(s, R, ch, e + 1)
    ensures FieldsShaped(s, F, ch, i)
  {
    forall k | 1 <= k < |F| ensures F[k].lo > e && FieldShaped(s, F[k], ch, i) {
      assert F[k] == R[k - 1];
      assert FieldShaped(s, R[k - 1], ch, e + 1);
    }
    assert F[0] == Span(i, e) && F[|F| - 1] == R[|R| - 1];
    forall k1, k2 | 0 <= k1 < k2 < |F| ensures F[k1].hi < F[k2].lo {
      if k1 > 0 {
        assert F[k1] == R[k1 - 1] && F[k2] == R[k2 - 1];
      }
    }
  }

  /** The fields from i on lie within s. */
  lemma {:induction false} FieldsFromWithin(s: seq<char>, i: nat, ch: char)
    requires i <= |s|
    ensures Within(FieldsFrom(s, i, ch), |s|)
    decreases |s| - i
  {
    var e := FindChar(s, i, ch);
    var F := FieldsFrom(s, i, ch);
    if e < |s| {
      var R := FieldsFrom(s, e + 1, ch);
      FieldsFromWithin(s, e + 1, ch);
      assert F == [Span(i, e)] + R;
      assert forall k | 1 <= k < |F| :: F[k] == R[k - 1];
    }
  }

  /** The texts of a span followed by more spans. */
  lemma TextsCons(s: seq<char>, sp: Span, R: seq<Span>)
    requires Within([sp] + R, |s|)
    ensures sp.lo <= sp.hi <= |s| && Within(R, |s|)
    ensures var T := Texts(s, [sp] + R); T[0] == s[sp.lo..sp.hi] && T[1..] == Texts(s, R)
  {
    var F := [sp] + R;
    assert F[0] == sp;
    forall k | 0 <= k < |R| ensures R[k].lo <= R[k].hi <= |s| {
      assert F[k + 1] == R[k];
    }
    var T := Texts(s, F);
    var U := Texts(s, R);
    forall k | 0 <= k < |R| ensures T[1..][k] == U[k] {
      assert F[k + 1] == R[k];
      assert T[1..][k] == T[k + 1];
    }
  }

  /** Joining the fields of s with ch gives s back. */
  lemma {:induction false} FieldsFromJoin(s: seq<char>, i: nat, ch: char)
    requires i <= |s|
    ensures Within(FieldsFrom(s, i, ch), |s|) && Join(Texts(s, FieldsFrom(s, i, ch)), ch) == s[i..]
    decreases |s| - i
  {
    FieldsFromWithin(s, i, ch);
    var e := FindChar(s, i, ch);
    if e < |s| {
      FieldsFromJoin(s, e + 1, ch);
      JoinNextField(s, i, e, ch);
    } else {
      assert FieldsFrom(s, i, ch) == [Span(i, e)];
    }
  }

  /** The inductive step of FieldsFromJoin: one field, a ch, then the rest. */
  lemma JoinNextField(s: seq<char>, i: nat, e: nat, ch: char)
    requires i <= e < |s| && e == FindChar(s, i, ch)
    requires Within(FieldsFrom(s, e + 1, ch), |s|) && Join(Texts(s, FieldsFrom(s, e + 1, ch)), ch) == s[e + 1..]
    ensures Within(FieldsFrom(s, i, ch), |s|) && Join(Texts(s, FieldsFrom(s, i, ch)), ch) == s[i..]
  {
    var R := FieldsFrom(s, e + 1, ch);
    assert FieldsFrom(s, i, ch) == [Span(i, e)] + R;
    assert Within([Span(i, e)] + R, |s|);
    TextsCons(s, Span(i, e), R);
    assert s[e + 1..] == s[e + 1..|s|];
    JoinGlue(s, i, e, |s|, s[i..e], Texts(s, R), ch);
  }

  /** chopByChar's fields are the inverse of joining: they join back to s and none holds the chopper. */
  lemma FieldsJoin(s: seq<char>, ch: char)
    ensures Within(Fields(s, ch), |s|) && Join(Texts(s, Fields(s, ch)), ch) == s
    ensures forall k | 0 <= k < |Fields(s, ch)| :: ch !in Texts(s, Fields(s, ch))[k]
  {
    if |s| > 0 {
      FieldsFromJoin(s, 0, ch);
      FieldsFromShape(s, 0, ch);
      var F := Fields(s, ch);
      forall k | 0 <= k < |F| ensures ch !in Texts(s, F)[k] {
        assert FieldShaped(s, F[k], ch, 0);
        var t := s[F[k].lo..F[k].hi];
        forall j | 0 <= j < |t| ensures t[j] != ch {
          assert t[j] == s[F[k].lo + j];
        }
      }
    }
  }

  /**
   * The part of chopByChar's loop state that does not live in the arrays:
   * count fields of F recorded, at least one more to come from p on, and z
   * the ends of the recorded fields when out is not null.
   */
  ghost predicate FieldScan(ch: char, buf: seq<char>, s: seq<char>, F: seq<Span>, count: nat, p: nat,
                            z: set<int>, hasOut: bool)
  {
    && |s| < |buf| && buf[|s|] == '\0' && IsCString(s) && (forall j | 0 <= j < |s| :: buf[j] == s[j])
    && p <= |s| && count < |F|
    && F[count..] == FieldsFrom(s, p, ch)
    && z == (if hasOut then Ends(F[..count]) else {})
    && (forall j | j in z :: j < p)
  }

  /** The state of chopByChar's walk at the top of its loop. */
  ghost predicate ByCharState(a: array<char>, out: array?<nat>, outSize: int, ch: char, buf: seq<char>, s: seq<char>,
                              outBefore: seq<nat>, F: seq<Span>, count: nat, p: nat, z: set<int>)
    reads a, out
  {
    && FieldScan(ch, buf, s, F, count, p, z, out != null)
    && Zeroed(a, buf, z)
    && (out != null ==> Recorded(out, outSize, outBefore, F, count))
  }

  /** The state chopByChar ends in once it has recorded every field of F. */
  ghost predicate ByCharDone(a: array<char>, out: array?<nat>, outSize: int, buf: seq<char>,
                             outBefore: seq<nat>, F: seq<Span>, z: set<int>)
    reads a, out
  {
    && z == (if out != null then Ends(F) else {})
    && Zeroed(a, buf, z)
    && (out != null ==> Recorded(out, outSize, outBefore, F, |F|))
  }

  /** The inner loop of chopByChar: reads up to the terminator or the first chopper. */
  method ScanField(a: array<char>, p: nat, ch: char, ghost s: seq<char>) returns (e: nat)
    requires p <= |s| < a.Length && a[|s|] == '\0' && IsCString(s)
    requires forall j | p <= j < |s| :: a[j] == s[j]
    ensures e == FindChar(s, p, ch)
  {
    e := p;
    while a[e] != '\0' && a[e] != ch
      invariant p <= e <= |s| && FindChar(s, e, ch) == FindChar(s, p, ch)
      decreases |s| - e
    {
      e := e + 1;
    }
  }

  /** The scan state after one more field, found at p .. e. */
  lemma FieldScanAdvance(ch: char, buf: seq<char>, s: seq<char>, F: seq<Span>, count: nat, p: nat,
                         z: set<int>, hasOut: bool, e: nat)
    requires FieldScan(ch, buf, s, F, count, p, z, hasOut)
    requires e == FindChar(s, p, ch)
    ensures F[count] == Span(p, e)
    ensures var z' := if hasOut then z + {e} else z;
      && (e < |s| ==> FieldScan(ch, buf, s, F, count + 1, e + 1, z', hasOut))
      && (e == |s| ==> count + 1 == |F| && z' == (if hasOut then Ends(F) else {}))
  {
    var R := FieldsFrom(s, p, ch);
    assert F[count..][1..] == F[count + 1..];
    assert F[..count] + [Span(p, e)] == F[..count + 1];
    EndsAppend(F[..count], Span(p, e));
    if e == |s| {
      assert F[..count + 1] == F;
    }
  }

  /**
   * One turn of chopByChar's outer loop: record the field's start, read up to
   * the terminator (stop) or the chopper, which is overwritten with '\0' when
   * out is not null.
   */
  method FieldStep(a: array<char>, ch: char, out: array?<nat>, outSize: int, count: nat, p: nat,
                   ghost buf: seq<char>, ghost s: seq<char>, ghost outBefore: seq<nat>, ghost F: seq<Span>, ghost z: set<int>)
    returns (count': nat, p': nat, stop: bool, ghost z': set<int>)
    requires ByCharState(a, out, outSize, ch, buf, s, outBefore, F, count, p, z)
    requires out != null ==> count < outSize
    modifies a, out
    ensures !stop ==> p' > p && ByCharState(a, out, outSize, ch, buf, s, outBefore, F, count', p', z')
    ensures stop ==> count' == |F| && ByCharDone(a, out, outSize, buf, outBefore, F, z')
  {
    Unwritten(a, buf, s, z, p);
    var e := ScanField(a, p, ch, s);
    FieldScanAdvance(ch, buf, s, F, count, p, z, out != null, e);
    if out != null {
      RecordStart(out, outSize, outBefore, F, count, p);
    }
    z' := if out != null then z + {e} else z;
    stop := EndPiece(a, buf, z, e, out != null);
    assert stop <==> e == |s|;
    count' := count + 1;
    p' := if stop then e else e + 1;
  }

  /**
   * chopByChar: nothing in an empty string; otherwise records the start of
   * each field, overwriting the chopper after it with '\0', until out holds
   * outSize fields or the string ends.  With a null out it only counts, and
   * leaves the buffer alone.
   */
  method ChopByChar(a: array<char>, chopper: char, out: array?<nat>, outSize: int) returns (count: nat)
    requires '\0' in a[..]
    requires out != null ==> outSize <= out.Length
    modifies a, out
    ensures var F := Fields(CString(old(a[..])), chopper);
      && count == (if out == null then |F| else Clamp(outSize, |F|))
      && a[..] == ZeroAt(old(a[..]), if out == null then {} else Ends(F[..count]))
      && (out != null ==> forall k | 0 <= k < count :: out[k] == F[k].lo)
    ensures out != null ==> forall k | count <= k < out.Length :: out[k] == old(out[k])
  {
    ghost var buf := a[..];
    ghost var s := CString(buf);
    ghost var F := Fields(s, chopper);
    ghost var outBefore: seq<nat> := if out == null then [] else out[..];
    ghost var z: set<int> := {};
    if a[0] == '\0' {
      assert |s| == 0;
      ZeroAtPointwise(a[..], buf, z);
      return 0;
    }
    assert F == FieldsFrom(s, 0, chopper);
    var p := 0;
    count := 0;
    while count < outSize || out == null
      invariant ByCharState(a, out, outSize, chopper, buf, s, outBefore, F, count, p, z)
      decreases |s| - p
    {
      var stop;
      count, p, stop, z := FieldStep(a, chopper, out, outSize, count, p, buf, s, outBefore, F, z);
      if stop {
        assert F[..count] == F;
        ZeroAtPointwise(a[..], buf, z);
        return;
      }
    }
    ZeroAtPointwise(a[..], buf, z);
  }

  /** After chopByChar each recorded start points at a C string that is exactly its field. */
  lemma ChoppedFieldReadBack(buf: seq<char>, ch: char, count: nat, k: nat)
    requires '\0' in buf && k < count <= |Fields(CString(buf), ch)|
    ensures var F := Fields(CString(buf), ch);
      var a := ZeroAt(buf, Ends(F[..count]));
      && F[k].lo <= F[k].hi <= |CString(buf)| < |a|
      && '\0' in a[F[k].lo..] && CString(a[F[k].lo..]) == CString(buf)[F[k].lo..F[k].hi]
  {
    var F := Fields(CString(buf), ch);
    FieldsFromShape(CString(buf), 0, ch);
    assert Within(F, |CString(buf)|) by {
      forall m | 0 <= m < |F| ensures F[m].lo <= F[m].hi <= |CString(buf)| {
        assert FieldShaped(CString(buf), F[m], ch, 0);
      }
    }
    SpanReadBack(buf, F, count, k);
  }
}
