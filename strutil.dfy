/**
 * String predicates and in-place string editing from common.c: startsWith,
 * endsWith, stripChar, eraseWhiteSpace and the bounds-checked copies safecpy
 * and safecat.  A C string argument is a character sequence without its
 * terminator; a buffer the routine writes into is an array whose C string
 * ends at its first '\0'.
 */
module StrUtil {
  import opened CLib
  import opened Wrappers

  // ---------------------------------------------------------------------
  // startsWith, endsWith

  /** startsWith: compares character by character until the end of `start`. */
  method StartsWith(start: seq<char>, s: seq<char>) returns (r: bool)
    requires IsCString(start) && IsCString(s)
    ensures r <==> exists k | 0 <= k <= |s| :: s[..k] == start
  {
    var i := 0;
    while true
      invariant 0 <= i <= |start| && i <= |s|
      invariant s[..i] == start[..i]
      decreases |start| - i
    {
      var c := if i < |start| then start[i] else '\0';
      if c == '\0' {
        assert s[..i] == start;
        return true;
      }
      var d := if i < |s| then s[i] else '\0';
      if d != c {
        forall k | 0 <= k <= |s| ensures s[..k] != start {
          if k == |start| {
            assert s[..k][i] != start[i];
          }
        }
        return false;
      }
      i := i + 1;
    }
  }

  /** endsWith: false when `end` is longer than `s`, else compares the tails. */
  function EndsWith(s: seq<char>, end: seq<char>): (r: bool)
    ensures r <==> exists k | 0 <= k <= |s| :: s[k..] == end
  {
    var offset := |s| - |end|;
    if offset < 0 then false
    else
      assert forall k | 0 <= k <= |s| && s[k..] == end :: k == offset;
      s[offset..] == end
  }

  // ---------------------------------------------------------------------
  // stripChar, eraseWhiteSpace

  /** The characters of s that satisfy keep, in their original order. */
  function Filter(s: seq<char>, keep: char -> bool): (r: seq<char>)
    ensures |r| <= |s|
  {
    if |s| == 0 then [] else Filter(s[..|s| - 1], keep) + (if keep(s[|s| - 1]) then [s[|s| - 1]] else [])
  }

  /** Filtering keeps every occurrence of the characters it keeps and none of the others. */
  lemma {:induction false} FilterCounts(s: seq<char>, keep: char -> bool)
    ensures forall x :: multiset(Filter(s, keep))[x] == if keep(x) then multiset(s)[x] else 0
  {
    if |s| > 0 {
      var init := s[..|s| - 1];
      assert s == init + [s[|s| - 1]];
      FilterCounts(init, keep);
    }
  }

  /** A C string is still a C string after filtering. */
  lemma FilterCString(s: seq<char>, keep: char -> bool)
    requires IsCString(s)
    ensures IsCString(Filter(s, keep))
  {
    var r := Filter(s, keep);
    FilterCounts(s, keep);
    forall i | 0 <= i < |r| ensures r[i] != '\0' {
      assert r[i] in multiset(r);
      assert '\0' !in multiset(s);
    }
  }

  /**
   * The buffer a, compared with its earlier contents before, now starts with
   * the filtered C string and its terminator; bytes after it are untouched.
   */
  ghost predicate Compacted(a: seq<char>, before: seq<char>, keep: char -> bool)
    requires '\0' in before && |a| == |before|
  {
    var r := Filter(CString(before), keep);
    |r| < |a| && a[..|r|] == r && a[|r|] == '\0' && a[|r| + 1..] == before[|r| + 1..]
  }

  /** The pointwise facts the compacting loops establish give Compacted. */
  lemma CompactedAt(a: seq<char>, before: seq<char>, keep: char -> bool, o: nat)
    requires '\0' in before && |a| == |before| && o < |a|
    requires a[..o] == Filter(CString(before), keep) && a[o] == '\0'
    requires forall j | o < j < |a| :: a[j] == before[j]
    ensures Compacted(a, before, keep)
  {
  }

  /** Extending a prefix by one character extends its filter by at most that character. */
  lemma FilterStep(s: seq<char>, i: nat, keep: char -> bool)
    requires i < |s|
    ensures Filter(s[..i + 1], keep) == Filter(s[..i], keep) + (if keep(s[i]) then [s[i]] else [])
  {
    assert s[..i + 1][..i] == s[..i];
  }

  /** stripChar: removes every occurrence of c, copying each byte down to the write position. */
  method StripChar(a: array<char>, c: char)
    requires '\0' in a[..]
    modifies a
    ensures Compacted(a[..], old(a[..]), x => x != c)
  {
    ghost var s := CString(a[..]);
    ghost var keep := (x: char) => x != c;
    var i := 0;
    var o := 0;
    while true
      invariant 0 <= o <= i <= |s|
      invariant a[..o] == Filter(s[..i], keep)
      invariant forall j | i <= j < a.Length :: a[j] == old(a[j])
      invariant forall j | o < j < a.Length :: a[j] == old(a[j])
      decreases |s| - i
    {
      var b := a[i];
      a[o] := b;
      if b == '\0' {
        break;
      }
      FilterStep(s, i, keep);
      if b != c {
        o := o + 1;
      }
      i := i + 1;
    }
    assert s[..i] == s;
    CompactedAt(a[..], old(a[..]), keep, o);
  }

  /** eraseWhiteSpace: removes every white-space character, then writes the terminator. */
  method EraseWhiteSpace(a: array<char>)
    requires '\0' in a[..]
    modifies a
    ensures Compacted(a[..], old(a[..]), x => !IsSpace(x))
  {
    ghost var before := a[..];
    ghost var keep := (x: char) => !IsSpace(x);
    var i := 0;
    var o := 0;
    while true
      invariant Erasing(a[..], before, keep, i, o)
      decreases |CString(before)| - i
    {
      var c := a[i];
      ghost var cur := a[..];
      if c == '\0' {
        ErasingEnd(cur, before, keep, i, o);
      } else {
        ErasingStep(cur, before, keep, i, o, !IsSpace(c));
      }
      i := i + 1;
      if c == '\0' {
        break;
      }
      if !IsSpace(c) {
        a[o] := c;
        assert a[..] == cur[o := c];
        o := o + 1;
      }
    }
    ghost var fin := a[..];
    a[o] := '\0';
    assert a[..] == fin[o := '\0'];
  }

  /**
   * The state of eraseWhiteSpace after reading i characters of the C string
   * in before: the kept ones are written to cur[..o], and cur is untouched
   * from o on.
   */
  ghost predicate Erasing(cur: seq<char>, before: seq<char>, keep: char -> bool, i: nat, o: nat)
    requires '\0' in before
  {
    |cur| == |before| && o <= i <= |CString(before)|
    && cur[..o] == Filter(CString(before)[..i], keep)
    && cur[o..] == before[o..]
  }

  /** Reading a character that is not the terminator: it is written at o when kept. */
  lemma ErasingStep(cur: seq<char>, before: seq<char>, keep: char -> bool, i: nat, o: nat, kept: bool)
    requires '\0' in before && Erasing(cur, before, keep, i, o) && cur[i] != '\0' && kept == keep(cur[i])
    ensures i < |CString(before)| && cur[i] == before[i]
    ensures kept ==> Erasing(cur[o := cur[i]], before, keep, i + 1, o + 1)
    ensures !kept ==> Erasing(cur, before, keep, i + 1, o)
  {
    var s := CString(before);
    assert cur[i] == cur[o..][i - o] == before[o..][i - o] == before[i];
    assert i < |s|;
    FilterStep(s, i, keep);
    assert s[..i + 1] == s[..i] + [s[i]] && s[..i + 1][i] == before[i];
    if keep(cur[i]) {
      var next := cur[o := cur[i]];
      assert next[..o + 1] == cur[..o] + [before[i]];
      assert next[o + 1..] == cur[o + 1..] == before[o + 1..];
    }
  }

  /** Reading the terminator: the whole C string has been filtered into cur[..o]. */
  lemma ErasingEnd(cur: seq<char>, before: seq<char>, keep: char -> bool, i: nat, o: nat)
    requires '\0' in before && Erasing(cur, before, keep, i, o) && cur[i] == '\0'
    ensures o < |cur| && cur[..o] == Filter(CString(before), keep)
    ensures Compacted(cur[o := '\0'], before, keep)
  {
    var s := CString(before);
    assert cur[i] == cur[o..][i - o] == before[o..][i - o] == before[i];
    assert i == |s| && s[..i] == s;
    var done := cur[o := '\0'];
    assert done[..o] == cur[..o];
    assert done[o + 1..] == cur[o + 1..] == before[o + 1..];
  }

  /** After eraseWhiteSpace no white space is left and every other character keeps its count. */
  lemma EraseWhiteSpaceRemovesAll(before: seq<char>, after: seq<char>)
    requires '\0' in before && |after| == |before|
    requires Compacted(after, before, x => !IsSpace(x))
    ensures '\0' in after
    ensures forall x | IsSpace(x) :: x !in CString(after)
    ensures forall x | !IsSpace(x) :: multiset(CString(after))[x] == multiset(CString(before))[x]
  {
    var keep := (x: char) => !IsSpace(x);
    var r := Filter(CString(before), keep);
    FilterCString(CString(before), keep);
    assert after[|r|] == '\0';
    TerminatedAt(after, |r|);
    FilterCounts(CString(before), keep);
    forall x | IsSpace(x) ensures x !in r {
      assert multiset(r)[x] == 0;
    }
  }

  // ---------------------------------------------------------------------
  // safecpy, safecat
  //
  // Both compare the needed length with bufSize - 1 computed in size_t.  For
  // bufSize 0 that difference wraps to the largest size_t, so the check
  // passes and the copy writes past the buffer.  The functions below model
  // the check as written and the check as intended; the methods implement
  // the intended one.

  /** The largest size_t plus one, for the 64-bit size_t of the source's platforms. */
  const SizeMod: int := 0x1_0000_0000_0000_0000

  /** safecpy's overflow test as written: slen > bufSize - 1 in size_t arithmetic. */
  function SafecpyAbortsAsWritten(bufSize: nat, slen: nat): (abort: bool)
    requires bufSize < SizeMod && slen < SizeMod
    ensures bufSize > 0 ==> (abort <==> slen + 1 > bufSize)
  {
    slen > (bufSize - 1) % SizeMod
  }

  /** With bufSize 0 the test as written lets any string through, though none fits. */
  lemma SafecpyZeroSizeOverflows(slen: nat)
    requires slen < SizeMod
    ensures !SafecpyAbortsAsWritten(0, slen)
    ensures slen + 1 > 0
  {
  }

  /** The intended test: the string and its terminator need more than bufSize bytes. */
  predicate Overflows(bufSize: nat, needed: nat)
  {
    needed + 1 > bufSize
  }

  /** safecpy: aborts when src and its terminator do not fit, else copies them to the start of buf. */
  method Safecpy(buf: array<char>, bufSize: nat, src: seq<char>) returns (r: Result<()>)
    requires IsCString(src) && bufSize <= buf.Length
    modifies buf
    ensures r.Abort? <==> Overflows(bufSize, |src|)
    ensures r.Abort? ==> buf[..] == old(buf[..])
    ensures r.Ok? ==> |src| < buf.Length && buf[..|src| + 1] == src + ['\0']
    ensures r.Ok? ==> buf[|src| + 1..] == old(buf[|src| + 1..])
  {
    if Overflows(bufSize, |src|) {
      return Abort("buffer overflow");
    }
    forall i | 0 <= i < |src| {
      buf[i] := src[i];
    }
    buf[|src|] := '\0';
    return Ok(());
  }

  /** safecat: aborts when the joined string and its terminator do not fit, else appends src. */
  method Safecat(buf: array<char>, bufSize: nat, src: seq<char>) returns (r: Result<()>)
    requires IsCString(src) && bufSize <= buf.Length && '\0' in buf[..]
    modifies buf
    ensures var before := CString(old(buf[..]));
      && (r.Abort? <==> Overflows(bufSize, |before| + |src|))
      && (r.Abort? ==> buf[..] == old(buf[..]))
      && (r.Ok? ==> |before| + |src| < buf.Length
                    && buf[..|before| + |src| + 1] == before + src + ['\0']
                    && buf[|before| + |src| + 1..] == old(buf[|before| + |src| + 1..]))
  {
    var blen := StrLen(buf[..]);
    if Overflows(bufSize, blen + |src|) {
      return Abort("buffer overflow");
    }
    forall i | 0 <= i < |src| {
      buf[blen + i] := src[i];
    }
    buf[blen + |src|] := '\0';
    return Ok(());
  }

  /** A buffer that starts with a + b and a terminator holds the C string a + b. */
  lemma JoinedCString(s: seq<char>, a: seq<char>, b: seq<char>)
    requires IsCString(a) && IsCString(b)
    requires |a| + |b| < |s| && s[..|a| + |b| + 1] == a + b + ['\0']
    ensures '\0' in s && CString(s) == a + b
  {
    assert s[..|a| + |b|] == a + b;
    assert s[|a| + |b|] == s[..|a| + |b| + 1][|a| + |b|];
    TerminatedAt(s, |a| + |b|);
  }

  /** Copying then appending builds the concatenation, when it fits. */
  method SafecpyThenSafecat(buf: array<char>, bufSize: nat, a: seq<char>, b: seq<char>) returns (r: Result<()>)
    requires IsCString(a) && IsCString(b) && bufSize <= buf.Length
    modifies buf
    ensures r.Ok? <==> !Overflows(bufSize, |a| + |b|)
    ensures r.Ok? ==> '\0' in buf[..] && CString(buf[..]) == a + b
  {
    r := Safecpy(buf, bufSize, a);
    if r.Abort? {
      return;
    }
    assert buf[..][..|a|] == a;
    TerminatedAt(buf[..], |a|);
    ghost var mid := buf[..];
    assert CString(mid) == a;
    r := Safecat(buf, bufSize, b);
    if r.Ok? {
      JoinedCString(buf[..], a, b);
    }
  }
}
