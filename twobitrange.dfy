/**
 * The textual sequence specifications of the .2bit reader:
 * `file/path/name:seqName:start-end` (twoBitParseRange) and
 * `seqName:start-end` (parseSeqSpec).  Numbers are read with strtol in
 * base 0; the C int truncation of the long it returns is not modelled.
 */
module TwoBitRange {
  import opened Wrappers
  import opened CLib
  import TwoBit

  /** Index just after the last '/', or 0 when there is none: where strrchr leaves the last path component. */
  function AfterLastSlash(s: seq<char>): (r: nat)
    ensures r <= |s|
    ensures r > 0 ==> s[r - 1] == '/'
    ensures forall i | r <= i < |s| :: s[i] != '/'
  {
    if |s| == 0 then 0
    else if s[|s| - 1] == '/' then |s|
    else AfterLastSlash(s[..|s| - 1])
  }

  /**
   * What twoBitParseRange hands back: whether the text fits the format, the
   * file part, the sequence part (NULL until a ':' is found) and the range.
   * The fields hold what the out-parameters hold on return, also when the
   * result is FALSE.
   */
  datatype ParsedRange = ParsedRange(ok: bool, file: string, seqName: Option<string>, start: int, end: int)

  /** The first ':' of the last path component. */
  function FirstColon(s: seq<char>): Option<nat>
  {
    IndexFrom(s, ':', AfterLastSlash(s))
  }

  /** strchr for ':' on the text after position c, as twoBitParseRange searches past a colon it cut at. */
  function NextColon(s: seq<char>, c: nat): (r: Option<nat>)
    requires c < |s|
  {
    IndexFrom(s, ':', c + 1)
  }

  /** The text after position c. */
  function After(s: seq<char>, c: nat): (r: seq<char>)
    requires c < |s|
    ensures |r| == |s| - c - 1
  {
    s[c + 1..]
  }

  /** The ':' before the range, when there is a first one. */
  function SecondColon(s: seq<char>): Option<nat>
  {
    if FirstColon(s).None? then None else NextColon(s, FirstColon(s).value)
  }

  /** The positions twoBitParseRange overwrites with a terminator. */
  function Cuts(s: seq<char>): (r: set<nat>)
    ensures forall i | i in r :: i < |s| && s[i] == ':'
  {
    (if FirstColon(s).Some? then {FirstColon(s).value} else {}) +
    (if SecondColon(s).Some? then {SecondColon(s).value} else {})
  }

  /**
   * What follows the second ':': whether it is start '-' end and nothing
   * more, and the start and end twoBitParseRange stores.  The start is stored
   * once the '-' is seen, so it is kept when only the end is malformed.
   */
  datatype RangeNums = RangeNums(ok: bool, start: int, end: int)

  /** The two strtol calls of twoBitParseRange and parseSeqSpec on the text after the ':'. */
  function ReadRange(nums: seq<char>): (r: RangeNums)
    ensures !r.ok ==> r.end == 0
  {
    var (n, used) := StrToL(nums);
    if used == |nums| || nums[used] != '-' then RangeNums(false, 0, 0)
    else
      var tail := After(nums, used);
      var (m, used2) := StrToL(tail);
      if used2 != |tail| then RangeNums(false, n, 0) else RangeNums(true, n, m)
  }

  /** twoBitParseRange on the text of rangeSpec. */
  function ParseRange(s: seq<char>): (r: ParsedRange)
  {
    match FirstColon(s)
    case None => ParsedRange(false, s, None, 0, 0)
    case Some(c1) =>
      match NextColon(s, c1)
      case None => ParsedRange(true, s[..c1], Some(After(s, c1)), 0, 0)
      case Some(c2) =>
        var nums := ReadRange(After(s, c2));
        ParsedRange(nums.ok, s[..c1], Some(s[c1 + 1..c2]), nums.start, nums.end)
  }

  /**
   * twoBitParseRange on a buffer holding a C string.  The buffer is cut in
   * place: the colons found become terminators, the file name is the C string
   * at the start of the buffer and the sequence name the one at `seqAt`.
   */
  method TwoBitParseRange(buf: array<char>) returns (ok: bool, seqAt: Option<nat>, start: int, end: int)
    requires '\0' in buf[..]
    modifies buf
    ensures var s := old(CString(buf[..]));
      forall i | 0 <= i < buf.Length :: buf[i] == if i in Cuts(s) then '\0' else old(buf[i])
    ensures var p := ParseRange(old(CString(buf[..])));
      ok == p.ok && start == p.start && end == p.end && '\0' in buf[..] && CString(buf[..]) == p.file
    ensures var p := ParseRange(old(CString(buf[..])));
      seqAt.Some? <==> p.seqName.Some?
    ensures var p := ParseRange(old(CString(buf[..])));
      seqAt.Some? ==> seqAt.value < buf.Length && '\0' in buf[seqAt.value..] && CString(buf[seqAt.value..]) == p.seqName.value
  {
    var s := CString(buf[..]);
    var p, c1, c2 := SplitRange(s);
    ok, start, end := p.ok, p.start, p.end;
    seqAt := CutAtColons(buf, s, p, c1, c2);
  }

  /**
   * The writes of twoBitParseRange once the colons are found: nothing when
   * there is no first colon, otherwise terminators at the colons found, and
   * the sequence name starts after the first one.
   */
  method CutAtColons(buf: array<char>, ghost s: seq<char>, ghost p: ParsedRange, c1: Option<nat>, c2: Option<nat>)
    returns (seqAt: Option<nat>)
    requires '\0' in buf[..] && s == CString(buf[..])
    requires c1.None? ==> c2.None? && p.file == s && p.seqName.None?
    requires c1.Some? ==> c1.value < |s| && p.file == s[..c1.value]
    requires c1.Some? && c2.None? ==> p.seqName == Some(s[c1.value + 1..])
    requires c2.Some? ==> c1.Some? && c1.value < c2.value < |s| && p.seqName == Some(s[c1.value + 1..c2.value])
    modifies buf
    ensures forall i | 0 <= i < buf.Length ::
      buf[i] == if c1 == Some(i) || c2 == Some(i) then '\0' else old(buf[i])
    ensures '\0' in buf[..] && CString(buf[..]) == p.file
    ensures seqAt.Some? <==> p.seqName.Some?
    ensures seqAt.Some? ==> seqAt.value < buf.Length && '\0' in buf[seqAt.value..] && CString(buf[seqAt.value..]) == p.seqName.value
  {
    seqAt := None;
    if c1.Some? {
      TerminateAt(buf, c1.value, c2);
      seqAt := Some(c1.value + 1);
    }
  }

  /**
   * The searches and number reading of twoBitParseRange on the text, with
   * the colons it cuts at.
   */
  method SplitRange(s: seq<char>) returns (p: ParsedRange, c1: Option<nat>, c2: Option<nat>)
    ensures p == ParseRange(s) && c1 == FirstColon(s) && c2 == SecondColon(s)
    ensures c1.None? ==> c2.None? && p.file == s && p.seqName.None?
    ensures c1.Some? ==> c1.value < |s| && p.file == s[..c1.value]
    ensures c1.Some? && c2.None? ==> p.seqName == Some(s[c1.value + 1..])
    ensures c2.Some? ==> c1.Some? && c1.value < c2.value < |s| && p.seqName == Some(s[c1.value + 1..c2.value])
    ensures Cuts(s) == (if c1.None? then {} else if c2.None? then {c1.value} else {c1.value, c2.value})
  {
    c1 := IndexFrom(s, ':', AfterLastSlash(s));
    if c1.None? {
      NoColonNotRange(s);
      return ParsedRange(false, s, None, 0, 0), c1, None;
    }
    var c := c1.value;
    c2 := NextColon(s, c);
    if c2.None? {
      ShortRange(s, c);
      return ParsedRange(true, s[..c], Some(After(s, c)), 0, 0), c1, c2;
    }
    var nums := ReadRange(After(s, c2.value));
    FullRange(s, c, c2.value);
    p := ParsedRange(nums.ok, s[..c], Some(s[c + 1..c2.value]), nums.start, nums.end);
  }

  /**
   * The two writes of twoBitParseRange: a terminator at the first colon and,
   * when there is one, at the second; the buffer then holds the file name at
   * its start and the sequence name after the first colon.
   */
  method TerminateAt(buf: array<char>, c: nat, c2: Option<nat>)
    requires '\0' in buf[..] && c < |CString(buf[..])|
    requires c2.Some? ==> c < c2.value < |CString(buf[..])|
    modifies buf
    ensures forall i | 0 <= i < buf.Length :: buf[i] == if i == c || (c2.Some? && i == c2.value) then '\0' else old(buf[i])
    ensures '\0' in buf[..] && CString(buf[..]) == old(CString(buf[..]))[..c]
    ensures c + 1 < buf.Length && '\0' in buf[c + 1..]
    ensures c2.Some? ==> CString(buf[c + 1..]) == old(CString(buf[..]))[c + 1..c2.value]
    ensures c2.None? ==> CString(buf[c + 1..]) == old(CString(buf[..]))[c + 1..]
  {
    ghost var before := buf[..];
    ghost var s := CString(before);
    buf[c] := '\0';
    if c2.Some? {
      buf[c2.value] := '\0';
    }
    CutString(before, buf[..], c, if c2.Some? then c2.value else |s|);
  }

  /** The cases of ParseRange: one colon. */
  lemma ShortRange(s: seq<char>, c: nat)
    requires FirstColon(s) == Some(c) && NextColon(s, c).None?
    ensures ParseRange(s) == ParsedRange(true, s[..c], Some(After(s, c)), 0, 0)
    ensures Cuts(s) == {c}
  {
  }

  /** The cases of ParseRange: two colons. */
  lemma FullRange(s: seq<char>, c: nat, c2: nat)
    requires FirstColon(s) == Some(c) && NextColon(s, c) == Some(c2)
    ensures ParseRange(s) == ParsedRange(ReadRange(After(s, c2)).ok, s[..c], Some(s[c + 1..c2]),
      ReadRange(After(s, c2)).start, ReadRange(After(s, c2)).end)
    ensures Cuts(s) == {c, c2}
  {
  }

  /** Terminators written at c and at e (or already there) cut the C string into its part before c and the part from c+1 to e. */
  lemma CutString(before: seq<char>, after: seq<char>, c: nat, e: nat)
    requires '\0' in before && c < e <= |CString(before)| && |after| == |before|
    requires forall k | 0 <= k < |after| :: after[k] == if k == c || k == e then '\0' else before[k]
    ensures '\0' in after && CString(after) == CString(before)[..c]
    ensures '\0' in after[c + 1..] && CString(after[c + 1..]) == CString(before)[c + 1..e]
  {
    var s := CString(before);
    assert after[..c] == s[..c];
    TerminatedAt(after, c);
    var t := after[c + 1..];
    assert t[..e - c - 1] == s[c + 1..e];
    assert t[e - c - 1] == '\0';
    TerminatedAt(t, e - c - 1);
  }

  /** Without a ':' in the last path component the text is not a range; the file is all of it. */
  lemma NoColonNotRange(s: seq<char>)
    requires forall i | AfterLastSlash(s) <= i < |s| :: s[i] != ':'
    ensures FirstColon(s).None? && Cuts(s) == {}
    ensures ParseRange(s) == ParsedRange(false, s, None, 0, 0)
  {
  }

  /** Text after position n without '/' leaves the last path component starting where it did in s[..n]. */
  lemma {:induction false} AfterLastSlashPrefix(s: seq<char>, n: nat)
    requires n <= |s| && forall i | n <= i < |s| :: s[i] != '/'
    ensures AfterLastSlash(s) == AfterLastSlash(s[..n])
    decreases |s| - n
  {
    if n < |s| {
      var s' := s[..|s| - 1];
      assert s'[..n] == s[..n];
      AfterLastSlashPrefix(s', n);
    } else {
      assert s[..n] == s;
    }
  }

  /** strchr finds position k when s[k] is c and nothing before it from `from` is. */
  lemma FirstAt(s: seq<char>, c: char, from: nat, k: nat)
    requires from <= k < |s| && s[k] == c && forall i | from <= i < k :: s[i] != c
    ensures IndexFrom(s, c, from) == Some(k)
  {
  }

  /** The pieces of x + ":" + y. */
  lemma Pieces(x: seq<char>, y: seq<char>)
    ensures var s := x + ":" + y; |s| == |x| + 1 + |y| && s[..|x|] == x && s[|x|] == ':' && s[|x| + 1..] == y
  {
  }

  /** What a sequence name must avoid to be found whole: no path separator and no colon. */
  predicate PlainName(s: seq<char>)
  {
    forall i | 0 <= i < |s| :: s[i] != '/' && s[i] != ':'
  }

  /** The file part may contain colons only in directories before its last '/'. */
  predicate PlainFile(f: seq<char>)
  {
    forall i | AfterLastSlash(f) <= i < |f| :: f[i] != ':'
  }

  /** The first ':' of file:rest is the one after the file, when the rest holds no '/'. */
  lemma FirstColonAfterFile(file: string, rest: string)
    requires PlainFile(file) && forall i | 0 <= i < |rest| :: rest[i] != '/'
    ensures var s := file + ":" + rest;
      FirstColon(s) == Some(|file|) && s[..|file|] == file && s[|file| + 1..] == rest
  {
    var s := file + ":" + rest;
    Pieces(file, rest);
    forall i | |file| <= i < |s| ensures s[i] != '/' {
      if i > |file| {
        assert s[i] == s[|file| + 1..][i - |file| - 1];
      }
    }
    AfterLastSlashPrefix(s, |file|);
    forall i | AfterLastSlash(file) <= i < |file| ensures s[i] != ':' {
      assert s[i] == s[..|file|][i];
    }
    FirstAt(s, ':', AfterLastSlash(file), |file|);
  }

  /** file:seqName:rest is cut after the file and after the sequence name, and the rest is read as the range. */
  lemma ColonsOf(file: string, seqName: string, rest: string)
    requires PlainFile(file) && PlainName(seqName) && forall i | 0 <= i < |rest| :: rest[i] != '/'
    ensures ParseRange(file + ":" + seqName + ":" + rest)
      == ParsedRange(ReadRange(rest).ok, file, Some(seqName), ReadRange(rest).start, ReadRange(rest).end)
  {
    var s := file + ":" + seqName + ":" + rest;
    ColonPositions(file, seqName, rest);
    FullRange(s, |file|, |file| + 1 + |seqName|);
  }

  /** Where the two colons of file:seqName:rest are found, and the pieces between them. */
  lemma ColonPositions(file: string, seqName: string, rest: string)
    requires PlainFile(file) && PlainName(seqName) && forall i | 0 <= i < |rest| :: rest[i] != '/'
    ensures var s := file + ":" + seqName + ":" + rest; var c1, c2 := |file|, |file| + 1 + |seqName|;
      c2 < |s| && FirstColon(s) == Some(c1) && NextColon(s, c1) == Some(c2) &&
      s[..c1] == file && s[c1 + 1..c2] == seqName && After(s, c2) == rest
  {
    var u := seqName + ":" + rest;
    var s := file + ":" + seqName + ":" + rest;
    assert s == file + ":" + u;
    Pieces(seqName, rest);
    forall i | 0 <= i < |u| ensures u[i] != '/' {
      if i > |seqName| {
        assert u[i] == u[|seqName| + 1..][i - |seqName| - 1];
      } else if i < |seqName| {
        assert u[i] == u[..|seqName|][i];
      }
    }
    FirstColonAfterFile(file, u);
    var c1, c2 := |file|, |file| + 1 + |seqName|;
    forall i | c1 + 1 <= i < c2 ensures s[i] != ':' {
      assert s[i] == u[i - c1 - 1] == u[..|seqName|][i - c1 - 1];
    }
    FirstAt(s, ':', c1 + 1, c2);
    assert s[c1 + 1..c2] == u[..|seqName|];
    assert After(s, c2) == u[|seqName| + 1..];
  }

  /** The short form file:seqName is a range with start = end = 0. */
  lemma ShortFormRoundTrip(file: string, seqName: string)
    requires PlainFile(file) && PlainName(seqName)
    ensures ParseRange(file + ":" + seqName) == ParsedRange(true, file, Some(seqName), 0, 0)
  {
    var s := file + ":" + seqName;
    FirstColonAfterFile(file, seqName);
    forall i | |file| + 1 <= i < |s| ensures s[i] != ':' {
      assert s[i] == s[|file| + 1..][i - |file| - 1];
    }
  }

  /** The written form of a range. */
  function RangeText(start: int, end: int): string
  {
    IntToString(start) + "-" + IntToString(end)
  }

  /** What IntToString writes holds no '/' or ':'. */
  lemma IntToStringPlain(n: int)
    ensures PlainName(IntToString(n))
  {
  }

  /** A written range reads back as start and end. */
  lemma ReadRangeRoundTrip(start: int, end: int)
    ensures ReadRange(RangeText(start, end)) == RangeNums(true, start, end)
  {
    var a, b := IntToString(start), IntToString(end);
    var nums := RangeText(start, end);
    assert nums == a + ("-" + b);
    StrToLIntToString(start, "-" + b);
    assert After(nums, |a|) == b;
    StrToLIntToString(end, "");
    assert b + "" == b;
  }

  /** A start not followed by '-' is no range, and nothing is stored. */
  lemma ReadRangeNoDash(start: int, junk: string)
    requires |junk| > 0 ==> DigitValue(junk[0]) == 36 && junk[0] != '-'
    ensures ReadRange(IntToString(start) + junk) == RangeNums(false, 0, 0)
  {
    StrToLIntToString(start, junk);
  }

  /** Characters after the end make it no range, but the start has been stored. */
  lemma ReadRangeTrailing(start: int, end: int, junk: string)
    requires |junk| > 0 && DigitValue(junk[0]) == 36
    ensures ReadRange(RangeText(start, end) + junk) == RangeNums(false, start, 0)
  {
    var a, b := IntToString(start), IntToString(end);
    var nums := RangeText(start, end) + junk;
    assert nums == a + ("-" + b + junk);
    StrToLIntToString(start, "-" + b + junk);
    assert After(nums, |a|) == b + junk;
    StrToLIntToString(end, junk);
  }

  /** A written file:seqName:start-end reads back whole. */
  lemma RangeRoundTrip(file: string, seqName: string, start: int, end: int)
    requires PlainFile(file) && PlainName(seqName)
    ensures ParseRange(file + ":" + seqName + ":" + RangeText(start, end)) == ParsedRange(true, file, Some(seqName), start, end)
  {
    IntToStringPlain(start);
    IntToStringPlain(end);
    var a, b := IntToString(start), IntToString(end);
    forall i | 0 <= i < |RangeText(start, end)| ensures RangeText(start, end)[i] != '/' {
      if i > |a| {
        assert RangeText(start, end)[i] == b[i - |a| - 1];
      }
    }
    ColonsOf(file, seqName, RangeText(start, end));
    ReadRangeRoundTrip(start, end);
  }

  /** A start not followed by '-' is no range; the file and sequence name are cut off all the same. */
  lemma MissingDashNotRange(file: string, seqName: string, start: int, junk: string)
    requires PlainFile(file) && PlainName(seqName) && PlainName(junk)
    requires |junk| > 0 ==> DigitValue(junk[0]) == 36 && junk[0] != '-'
    ensures ParseRange(file + ":" + seqName + ":" + (IntToString(start) + junk))
      == ParsedRange(false, file, Some(seqName), 0, 0)
  {
    var a := IntToString(start);
    IntToStringPlain(start);
    forall i | 0 <= i < |a + junk| ensures (a + junk)[i] != '/' {
      if i >= |a| {
        assert (a + junk)[i] == junk[i - |a|];
      }
    }
    ColonsOf(file, seqName, a + junk);
    ReadRangeNoDash(start, junk);
  }

  /** Characters after the end make the text no range, with the start already stored. */
  lemma TrailingNotRange(file: string, seqName: string, start: int, end: int, junk: string)
    requires PlainFile(file) && PlainName(seqName) && PlainName(junk)
    requires |junk| > 0 && DigitValue(junk[0]) == 36
    ensures ParseRange(file + ":" + seqName + ":" + (RangeText(start, end) + junk))
      == ParsedRange(false, file, Some(seqName), start, 0)
  {
    var a, b := IntToString(start), IntToString(end);
    var t := RangeText(start, end) + junk;
    IntToStringPlain(start);
    IntToStringPlain(end);
    forall i | 0 <= i < |t| ensures t[i] != '/' {
      if i >= |RangeText(start, end)| {
        assert t[i] == junk[i - |RangeText(start, end)|];
      } else if i > |a| {
        assert t[i] == b[i - |a| - 1];
      }
    }
    ColonsOf(file, seqName, t);
    ReadRangeTrailing(start, end, junk);
  }

  /** A parsed sequence specification: name and range, 0-0 when no range is given. */
  datatype SeqSpec = SeqSpec(name: string, start: int, end: int)

  /**
   * parseSeqSpec: the name runs up to the first ':'; after it come start '-'
   * end.  A malformed range or one that ends before it starts aborts.
   */
  function ParseSeqSpec(spec: string): (r: Result<SeqSpec>)
    ensures r.Ok? ==> PlainColon(r.value.name) && r.value.start <= r.value.end
  {
    match IndexFrom(spec, ':', 0)
    case None => Ok(SeqSpec(spec, 0, 0))
    case Some(c) =>
      var nums := ReadRange(spec[c + 1..]);
      if !nums.ok || nums.end < nums.start then
        Abort("invalid twoBit sequence specification: \"" + spec + "\"")
      else Ok(SeqSpec(spec[..c], nums.start, nums.end))
  }

  /** No ':' in a name. */
  predicate PlainColon(s: seq<char>)
  {
    forall i | 0 <= i < |s| :: s[i] != ':'
  }

  /** A name without ':' is a whole sequence. */
  lemma SeqSpecNameOnly(name: string)
    requires PlainColon(name)
    ensures ParseSeqSpec(name) == Ok(SeqSpec(name, 0, 0))
  {
  }

  /** name:start-end is read back when start <= end and aborts exactly when end < start. */
  lemma SeqSpecRoundTrip(name: string, start: int, end: int)
    requires PlainColon(name)
    ensures var r := ParseSeqSpec(name + ":" + RangeText(start, end));
      if end < start then r.Abort? else r == Ok(SeqSpec(name, start, end))
  {
    var s := name + ":" + RangeText(start, end);
    Pieces(name, RangeText(start, end));
    FirstAt(s, ':', 0, |name|);
    ReadRangeRoundTrip(start, end);
  }

  /** The names twoBitReadSeqFragExt gives fragments are specifications of those fragments. */
  lemma FragNameIsSpec(name: string, fragStart: nat, fragEnd: nat)
    requires PlainColon(name) && fragStart <= fragEnd
    ensures ParseSeqSpec(TwoBit.FragName(name, fragStart, fragEnd)) == Ok(SeqSpec(name, fragStart, fragEnd))
  {
    assert TwoBit.FragName(name, fragStart, fragEnd) == name + ":" + RangeText(fragStart, fragEnd);
    SeqSpecRoundTrip(name, fragStart, fragEnd);
  }
}
