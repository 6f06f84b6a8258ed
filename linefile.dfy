/**
 * The line reader of linefile.c: recognising compressed input by its header
 * bytes or its file name, finding which newline convention a text uses, and
 * lineFileNext over a text held in memory (the line file lineFileOnString
 * makes, whose file descriptor is -1).  A C string argument is a character
 * sequence without its terminator; characters stand for bytes 0..255.
 */
module LineFile {
  import opened Wrappers
  import opened CLib
  import StrUtil

  // ---------------------------------------------------------------------
  // getFileNameFromHdrSig, getDecompressor

  /** The compressed formats linefile.c recognises. */
  datatype Compression = Gzip | Compress | Bzip2 | Zip

  /** The magic bytes a stream of each format starts with. */
  function Signature(c: Compression): seq<char>
  {
    match c
    case Gzip => [31 as char, 139 as char]
    case Compress => [31 as char, 157 as char, 144 as char]
    case Bzip2 => "BZ"
    case Zip => ['P', 'K', 3 as char, 4 as char]
  }

  /** The file name extension of each format, without its dot. */
  function Extension(c: Compression): string
  {
    match c
    case Gzip => "gz"
    case Compress => "Z"
    case Bzip2 => "bz2"
    case Zip => "zip"
  }

  /** The command that decompresses each format to standard output. */
  function Command(c: Compression): seq<string>
  {
    match c
    case Bzip2 => ["bzip2", "-dc"]
    case _ => ["gzip", "-dc"]
  }

  /** LF_BOGUS_FILE_PREFIX. */
  const BogusPrefix := "somefile."

  /**
   * getFileNameFromHdrSig: the phoney file name "somefile." plus the
   * extension of the format whose signature starts the header m, or None.
   * The name fits the 20-byte buffer it is formatted into.
   */
  function FileNameFromHdrSig(m: seq<char>): (name: Option<string>)
    ensures name.Some? <==> exists c :: Signature(c) <= m
    ensures forall c :: Signature(c) <= m ==> name == Some(BogusPrefix + Extension(c))
    ensures name.Some? ==> |name.value| + 1 <= 20
  {
    SignaturesDisjoint(m);
    var ext :=
      if Signature(Gzip) <= m then Some(Extension(Gzip))
      else if Signature(Compress) <= m then Some(Extension(Compress))
      else if Signature(Bzip2) <= m then Some(Extension(Bzip2))
      else if Signature(Zip) <= m then Some(Extension(Zip))
      else None;
    if ext.None? then None else Some(BogusPrefix + ext.value)
  }

  /** No header starts with two of the signatures. */
  lemma SignaturesDisjoint(m: seq<char>)
    ensures forall c, d :: Signature(c) <= m && Signature(d) <= m ==> c == d
  {
    forall c, d | Signature(c) <= m && Signature(d) <= m
      ensures c == d
    {
      assert m[0] == Signature(c)[0] == Signature(d)[0];
      if Signature(c)[0] == 31 as char {
        assert m[1] == Signature(c)[1] == Signature(d)[1];
      }
    }
  }

  /** Whether the name is a URL, whose %-escapes getDecompressor decodes first. */
  predicate IsUrl(fileName: string)
  {
    "http://" <= fileName || "https://" <= fileName || "ftp://" <= fileName
  }

  /**
   * getDecompressor: the command for the format whose extension ends the
   * name, or None.  A URL is matched after cgiDecode, whose result is the
   * parameter urlDecoded; any other name is matched as it is.
   */
  function Decompressor(fileName: string, urlDecoded: string): (cmd: Option<seq<string>>)
    ensures var n := if IsUrl(fileName) then urlDecoded else fileName;
      cmd.Some? <==> exists c :: StrUtil.EndsWith(n, "." + Extension(c))
    ensures var n := if IsUrl(fileName) then urlDecoded else fileName;
      forall c :: StrUtil.EndsWith(n, "." + Extension(c)) ==> cmd == Some(Command(c))
  {
    var n := if IsUrl(fileName) then urlDecoded else fileName;
    SuffixesDisjoint(n);
    if StrUtil.EndsWith(n, "." + Extension(Gzip)) then Some(Command(Gzip))
    else if StrUtil.EndsWith(n, "." + Extension(Compress)) then Some(Command(Compress))
    else if StrUtil.EndsWith(n, "." + Extension(Bzip2)) then Some(Command(Bzip2))
    else if StrUtil.EndsWith(n, "." + Extension(Zip)) then Some(Command(Zip))
    else None
  }

  /** No name ends in two of the extensions. */
  lemma SuffixesDisjoint(n: string)
    ensures forall c, d :: StrUtil.EndsWith(n, "." + Extension(c)) && StrUtil.EndsWith(n, "." + Extension(d)) ==> c == d
  {
    forall c, d | StrUtil.EndsWith(n, "." + Extension(c)) && StrUtil.EndsWith(n, "." + Extension(d))
      ensures c == d
    {
      var x, y := "." + Extension(c), "." + Extension(d);
      assert n[|n| - |x|..] == x && n[|n| - |y|..] == y;
      assert n[|n| - 1] == x[|x| - 1] == y[|y| - 1];
      if |x| == |y| {
        assert x == y;
        assert x[|x| - 2] == y[|y| - 2];
      }
    }
  }

  /**
   * The phoney name made for a compressed header selects the decompressor
   * of that very format, whatever the decoding of URLs does.
   */
  lemma HeaderNameDecompresses(m: seq<char>, c: Compression, urlDecoded: string)
    requires Signature(c) <= m
    ensures FileNameFromHdrSig(m).Some?
    ensures Decompressor(FileNameFromHdrSig(m).value, urlDecoded) == Some(Command(c))
  {
    var n := BogusPrefix + Extension(c);
    assert !IsUrl(n) by {
      assert n[0] == 's';
    }
    var x := "." + Extension(c);
    assert n[|n| - |x|..] == x;
  }

  // ---------------------------------------------------------------------
  // determineNlType

  /** The newline conventions: not yet known, "\n", "\r\n" and "\r". */
  datatype NlType = Undet | Unix | Dos | Mac

  predicate IsBreak(ch: char)
  {
    ch == '\r' || ch == '\n'
  }

  /**
   * The convention the first line break of s shows: a lone "\r" is mac,
   * "\r\n" is dos, and "\n", or no break at all, is unix.
   */
  function DetectNl(s: seq<char>): (t: NlType)
    ensures t != Undet
    decreases |s|
  {
    if |s| == 0 then Unix
    else if s[0] == '\r' then (if |s| > 1 && s[1] == '\n' then Dos else Mac)
    else if s[0] == '\n' then Unix
    else DetectNl(s[1..])
  }

  /** DetectNl decided at the first break of s. */
  lemma {:induction false} DetectNlAtBreak(s: seq<char>, i: nat)
    requires i < |s| && IsBreak(s[i])
    requires forall j | 0 <= j < i :: !IsBreak(s[j])
    ensures DetectNl(s) == if s[i] == '\n' then Unix else if i + 1 < |s| && s[i + 1] == '\n' then Dos else Mac
  {
    if i > 0 {
      assert !IsBreak(s[0]);
      DetectNlAtBreak(s[1..], i - 1);
    }
  }

  /** A text without a line break counts as unix. */
  lemma {:induction false} DetectNlNoBreak(s: seq<char>)
    requires forall j | 0 <= j < |s| :: !IsBreak(s[j])
    ensures DetectNl(s) == Unix
    decreases |s|
  {
    if |s| > 0 {
      assert !IsBreak(s[0]);
      DetectNlNoBreak(s[1..]);
    }
  }

  /** The scan of determineNlType over buf[start..start + size]. */
  method ScanNlType(buf: array<char>, start: nat, size: nat) returns (t: NlType)
    requires start + size <= buf.Length
    ensures t == DetectNl(buf[start..start + size])
  {
    ghost var s := buf[start..start + size];
    t := Unix;
    var c := start;
    while c < start + size
      invariant start <= c <= start + size
      invariant DetectNl(s) == DetectNl(buf[c..start + size])
    {
      assert buf[c..start + size][0] == buf[c];
      if buf[c] == '\r' {
        t := Mac;
        c := c + 1;
        if c < start + size {
          assert buf[c - 1..start + size][1] == buf[c];
          if buf[c] == '\n' {
            t := Dos;
          }
        }
        return;
      }
      c := c + 1;
      if buf[c - 1] == '\n' {
        return;
      }
      assert buf[c - 1..start + size][1..] == buf[c..start + size];
    }
  }

  /** The character that ends a line: '\r' for mac, '\n' otherwise. */
  function Terminator(t: NlType): char
  {
    if t == Mac then '\r' else '\n'
  }

  // ---------------------------------------------------------------------
  // Lines

  /**
   * The line that starts the text u: up to and including the first
   * terminator, or all of u when there is none.
   */
  function NextLine(u: seq<char>, nl: char): (line: seq<char>)
    ensures |line| <= |u|
  {
    match IndexFrom(u, nl, 0)
    case Some(e) => u[..e + 1]
    case None => u
  }

  /**
   * NextLine cuts a piece off the front of u: non-empty when u is, with no
   * terminator but its last character, and ending in one unless it is all
   * of u.
   */
  lemma NextLineSplits(u: seq<char>, nl: char)
    ensures var line := NextLine(u, nl);
      |line| <= |u| && line == u[..|line|] && (|u| > 0 ==> |line| > 0) &&
      (forall j | 0 <= j < |line| - 1 :: line[j] != nl) &&
      (|line| < |u| ==> line[|line| - 1] == nl) &&
      (nl !in u ==> line == u) && (nl in u <==> Ended(line, nl))
  {
    match IndexFrom(u, nl, 0)
    case Some(e) =>
    case None =>
  }

  /** Cutting a slice of s that equals w at b cuts w at the same place. */
  lemma SliceSplit(s: seq<char>, a: nat, b: nat, c: nat, w: seq<char>)
    requires a <= b <= c <= |s| && s[a..c] == w
    ensures s[a..b] == w[..b - a] && s[b..c] == w[b - a..]
  {
    assert s[a..b] == s[a..c][..b - a];
    assert s[b..c] == s[a..c][b - a..];
  }

  /** The text cut into lines, front to back. */
  function Lines(u: seq<char>, nl: char): (lines: seq<seq<char>>)
    decreases |u|
  {
    if |u| == 0 then []
    else
      var line := NextLine(u, nl);
      NextLineSplits(u, nl);
      [line] + Lines(u[|line|..], nl)
  }

  /** The concatenation of the lines. */
  function Concat(lines: seq<seq<char>>): seq<char>
  {
    if |lines| == 0 then [] else lines[0] + Concat(lines[1..])
  }

  /** The lines put back together give the text. */
  lemma {:induction false} LinesConcat(u: seq<char>, nl: char)
    ensures Concat(Lines(u, nl)) == u
    decreases |u|
  {
    if |u| > 0 {
      var line := NextLine(u, nl);
      NextLineSplits(u, nl);
      var rest := u[|line|..];
      LinesConcat(rest, nl);
      assert Lines(u, nl) == [line] + Lines(rest, nl);
      assert line + rest == u by {
        assert u == u[..|line|] + u[|line|..];
      }
    }
  }

  /** Every line is non-empty, and each but the last ends in the terminator. */
  lemma {:induction false} LinesShape(u: seq<char>, nl: char)
    ensures forall k | 0 <= k < |Lines(u, nl)| :: |Lines(u, nl)[k]| > 0
    ensures forall k | 0 <= k < |Lines(u, nl)| - 1 :: Lines(u, nl)[k][|Lines(u, nl)[k]| - 1] == nl
    decreases |u|
  {
    if |u| > 0 {
      var line := NextLine(u, nl);
      NextLineSplits(u, nl);
      var rest := u[|line|..];
      LinesShape(rest, nl);
      var lines, more := Lines(u, nl), Lines(rest, nl);
      assert lines == [line] + more;
      forall k | 0 <= k < |lines|
        ensures |lines[k]| > 0 && (k < |lines| - 1 ==> lines[k][|lines[k]| - 1] == nl)
      {
        if k > 0 {
          assert lines[k] == more[k - 1];
        } else if k < |lines| - 1 {
          assert |rest| > 0;
        }
      }
    }
  }

  /** Whether the line ends in the terminator. */
  predicate Ended(line: seq<char>, nl: char)
  {
    |line| > 0 && line[|line| - 1] == nl
  }

  /**
   * The for loop of lineFileNext that looks for the end of the line from
   * `from`: just past the first terminator before `to`, or `to` itself.
   */
  method FindBreak(buf: array<char>, from: nat, to: nat, nl: char) returns (endIx: nat, gotLf: bool)
    requires to <= buf.Length
    ensures from >= to ==> !gotLf && endIx == from
    ensures from < to ==> endIx == from + |NextLine(buf[from..to], nl)| && (gotLf <==> nl in buf[from..to])
  {
    endIx := from;
    gotLf := false;
    if from >= to {
      return;
    }
    while endIx < to
      invariant from <= endIx <= to
      invariant forall j | from <= j < endIx :: buf[j] != nl
    {
      if buf[endIx] == nl {
        gotLf := true;
        endIx := endIx + 1;
        break;
      }
      endIx := endIx + 1;
    }
    {
      ghost var s := buf[from..to];
      match IndexFrom(s, nl, 0)
      case Some(e) =>
        assert s[endIx - 1 - from] == nl;
      case None =>
    }
  }

  /** The memmove of lineFileNext: the n characters at buf[from..] move to the front. */
  method Shift(buf: array<char>, from: nat, n: nat)
    requires from + n <= buf.Length
    modifies buf
    ensures buf[..n] == old(buf[from..from + n]) && buf[n..] == old(buf[n..])
  {
    forall i | 0 <= i < n {
      buf[i] := buf[from + i];
    }
  }

  /**
   * The zTerm step of lineFileNext on buffer contents b: the terminator at
   * endIx - 1 becomes 0, and for dos so does a '\r' just before it.
   */
  function Zeroed(b: seq<char>, endIx: nat, t: NlType): (z: seq<char>)
    requires 0 < endIx <= |b|
    ensures |z| == |b|
  {
    var z := b[endIx - 1 := '\0'];
    if t == Dos && endIx >= 2 && z[endIx - 2] == '\r' then z[endIx - 2 := '\0'] else z
  }

  /** Zeroed turns the line at b[from..endIx] into what lineFileNext shows and keeps the rest. */
  lemma ZeroedParts(b: seq<char>, from: nat, endIx: nat, c: nat, t: NlType, nl: char, line: seq<char>)
    requires from < endIx <= c <= |b| && b[from..endIx] == line && Ended(line, nl)
    requires t == Dos && |line| == 1 ==> from > 0 && b[from - 1] != '\r'
    ensures var z := Zeroed(b, endIx, t);
      z[..from] == b[..from] && z[endIx..c] == b[endIx..c] && z[from..endIx] == Shown(line, nl, true, t) &&
      z[endIx - 1] == '\0'
  {
    var z := Zeroed(b, endIx, t);
    var n := |line|;
    assert line[n - 1] == nl;
    if t == Dos && n >= 2 && line[n - 2] == '\r' {
      assert z[from..endIx] == line[..n - 2] + ['\0', '\0'];
    } else {
      assert z[from..endIx] == line[..n - 1] + ['\0'];
    }
  }

  /** The writes of the zTerm step of lineFileNext. */
  method ZeroBreak(buf: array<char>, endIx: nat, t: NlType, ghost b: seq<char>)
    requires 0 < endIx <= buf.Length && buf[..] == b
    modifies buf
    ensures buf[..] == Zeroed(b, endIx, t)
  {
    buf[endIx - 1] := '\0';
    if t == Dos && endIx >= 2 && buf[endIx - 2] == '\r' {
      buf[endIx - 2] := '\0';
    }
  }

  /**
   * The buffer side of a line that ends at endIx: with zTerm its
   * terminator is zeroed, and nothing outside the line changes.
   */
  method EndLineBuf(buf: array<char>, from: nat, endIx: nat, c: nat, t: NlType, zTerm: bool,
                    ghost nl: char, ghost line: seq<char>, ghost rest: seq<char>)
    requires from < endIx <= c <= buf.Length && buf[from..endIx] == line && buf[endIx..c] == rest
    requires Ended(line, nl) && (zTerm && from > 0 ==> buf[from - 1] == '\0')
    requires zTerm && t == Dos && |line| == 1 ==> from > 0
    modifies buf
    ensures buf[from..endIx] == Shown(line, nl, zTerm, t) && buf[endIx..c] == rest
    ensures zTerm ==> buf[endIx - 1] == '\0'
  {
    if zTerm {
      ghost var b := buf[..];
      ZeroedParts(b, from, endIx, c, t, nl, line);
      ZeroBreak(buf, endIx, t, b);
    }
  }

  /**
   * The last line, n characters at buf[from..], moves to the front of the
   * buffer (the memmove of lineFileNext, needed only when it is not there
   * already) and gets a 0 after it.
   */
  method MoveLast(buf: array<char>, from: nat, n: nat, ghost u: seq<char>)
    requires from + n < buf.Length && buf[from..from + n] == u
    modifies buf
    ensures buf[..n] == u && buf[n] == '\0'
  {
    if from > 0 && n > 0 {
      Shift(buf, from, n);
    }
    buf[n] := '\0';
  }

  /**
   * What lineFileNext hands back for a line: as it is, or with zTerm its
   * terminator written over with 0, and for dos a '\r' before it as well.
   */
  function Shown(line: seq<char>, nl: char, zTerm: bool, t: NlType): (shown: seq<char>)
    ensures |shown| == |line|
  {
    var n := |line|;
    if !zTerm || n == 0 || line[n - 1] != nl then line
    else if t == Dos && n >= 2 && line[n - 2] == '\r' then line[..n - 2] + ['\0', '\0']
    else line[..n - 1] + ['\0']
  }

  /** The line without its terminator, and for dos without a '\r' before it. */
  function Chomp(line: seq<char>, nl: char, t: NlType): seq<char>
  {
    var n := |line|;
    if n == 0 || line[n - 1] != nl then line
    else if t == Dos && n >= 2 && line[n - 2] == '\r' then line[..n - 2]
    else line[..n - 1]
  }

  /**
   * With zTerm the caller may read a line as a C string: it then holds the
   * line without its line break.  A last line without a terminator is
   * followed by a 0 byte.
   */
  lemma ShownCString(line: seq<char>, nl: char, t: NlType, after: seq<char>)
    requires IsCString(line) || (|line| > 0 && line[|line| - 1] == nl && IsCString(line[..|line| - 1]))
    requires |line| == 0 || line[|line| - 1] != nl ==> |after| > 0 && after[0] == '\0'
    ensures '\0' in Shown(line, nl, true, t) + after
    ensures CString(Shown(line, nl, true, t) + after) == Chomp(line, nl, t)
  {
    var a := Shown(line, nl, true, t) + after;
    var c := Chomp(line, nl, t);
    var n := |line|;
    if n == 0 || line[n - 1] != nl {
      assert IsCString(line);
      assert a[..n] == line && a[n] == '\0';
      TerminatedAt(a, n);
    } else if t == Dos && n >= 2 && line[n - 2] == '\r' {
      assert a[..n - 2] == c && a[n - 2] == '\0';
      assert IsCString(c) by {
        assert c == line[..n - 1][..n - 2];
      }
      TerminatedAt(a, n - 2);
    } else {
      assert IsCString(line[..n - 1]);
      assert a[..n - 1] == c && a[n - 1] == '\0';
      TerminatedAt(a, n - 1);
    }
  }

  // ---------------------------------------------------------------------
  // The in-memory line file

  /**
   * The line file over a text in memory.  buf holds the text and its
   * terminator; the lines handed out so far are the first
   * bufOffsetInFile + lineEnd characters of the text.
   */
  class LineFile {
    var buf: array<char>
    var bufSize: nat
    var bufOffsetInFile: nat
    var bytesInBuf: nat
    var lineIx: int
    var lineStart: nat
    var lineEnd: nat
    var zTerm: bool
    var nlType: NlType
    var reuse: bool
    /** The text the line file was made on. */
    ghost var text: seq<char>

    ghost predicate Valid()
      reads this, buf
    {
      |text| < buf.Length && bufSize == |text| && lineStart <= lineEnd &&
      (nlType == Undet ==> bufOffsetInFile + lineEnd == 0) &&
      (nlType != Undet ==> |text| > 0 && nlType == DetectNl(text)) &&
      (Loaded() || Drained())
    }

    /**
     * The text is still in place from lineEnd on; with zTerm the character
     * before lineEnd, the last line's terminator, has been zeroed.
     */
    ghost predicate Loaded()
      reads this, buf
    {
      bufOffsetInFile == 0 && bytesInBuf == |text| && lineEnd <= |text| < buf.Length &&
      buf[lineEnd..|text|] == text[lineEnd..] &&
      (zTerm && lineEnd > 0 ==> buf[lineEnd - 1] == '\0')
    }

    /** The buffer has been emptied: every line has been handed out. */
    ghost predicate Drained()
      reads this
    {
      bytesInBuf == 0 && lineStart == 0 && bufOffsetInFile + lineEnd == |text|
    }

    /** The text not yet handed out. */
    ghost function Unread(): seq<char>
      reads this
      requires bufOffsetInFile + lineEnd <= |text|
    {
      text[bufOffsetInFile + lineEnd..]
    }

    /**
     * lineFileOnString: a line file over the C string in s, which it will
     * write into; nothing has been read and the newline type is unknown.
     */
    constructor OnString(s: array<char>, zTerm: bool)
      requires '\0' in s[..]
      ensures Valid() && buf == s && text == CString(s[..]) && IsCString(text) && Unread() == text
      ensures this.zTerm == zTerm && lineIx == 0 && !reuse && nlType == Undet
    {
      var n := StrLen(s[..]);
      buf := s;
      text := s[..n];
      bufSize := n;
      bytesInBuf := n;
      this.zTerm := zTerm;
      bufOffsetInFile := 0;
      lineIx := 0;
      lineStart := 0;
      lineEnd := 0;
      nlType := Undet;
      reuse := false;
      new;
      assert buf[0..n] == text;
    }

    /** lineFileReuse: the next call of Next hands back the current line again. */
    method Reuse()
      modifies this
      ensures reuse
      ensures buf == old(buf) && text == old(text) && bufSize == old(bufSize) && bufOffsetInFile == old(bufOffsetInFile)
      ensures bytesInBuf == old(bytesInBuf) && lineIx == old(lineIx) && lineStart == old(lineStart)
      ensures lineEnd == old(lineEnd) && zTerm == old(zTerm) && nlType == old(nlType)
    {
      reuse := true;
    }

    /**
     * lineFileNext on a line file in memory: hands back, as its position
     * start and its length size in buf, the next line of the text, its
     * terminator included; false once the text is used up.  After Reuse it
     * hands back the same line again.
     */
    method Next() returns (ok: bool, start: nat, size: nat)
      requires Valid()
      modifies this, buf
      ensures Valid() && buf == old(buf) && text == old(text) && zTerm == old(zTerm) && !reuse
      ensures old(reuse) ==>
        ok && start == lineStart == old(lineStart) && lineEnd == old(lineEnd) && size == lineEnd - lineStart &&
        lineIx == old(lineIx) && Unread() == old(Unread()) && buf[..] == old(buf[..])
      ensures !old(reuse) ==> Delivered(old(Unread()), ok, start, size, old(lineIx))
    {
      if reuse {
        reuse := false;
        return true, lineStart, lineEnd - lineStart;
      }
      ok, start, size := ReadLine();
    }

    /**
     * What lineFileNext promises about the unread text u it started from:
     * ok exactly when u was not empty; the line handed back is the front of
     * u up to and including the first terminator (all of u without one),
     * shown at buf[start..start + size] as Shown says; a line without a
     * terminator is followed by a 0; the rest of u is left unread; ix is
     * the line number before the call.
     */
    ghost predicate Delivered(u: seq<char>, ok: bool, start: nat, size: nat, ix: int)
      reads this, buf
    {
      var nl := Terminator(nlType);
      var line := NextLine(u, nl);
      bufOffsetInFile + lineEnd <= |text| && (ok <==> |u| > 0) && Unread() == u[|line|..] &&
      (ok ==>
        start == lineStart && size == |line| && start + size < buf.Length && lineIx == ix + 1 &&
        buf[start..start + size] == Shown(line, nl, zTerm, nlType) &&
        (!Ended(line, nl) ==> buf[start + size] == '\0'))
    }

    /** lineFileNext when no line is pushed back. */
    method ReadLine() returns (ok: bool, start: nat, size: nat)
      requires Valid() && !reuse
      modifies this, buf
      ensures Valid() && buf == old(buf) && text == old(text) && zTerm == old(zTerm) && !reuse
      ensures Delivered(old(Unread()), ok, start, size, old(lineIx))
    {
      ghost var u := Unread();
      ghost var ix := lineIx;
      Settle(u);
      var endIx, gotLf := Scan(u);
      if !gotLf {
        ok, start, size := LastLine(endIx, u);
        LastDelivered(u, ok, start, size, ix);
        return;
      }
      ghost var line := NextLine(u, Terminator(nlType));
      start, size := EndLine(endIx, line);
      ok := true;
      EndDelivered(u, line, start, size, ix);
    }

    /** The last line, handed out by LastLine, is what lineFileNext promises. */
    lemma LastDelivered(u: seq<char>, ok: bool, start: nat, size: nat, ix: int)
      requires Valid() && Terminator(nlType) !in u && Unread() == [] && (ok <==> |u| > 0)
      requires ok ==>
        start == lineStart && size == |u| && start + size < buf.Length && lineIx == ix + 1 &&
        buf[start..start + size] == u && buf[start + size] == '\0'
      ensures Delivered(u, ok, start, size, ix)
    {
      NextLineSplits(u, Terminator(nlType));
    }

    /** A line that ends in the buffer, handed out by EndLine, is what lineFileNext promises. */
    lemma EndDelivered(u: seq<char>, line: seq<char>, start: nat, size: nat, ix: int)
      requires Valid() && Loaded() && line == NextLine(u, Terminator(nlType)) && Ended(line, Terminator(nlType))
      requires text[lineEnd..] == u[|line|..] && start == lineStart && size == |line| && start + size == lineEnd
      requires lineIx == ix + 1 && buf[start..start + size] == Shown(line, Terminator(nlType), zTerm, nlType)
      ensures Delivered(u, true, start, size, ix)
    {
    }

    /** The determineNlType call of lineFileNext: with text left to read, the type is settled. */
    method Settle(ghost u: seq<char>)
      requires Valid() && u == Unread()
      modifies this
      ensures Valid() && u == Unread() && (|u| > 0 ==> nlType != Undet)
      ensures buf == old(buf) && text == old(text) && zTerm == old(zTerm) && reuse == old(reuse)
      ensures lineIx == old(lineIx) && lineStart == old(lineStart) && lineEnd == old(lineEnd)
    {
      DetermineNlType(lineEnd, bytesInBuf);
    }

    /**
     * The search for the end of the next line in lineFileNext: the buffer
     * is scanned from lineEnd up to bytesInBuf.
     */
    method Scan(ghost u: seq<char>) returns (endIx: nat, gotLf: bool)
      requires Valid() && u == Unread() && (|u| > 0 ==> nlType != Undet)
      ensures var line := NextLine(u, Terminator(nlType));
        (!gotLf ==> endIx == lineEnd + |u| && line == u && Terminator(nlType) !in u) &&
        (gotLf ==>
          Loaded() && nlType != Undet && Ended(line, Terminator(nlType)) && endIx == lineEnd + |line| <= |text| &&
          buf[lineEnd..endIx] == line && buf[endIx..|text|] == text[endIx..] && text[endIx..] == u[|line|..] &&
          (zTerm && nlType == Dos && |line| == 1 ==> lineEnd > 0))
    {
      endIx := lineEnd;
      gotLf := false;
      if nlType != Undet {
        endIx, gotLf := FindBreak(buf, lineEnd, bytesInBuf, Terminator(nlType));
      }
      BreakFacts(endIx, gotLf, u, NextLine(u, Terminator(nlType)));
    }

    /**
     * What the search for the line end in lineFileNext tells about the
     * unread text u: without a terminator the rest of it is the last line;
     * with one, the line is in the buffer up to endIx.
     */
    lemma BreakFacts(endIx: nat, gotLf: bool, u: seq<char>, line: seq<char>)
      requires Valid() && u == Unread() && (|u| > 0 ==> nlType != Undet)
      requires line == NextLine(u, Terminator(nlType))
      requires nlType == Undet || lineEnd >= bytesInBuf ==> !gotLf && endIx == lineEnd
      requires nlType != Undet && lineEnd < bytesInBuf ==>
        bytesInBuf <= buf.Length && endIx == lineEnd + |NextLine(buf[lineEnd..bytesInBuf], Terminator(nlType))| &&
        (gotLf <==> Terminator(nlType) in buf[lineEnd..bytesInBuf])
      ensures !gotLf ==> endIx == lineEnd + |u| && line == u && Terminator(nlType) !in u
      ensures gotLf ==>
        Loaded() && nlType != Undet && Ended(line, Terminator(nlType)) && endIx == lineEnd + |line| <= |text| &&
        buf[lineEnd..endIx] == line && buf[endIx..|text|] == text[endIx..] && text[endIx..] == u[|line|..] &&
        (zTerm && nlType == Dos && |line| == 1 ==> lineEnd > 0)
    {
      var nl := Terminator(nlType);
      NextLineSplits(u, nl);
      if nlType != Undet && lineEnd < bytesInBuf {
        assert buf[lineEnd..bytesInBuf] == u;
        if gotLf {
          SliceSplit(buf[..], lineEnd, endIx, |text|, u);
          assert text[endIx..] == u[|line|..];
          if zTerm && nlType == Dos && |line| == 1 && lineEnd == 0 {
            assert text[0] == '\n';
          }
        }
      }
    }

    /**
     * A line that ends in the buffer: with zTerm its terminator, and for
     * dos a '\r' before it, become 0; it becomes the current line.
     */
    method EndLine(endIx: nat, ghost line: seq<char>) returns (start: nat, size: nat)
      requires Valid() && Loaded() && nlType != Undet && Ended(line, Terminator(nlType))
      requires endIx == lineEnd + |line| <= |text| && buf[lineEnd..endIx] == line && buf[endIx..|text|] == text[endIx..]
      requires zTerm && nlType == Dos && |line| == 1 ==> lineEnd > 0
      modifies this, buf
      ensures Valid() && Loaded() && buf == old(buf) && text == old(text) && zTerm == old(zTerm) && nlType == old(nlType)
      ensures reuse == old(reuse) && lineEnd == endIx && lineIx == old(lineIx) + 1
      ensures start == lineStart == old(lineEnd) && size == |line|
      ensures buf[start..start + size] == Shown(line, Terminator(nlType), zTerm, nlType)
    {
      EndLineBuf(buf, lineEnd, endIx, bytesInBuf, nlType, zTerm, Terminator(nlType), line, text[endIx..]);
      start, size := lineEnd, endIx - lineEnd;
      lineStart := lineEnd;
      lineEnd := endIx;
      lineIx := lineIx + 1;
    }

    /**
     * The refill round of lineFileNext.  With no file to read it gets
     * nothing: a last line without a terminator is moved to the front of
     * the buffer, 0-terminated, and handed out; otherwise the buffer is
     * emptied and the result is false.
     */
    method LastLine(endIx: nat, ghost u: seq<char>) returns (ok: bool, start: nat, size: nat)
      requires Valid() && u == Unread() && endIx == lineEnd + |u| && (|u| > 0 ==> nlType != Undet)
      modifies this, buf
      ensures Valid() && buf == old(buf) && text == old(text) && zTerm == old(zTerm) && nlType == old(nlType)
      ensures reuse == old(reuse) && (ok <==> |u| > 0) && Unread() == []
      ensures ok ==>
        start == lineStart && size == |u| && start + size < buf.Length && lineIx == old(lineIx) + 1 &&
        buf[start..start + size] == u && buf[start + size] == '\0'
    {
      var oldEnd := lineEnd;
      var sizeLeft := bytesInBuf - oldEnd;
      assert bufOffsetInFile + oldEnd + |u| == |text| && (sizeLeft > 0 ==> Loaded() && sizeLeft == |u|);
      assert sizeLeft <= 0 ==> |u| == 0;
      if endIx > oldEnd {
        MoveLast(buf, oldEnd, sizeLeft, u);
        bufOffsetInFile := bufOffsetInFile + oldEnd;
        bytesInBuf := 0;
        lineStart := 0;
        lineEnd := sizeLeft;
        lineIx := lineIx + 1;
        assert nlType != Undet && Drained();
        return true, 0, sizeLeft;
      }
      assert nlType == Undet ==> |text| == 0;
      bufOffsetInFile := bufOffsetInFile + oldEnd;
      bytesInBuf := 0;
      lineStart := 0;
      lineEnd := 0;
      assert Drained();
      return false, 0, 0;
    }

    /**
     * determineNlType on the size characters at buf[start..]: once the
     * type is known, or with nothing to look at, it is left alone.
     */
    method DetermineNlType(start: nat, size: nat)
      requires size > 0 && nlType == Undet ==> start + size <= buf.Length
      modifies this
      ensures buf == old(buf) && text == old(text) && bufSize == old(bufSize) && bufOffsetInFile == old(bufOffsetInFile)
      ensures nlType == if size == 0 || old(nlType) != Undet then old(nlType) else DetectNl(buf[start..start + size])
      ensures bytesInBuf == old(bytesInBuf) && lineIx == old(lineIx) && lineStart == old(lineStart)
      ensures lineEnd == old(lineEnd) && zTerm == old(zTerm) && reuse == old(reuse)
    {
      if size == 0 {
        return;
      }
      if nlType != Undet {
        return;
      }
      nlType := ScanNlType(buf, start, size);
    }
  }
}
