/**
 * The parts of the C library that the modelled code leans on: the <ctype.h>
 * classes in the "C" locale, strtol with base 0, and decimal formatting as
 * printf's %d produces it.  C strings are modelled as character sequences
 * without the terminating zero; `IsCString` says a sequence holds no zero
 * character, so that the terminator really is the end.
 */
module CLib {
  import opened Wrappers

  /** A sequence that can stand for a C string: no embedded terminator. */
  predicate IsCString(s: seq<char>)
  {
    forall i | 0 <= i < |s| :: s[i] != '\0'
  }

  /** strlen: the index of the first terminator. */
  function StrLen(s: seq<char>): (n: nat)
    requires '\0' in s
    ensures n < |s| && s[n] == '\0'
    ensures forall i | 0 <= i < n :: s[i] != '\0'
  {
    if s[0] == '\0' then 0 else 1 + StrLen(s[1..])
  }

  /** The C string held at the start of a buffer: everything before the first terminator. */
  function CString(s: seq<char>): (r: seq<char>)
    requires '\0' in s
    ensures IsCString(r) && |r| < |s| && s[|r|] == '\0'
    ensures r == s[..|r|]
  {
    s[..StrLen(s)]
  }

  /** A buffer whose first n characters hold no terminator and whose n-th is one holds a C string of length n. */
  lemma TerminatedAt(a: seq<char>, n: nat)
    requires n < |a| && a[n] == '\0' && IsCString(a[..n])
    ensures '\0' in a && CString(a) == a[..n]
  {
    assert a[..n + 1][n] == '\0';
    forall i | 0 <= i < n ensures a[i] != '\0' {
      assert a[..n][i] == a[i];
    }
  }

  /** The C string starting j characters into a buffer is the rest of the buffer's C string from j on. */
  lemma CStringSuffix(a: seq<char>, j: nat)
    requires '\0' in a && j <= |CString(a)|
    ensures '\0' in a[j..] && CString(a[j..]) == CString(a)[j..]
  {
    var s := CString(a);
    assert a[j..][|s| - j] == '\0';
    assert a[j..][..|s| - j] == s[j..];
    TerminatedAt(a[j..], |s| - j);
  }

  /** strchr from index `from` on: the first occurrence of c, if any. */
  function IndexFrom(s: seq<char>, c: char, from: nat): (r: Option<nat>)
    requires from <= |s|
    ensures r.Some? ==> from <= r.value < |s| && s[r.value] == c
    ensures r.Some? ==> forall i | from <= i < r.value :: s[i] != c
    ensures r.None? ==> forall i | from <= i < |s| :: s[i] != c
    decreases |s| - from
  {
    if from == |s| then None
    else if s[from] == c then Some(from)
    else IndexFrom(s, c, from + 1)
  }

  /** isspace in the "C" locale: space, \t, \n, \v, \f, \r. */
  predicate IsSpace(c: char)
  {
    c == ' ' || c == '\t' || c == '\n' || c == '\U{0B}' || c == '\U{0C}' || c == '\r'
  }

  /** isdigit. */
  predicate IsDigit(c: char)
  {
    '0' <= c <= '9'
  }

  /** islower in the "C" locale. */
  predicate IsLower(c: char)
  {
    'a' <= c <= 'z'
  }

  /** isupper in the "C" locale. */
  predicate IsUpper(c: char)
  {
    'A' <= c <= 'Z'
  }

  /** toupper: lower-case letters move to upper case, everything else stays. */
  function ToUpper(c: char): (r: char)
    ensures IsLower(c) ==> IsUpper(r)
    ensures !IsLower(c) ==> r == c
  {
    if IsLower(c) then (c as int - 32) as char else c
  }

  /** tolower: upper-case letters move to lower case, everything else stays. */
  function ToLower(c: char): (r: char)
    ensures IsUpper(c) ==> IsLower(r)
    ensures !IsUpper(c) ==> r == c
  {
    if IsUpper(c) then (c as int + 32) as char else c
  }

  /** toupper and tolower undo each other on letters. */
  lemma CaseRoundTrip(c: char)
    ensures IsLower(c) ==> ToLower(ToUpper(c)) == c
    ensures IsUpper(c) ==> ToUpper(ToLower(c)) == c
  {
  }

  /** The value of a digit character in bases up to 36, or 36 for a non-digit. */
  function DigitValue(c: char): (v: nat)
    ensures v <= 36
    ensures v < 10 <==> IsDigit(c)
  {
    if '0' <= c <= '9' then c as int - '0' as int
    else if 'a' <= c <= 'z' then c as int - 'a' as int + 10
    else if 'A' <= c <= 'Z' then c as int - 'A' as int + 10
    else 36
  }

  /** Number of consecutive characters of s, from index i on, that are digits in the given base. */
  function DigitRun(s: seq<char>, i: nat, base: nat): (n: nat)
    requires i <= |s|
    ensures i + n <= |s|
    decreases |s| - i
  {
    if i == |s| || DigitValue(s[i]) >= base then 0 else 1 + DigitRun(s, i + 1, base)
  }

  /** The number written by the digits s[lo..hi] in the given base, most significant first. */
  function DigitsValue(s: seq<char>, lo: nat, hi: nat, base: nat): nat
    requires lo <= hi <= |s|
    decreases hi - lo
  {
    if lo == hi then 0 else DigitsValue(s, lo, hi - 1, base) * base + DigitValue(s[hi - 1])
  }

  /** Index of the first character at or after i that is not white space. */
  function SkipSpaces(s: seq<char>, i: nat): (j: nat)
    requires i <= |s|
    ensures i <= j <= |s|
    decreases |s| - i
  {
    if i == |s| || !IsSpace(s[i]) then i else SkipSpaces(s, i + 1)
  }

  /** Index just past the leading white space and an optional sign. */
  function SignEnd(s: seq<char>): (p: nat)
    ensures p <= |s|
  {
    var ws := SkipSpaces(s, 0);
    if ws < |s| && (s[ws] == '-' || s[ws] == '+') then ws + 1 else ws
  }

  /** Whether the sign read by strtol is a minus. */
  predicate IsMinus(s: seq<char>)
  {
    SkipSpaces(s, 0) < |s| && s[SkipSpaces(s, 0)] == '-'
  }

  /** Base 0 picks hexadecimal when "0x" or "0X" and a hexadecimal digit follow position p. */
  predicate HexPrefix(s: seq<char>, p: nat)
  {
    p + 2 < |s| && s[p] == '0' && (s[p + 1] == 'x' || s[p + 1] == 'X') && DigitValue(s[p + 2]) < 16
  }

  /** The base strtol chooses for the number starting at p. */
  function ChosenBase(s: seq<char>, p: nat): (base: nat)
    ensures base == 8 || base == 10 || base == 16
  {
    if HexPrefix(s, p) then 16 else if p < |s| && s[p] == '0' then 8 else 10
  }

  /**
   * strtol(s, &e, 0): white space, an optional sign, then a hexadecimal
   * number after "0x"/"0X", an octal number after a leading 0, or a decimal
   * number.  `used` is e - s; when no digit is found e is s itself and the
   * value 0.  Clamping to LONG_MIN/LONG_MAX is not modelled.
   */
  function StrToL(s: seq<char>): (r: (int, nat))
    ensures r.1 <= |s|
    ensures r.1 == 0 ==> r.0 == 0
    ensures r.1 > 0 ==> SignEnd(s) < r.1
  {
    var (v, used) := NumberAt(s, SignEnd(s));
    if used == 0 then (0, 0) else (if IsMinus(s) then -(v as int) else v, used)
  }

  /**
   * The unsigned number strtol with base 0 reads at position p, and the index
   * just past it; (0, 0) when there is no digit there.
   */
  function NumberAt(s: seq<char>, p: nat): (r: (nat, nat))
    requires p <= |s|
    ensures r.1 == 0 || p < r.1 <= |s|
  {
    var base := ChosenBase(s, p);
    var start := if HexPrefix(s, p) then p + 2 else p;
    var n := DigitRun(s, start, base);
    if n == 0 then (0, 0) else (DigitsValue(s, start, start + n, base), start + n)
  }

  /** The decimal digit character for d. */
  function DigitChar(d: nat): (c: char)
    requires d < 10
    ensures IsDigit(c) && DigitValue(c) == d
  {
    ('0' as int + d) as char
  }

  /** printf("%d") of a natural number: decimal digits, no leading zero. */
  function NatToString(n: nat): (s: seq<char>)
    ensures |s| > 0 && forall i | 0 <= i < |s| :: IsDigit(s[i])
    ensures |s| > 1 ==> s[0] != '0'
    decreases n
  {
    if n < 10 then [DigitChar(n)] else NatToString(n / 10) + [DigitChar(n % 10)]
  }

  /** printf("%d") of an integer: a minus sign before the digits of a negative number. */
  function IntToString(n: int): (s: seq<char>)
    ensures IsCString(s) && |s| > 0
  {
    if n < 0 then "-" + NatToString(-n) else NatToString(n)
  }

  /** The value of digits depends only on the digits: s[lo..hi] equal to t[0..hi-lo]. */
  lemma {:induction false} DigitsValueShift(s: seq<char>, t: seq<char>, lo: nat, hi: nat, base: nat)
    requires lo <= hi <= |s| && hi - lo <= |t|
    requires forall i | 0 <= i < hi - lo :: s[lo + i] == t[i]
    ensures DigitsValue(s, lo, hi, base) == DigitsValue(t, 0, hi - lo, base)
    decreases hi - lo
  {
    if lo < hi {
      DigitsValueShift(s, t, lo, hi - 1, base);
      assert s[hi - 1] == t[hi - 1 - lo];
    }
  }

  /** The digits of NatToString read back in base 10 give n. */
  lemma {:induction false} NatToStringValue(n: nat)
    ensures DigitsValue(NatToString(n), 0, |NatToString(n)|, 10) == n
    decreases n
  {
    var s := NatToString(n);
    if n >= 10 {
      var t := NatToString(n / 10);
      NatToStringValue(n / 10);
      DigitsValueShift(s, t, 0, |t|, 10);
    }
  }

  /** A run of decimal digits at p, followed by a non-digit or the end, is found whole. */
  lemma {:induction false} DigitRunOfDigits(s: seq<char>, p: nat, len: nat)
    requires p + len <= |s|
    requires forall i | p <= i < p + len :: IsDigit(s[i])
    requires p + len < |s| ==> !IsDigit(s[p + len])
    ensures DigitRun(s, p, 10) == len
    decreases len
  {
    if len > 0 {
      DigitRunOfDigits(s, p + 1, len - 1);
    }
  }

  /**
   * strtol reads back what %d wrote: on IntToString(n) followed by anything
   * that does not start with a letter or digit, it returns n and stops right
   * after the number.
   */
  lemma StrToLIntToString(n: int, rest: seq<char>)
    requires |rest| > 0 ==> DigitValue(rest[0]) == 36
    ensures StrToL(IntToString(n) + rest) == (n, |IntToString(n)|)
  {
    var m: nat := if n < 0 then -n else n;
    var s := IntToString(n) + rest;
    var p := if n < 0 then 1 else 0;
    SignBack(n, rest);
    NumberBack(s, p, m);
  }

  /** The sign %d writes is the one strtol reads. */
  lemma SignBack(n: int, rest: seq<char>)
    ensures var s := IntToString(n) + rest;
      SignEnd(s) == (if n < 0 then 1 else 0) && (IsMinus(s) <==> n < 0)
  {
    var s := IntToString(n) + rest;
    assert SkipSpaces(s, 0) == 0 by {
      assert !IsSpace(s[0]);
    }
  }

  /** The digits of m written at p, followed by a non-digit or the end, are read back as m. */
  lemma NumberBack(s: seq<char>, p: nat, m: nat)
    requires p + |NatToString(m)| <= |s| && s[p..p + |NatToString(m)|] == NatToString(m)
    requires p + |NatToString(m)| < |s| ==> DigitValue(s[p + |NatToString(m)|]) == 36
    ensures NumberAt(s, p) == (m, p + |NatToString(m)|)
  {
    var d := NatToString(m);
    forall i | 0 <= i < |d| ensures s[p + i] == d[i] {
      assert s[p..p + |d|][i] == s[p + i];
    }
    NatToStringValue(m);
    if |d| > 1 || d[0] != '0' {
      DecimalBack(s, p, d);
    } else {
      assert s[p] == d[0];
      ZeroBack(s, p);
    }
  }

  /** The decimal case of StrToLIntToString: a number not starting with 0. */
  lemma DecimalBack(s: seq<char>, p: nat, d: seq<char>)
    requires p + |d| <= |s| && |d| > 0 && d[0] != '0'
    requires forall i | 0 <= i < |d| :: s[p + i] == d[i] && IsDigit(d[i])
    requires p + |d| < |s| ==> DigitValue(s[p + |d|]) == 36
    ensures NumberAt(s, p) == (DigitsValue(d, 0, |d|, 10), p + |d|)
  {
    assert !HexPrefix(s, p) && ChosenBase(s, p) == 10 by {
      assert s[p] == d[0];
    }
    assert DigitRun(s, p, 10) == |d| by {
      forall i | p <= i < p + |d| ensures IsDigit(s[i]) {
        assert s[p + (i - p)] == d[i - p];
      }
      DigitRunOfDigits(s, p, |d|);
    }
    DigitsValueShift(s, d, p, p + |d|, 10);
  }

  /** The zero case of StrToLIntToString: a lone 0 is read as octal. */
  lemma ZeroBack(s: seq<char>, p: nat)
    requires p < |s| && s[p] == '0'
    requires p + 1 < |s| ==> DigitValue(s[p + 1]) == 36
    ensures NumberAt(s, p) == (0, p + 1)
  {
    assert !HexPrefix(s, p);
    assert ChosenBase(s, p) == 8;
    assert DigitRun(s, p, 8) == 1;
    assert DigitsValue(s, p, p + 1, 8) == 0;
  }
}
