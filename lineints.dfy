/**
 * The integer field parsers of linefile.c.  lineFileCheckAllIntsNoAbort
 * reads a whole C string as an integer of 1, 2, 4 or 8 bytes, signed or
 * not, and reports a typed error code instead of aborting;
 * lineFileAllIntsArray applies it to each item of a comma-separated list,
 * cutting the list in place and restoring it.
 *
 * The value lineFileCheckAllIntsNoAbort writes through `val` is modelled as
 * the integer the caller reads back from a variable of that type; a NULL
 * `val` becomes `store == false`.  The message it formats into `errMsg` is
 * not modelled.
 */
module LineFileInts {
  import opened Wrappers
  import opened CLib

  /** 2^64: unsigned long long arithmetic is taken modulo this. */
  const TwoTo64: nat := 0x1_0000_0000_0000_0000

  /** The integer widths lineFileCheckAllIntsNoAbort accepts. */
  predicate ValidByteCount(byteCount: int)
  {
    byteCount == 1 || byteCount == 2 || byteCount == 4 || byteCount == 8
  }

  /** 256^n: the number of values of an n-byte integer. */
  function Span(n: nat): (r: nat)
    ensures r >= 1
  {
    if n == 0 then 1 else 256 * Span(n - 1)
  }

  /** x >> (8 * k): k shifts by one byte. */
  function ShiftBytes(x: nat, k: nat): nat
  {
    if k == 0 then x else ShiftBytes(x / 256, k - 1)
  }

  function Pow10(n: nat): (r: nat)
    ensures r >= 1
  {
    if n == 0 then 1 else 10 * Pow10(n - 1)
  }

  /** Whether x is a value of the C integer type of the given width and signedness. */
  predicate InType(x: int, isSigned: bool, byteCount: int)
    requires ValidByteCount(byteCount)
  {
    if isSigned then -(Span(byteCount) / 2) <= x < Span(byteCount) / 2
    else 0 <= x < Span(byteCount)
  }

  /**
   * The bound on the digits' value as lineFileCheckAllIntsNoAbort computes
   * it: all 64 bits set, shifted right to byteCount bytes, halved for a
   * signed type and raised by one after a minus sign.
   */
  function Limit(isSigned: bool, byteCount: int, isMinus: bool): (limit: nat)
    requires ValidByteCount(byteCount)
  {
    var all := ShiftBytes(0xFFFF_FFFF_FFFF_FFFF, 8 - byteCount);
    var half := if isSigned then all / 2 else all;
    if isSigned && isMinus then half + 1 else half
  }

  /** The limits: 2^(8n)-1 unsigned, 2^(8n-1)-1 signed, 2^(8n-1) after a minus sign. */
  lemma LimitValues(isSigned: bool, byteCount: int, isMinus: bool)
    requires ValidByteCount(byteCount)
    ensures var limit := Limit(isSigned, byteCount, isMinus);
      if !isSigned then limit == Span(byteCount) - 1
      else if isMinus then limit == Span(byteCount) / 2
      else limit == Span(byteCount) / 2 - 1
  {
    ShiftValues();
    SpanValues();
  }

  /** The all-ones 64-bit value shifted right to 1, 2, 4 and 8 bytes. */
  lemma ShiftValues()
    ensures ShiftBytes(0xFFFF_FFFF_FFFF_FFFF, 7) == 0xFF
    ensures ShiftBytes(0xFFFF_FFFF_FFFF_FFFF, 6) == 0xFFFF
    ensures ShiftBytes(0xFFFF_FFFF_FFFF_FFFF, 4) == 0xFFFF_FFFF
    ensures ShiftBytes(0xFFFF_FFFF_FFFF_FFFF, 0) == 0xFFFF_FFFF_FFFF_FFFF
  {
  }

  /** The number of values of 1-, 2-, 4- and 8-byte integers. */
  lemma SpanValues()
    ensures Span(1) == 0x100 && Span(2) == 0x1_0000 && Span(4) == 0x1_0000_0000 && Span(8) == TwoTo64
  {
  }

  /**
   * The outcome of lineFileCheckAllIntsNoAbort: 0 on success, 1 for
   * trailing characters or no digits at all, 2 on overflow, 3 for a minus
   * sign on an unsigned type, 4 for a minus sign with noNeg; `stored` is the
   * value written through `val`, None when nothing is written.
   */
  datatype IntCheck = IntCheck(code: nat, stored: Option<int>)

  const BadByteCountText := "Unexpected error: Invalid byte count for integer size in lineFileCheckAllIntsNoAbort, expected 1 2 4 or 8, got "

  /** The abort for a width other than 1, 2, 4 or 8 bytes. */
  function BadByteCount(byteCount: int): string
  {
    BadByteCountText + IntToString(byteCount) + "."
  }

  /** The magnitude with the sign read before it. */
  function Signed(isMinus: bool, magnitude: nat): int
  {
    if isMinus then -(magnitude as int) else magnitude
  }

  /** Whether the text starts with a minus sign. */
  predicate Minus(s: seq<char>)
  {
    |s| > 0 && s[0] == '-'
  }

  /**
   * What lineFileCheckAllIntsNoAbort evidently means to compute: after an
   * optional '-', the decimal digits run to the end of the string, and their
   * value is at most the limit of the type.  Overflow is reported before
   * trailing characters, as the digit loop comes first.
   */
  function CheckInt(s: seq<char>, store: bool, isSigned: bool, byteCount: int, noNeg: bool): (r: Result<IntCheck>)
    ensures r.Abort? <==> !ValidByteCount(byteCount)
    ensures r.Ok? ==> r.value.code <= 4 && (r.value.stored.Some? <==> store && r.value.code == 0)
  {
    if !ValidByteCount(byteCount) then Abort(BadByteCount(byteCount))
    else if Minus(s) && !isSigned then Ok(IntCheck(3, None))
    else if Minus(s) && noNeg then Ok(IntCheck(4, None))
    else Ok(ReadDigits(s, Limit(isSigned, byteCount, Minus(s)), store))
  }

  /**
   * The digits after the optional sign, against the limit: 2 when their
   * value exceeds it, else 1 when they are missing or do not reach the end,
   * else 0 with the signed value.
   */
  function ReadDigits(s: seq<char>, limit: nat, store: bool): (c: IntCheck)
    ensures c.code <= 2 && (c.stored.Some? <==> store && c.code == 0)
  {
    var p0 := if Minus(s) then 1 else 0;
    var n := DigitRun(s, p0, 10);
    var v := DigitsValue(s, p0, p0 + n, 10);
    if v > limit then IntCheck(2, None)
    else if p0 + n < |s| || n == 0 then IntCheck(1, None)
    else IntCheck(0, if store then Some(Signed(Minus(s), v)) else None)
  }

  /**
   * The digit loop of lineFileCheckAllIntsNoAbort as written, in unsigned
   * long long arithmetic over s[lo..hi]: the value reached, or None once one
   * of its tests fires (the product below the previous value, the sum below
   * the product, or the sum above the limit).
   */
  function WrappedDigits(s: seq<char>, lo: nat, hi: nat, limit: nat): (r: Option<nat>)
    requires lo <= hi <= |s|
    ensures r.Some? ==> r.value <= limit
    decreases hi - lo
  {
    if lo == hi then Some(0)
    else match WrappedDigits(s, lo, hi - 1, limit)
      case None => None
      case Some(res) =>
        var product := res * 10 % 0x1_0000_0000_0000_0000;
        var sum := (product + DigitValue(s[hi - 1])) % 0x1_0000_0000_0000_0000;
        if product < res || sum < product || sum > limit then None else Some(sum)
  }

  /** lineFileCheckAllIntsNoAbort as written: CheckInt with the wrapping digit loop. */
  function CheckIntAsWritten(s: seq<char>, store: bool, isSigned: bool, byteCount: int, noNeg: bool): (r: Result<IntCheck>)
    ensures r.Abort? <==> !ValidByteCount(byteCount)
    ensures r.Ok? ==> r.value.code <= 4 && (r.value.stored.Some? <==> store && r.value.code == 0)
  {
    if !ValidByteCount(byteCount) then Abort(BadByteCount(byteCount))
    else if Minus(s) && !isSigned then Ok(IntCheck(3, None))
    else if Minus(s) && noNeg then Ok(IntCheck(4, None))
    else Ok(ReadDigitsAsWritten(s, Limit(isSigned, byteCount, Minus(s)), store))
  }

  /** ReadDigits with the wrapping digit loop in place of the digits' value. */
  function ReadDigitsAsWritten(s: seq<char>, limit: nat, store: bool): (c: IntCheck)
    ensures c.code <= 2 && (c.stored.Some? <==> store && c.code == 0)
    ensures c.stored.Some? ==> -(limit as int) <= c.stored.value <= limit
  {
    var p0 := if Minus(s) then 1 else 0;
    var n := DigitRun(s, p0, 10);
    match WrappedDigits(s, p0, p0 + n, limit)
    case None => IntCheck(2, None)
    case Some(w) =>
      if p0 + n < |s| || n == 0 then IntCheck(1, None)
      else IntCheck(0, if store then Some(Signed(Minus(s), w)) else None)
  }

  // ---------------------------------------------------------------------
  // The two loops

  /**
   * lineFileCheckAllIntsNoAbort as written: `res` and `oldRes` are unsigned
   * long long, so the product and the sum wrap modulo 2^64.
   */
  method CheckAllIntsNoAbort(s: seq<char>, store: bool, isSigned: bool, byteCount: int, noNeg: bool)
    returns (r: Result<IntCheck>)
    ensures r == CheckIntAsWritten(s, store, isSigned, byteCount, noNeg)
  {
    if !ValidByteCount(byteCount) {
      return Abort(BadByteCount(byteCount));
    }
    var limit, p0, isMinus, code := SignAndLimit(s, isSigned, byteCount, noNeg);
    if code > 0 {
      return Ok(IntCheck(code, None));
    }
    var res, p, overflow := WrappedDigitLoop(s, p0, limit);
    if overflow {
      return Ok(IntCheck(2, None));
    }
    if p < |s| || p == p0 {
      return Ok(IntCheck(1, None));
    }
    if !store {
      return Ok(IntCheck(0, None));
    }
    r := Ok(IntCheck(0, Some(Signed(isMinus, res))));
  }

  /**
   * The evidently intended lineFileCheckAllIntsNoAbort: the same steps with
   * an accumulator that cannot wrap, so the limit test alone decides
   * overflow, for every width.
   */
  method CheckAllIntsExact(s: seq<char>, store: bool, isSigned: bool, byteCount: int, noNeg: bool)
    returns (r: Result<IntCheck>)
    ensures r == CheckInt(s, store, isSigned, byteCount, noNeg)
  {
    if !ValidByteCount(byteCount) {
      return Abort(BadByteCount(byteCount));
    }
    var limit, p0, isMinus, code := SignAndLimit(s, isSigned, byteCount, noNeg);
    if code > 0 {
      return Ok(IntCheck(code, None));
    }
    var res, p, overflow := ExactDigitLoop(s, p0, limit);
    if overflow {
      return Ok(IntCheck(2, None));
    }
    if p < |s| || p == p0 {
      return Ok(IntCheck(1, None));
    }
    if !store {
      return Ok(IntCheck(0, None));
    }
    r := Ok(IntCheck(0, Some(Signed(isMinus, res))));
  }

  /**
   * The start of lineFileCheckAllIntsNoAbort: the limit of the type, and the
   * sign.  `code` is 3 or 4 when the sign is refused, else 0, with the digits
   * starting at p0.
   */
  method SignAndLimit(s: seq<char>, isSigned: bool, byteCount: int, noNeg: bool)
    returns (limit: nat, p0: nat, isMinus: bool, code: nat)
    requires ValidByteCount(byteCount)
    ensures code == (if Minus(s) && !isSigned then 3 else if Minus(s) && noNeg then 4 else 0)
    ensures code == 0 ==>
      isMinus == Minus(s) && p0 == (if isMinus then 1 else 0) && limit == Limit(isSigned, byteCount, isMinus)
  {
    limit := ShiftBytes(0xFFFF_FFFF_FFFF_FFFF, 8 - byteCount);
    if isSigned {
      limit := limit / 2;
    }
    p0, isMinus, code := 0, false, 0;
    if |s| > 0 && s[0] == '-' {
      if isSigned {
        if noNeg {
          return limit, p0, isMinus, 4;
        }
        p0 := 1;
        limit := limit + 1;
        isMinus := true;
      } else {
        return limit, p0, isMinus, 3;
      }
    }
  }

  /** The digit loop as written, from p0 on, with the wrapping tests. */
  method WrappedDigitLoop(s: seq<char>, p0: nat, limit: nat) returns (res: nat, p: nat, overflow: bool)
    requires p0 <= |s|
    ensures overflow <==> WrappedDigits(s, p0, p0 + DigitRun(s, p0, 10), limit).None?
    ensures !overflow ==> p == p0 + DigitRun(s, p0, 10) && WrappedDigits(s, p0, p, limit) == Some(res)
  {
    ghost var n := DigitRun(s, p0, 10);
    var oldRes: nat := 0;
    res, p := 0, p0;
    while p < |s| && '0' <= s[p] <= '9'
      invariant p0 <= p <= |s| && n == (p - p0) + DigitRun(s, p, 10)
      invariant oldRes == res && WrappedDigits(s, p0, p, limit) == Some(res)
      decreases |s| - p
    {
      ghost var r0 := res;
      res := res * 10 % 0x1_0000_0000_0000_0000;
      if res < oldRes {
        WrappedStep(s, p0, p, limit, r0, res, (res + (s[p] as int - '0' as int)) % 0x1_0000_0000_0000_0000);
        WrappedStaysNone(s, p0, p + 1, p0 + n, limit);
        return res, p, true;
      }
      oldRes := res;
      res := (res + (s[p] as int - '0' as int)) % 0x1_0000_0000_0000_0000;
      WrappedStep(s, p0, p, limit, r0, oldRes, res);
      if res < oldRes || res > limit {
        WrappedStaysNone(s, p0, p + 1, p0 + n, limit);
        return res, p, true;
      }
      oldRes := res;
      p := p + 1;
    }
    overflow := false;
  }

  /** One more digit in the wrapping loop, for a decimal digit. */
  lemma WrappedStep(s: seq<char>, lo: nat, hi: nat, limit: nat, res: nat, product: int, sum: int)
    requires lo <= hi < |s| && '0' <= s[hi] <= '9' && WrappedDigits(s, lo, hi, limit) == Some(res)
    requires product == res * 10 % 0x1_0000_0000_0000_0000
    requires sum == (product + (s[hi] as int - '0' as int)) % 0x1_0000_0000_0000_0000
    ensures WrappedDigits(s, lo, hi + 1, limit) == if product < res || sum < product || sum > limit then None else Some(sum)
  {
  }

  /** The digit loop with an accumulator that cannot wrap. */
  method ExactDigitLoop(s: seq<char>, p0: nat, limit: nat) returns (res: nat, p: nat, overflow: bool)
    requires p0 <= |s|
    ensures overflow <==> DigitsValue(s, p0, p0 + DigitRun(s, p0, 10), 10) > limit
    ensures !overflow ==> p == p0 + DigitRun(s, p0, 10) && res == DigitsValue(s, p0, p, 10)
  {
    ghost var n := DigitRun(s, p0, 10);
    res, p := 0, p0;
    while p < |s| && '0' <= s[p] <= '9'
      invariant p0 <= p <= |s| && n == (p - p0) + DigitRun(s, p, 10)
      invariant res == DigitsValue(s, p0, p, 10) <= limit
      decreases |s| - p
    {
      res := res * 10 + (s[p] as int - '0' as int);
      if res > limit {
        DigitsValueGrows(s, p0, p + 1, p0 + n);
        return res, p, true;
      }
      p := p + 1;
    }
    overflow := false;
  }

  /** Appending decimal digits never lowers the value. */
  lemma {:induction false} DigitsValueGrows(s: seq<char>, lo: nat, mid: nat, hi: nat)
    requires lo <= mid <= hi <= |s|
    ensures DigitsValue(s, lo, mid, 10) <= DigitsValue(s, lo, hi, 10)
    decreases hi - mid
  {
    if mid < hi {
      DigitsValueGrows(s, lo, mid, hi - 1);
    }
  }

  /** Once the wrapping loop has stopped on overflow, more digits do not bring it back. */
  lemma {:induction false} WrappedStaysNone(s: seq<char>, lo: nat, mid: nat, hi: nat, limit: nat)
    requires lo <= mid <= hi <= |s| && WrappedDigits(s, lo, mid, limit).None?
    ensures WrappedDigits(s, lo, hi, limit).None?
    decreases hi - mid
  {
    if mid < hi {
      WrappedStaysNone(s, lo, mid, hi - 1, limit);
    }
  }

  // ---------------------------------------------------------------------
  // What the parser promises

  /** Below 2^32 the product and the sum cannot wrap, so the loop as written computes the digits' value exactly. */
  lemma {:induction false} WrappedIsExact(s: seq<char>, lo: nat, hi: nat, limit: nat)
    requires lo <= hi <= |s| && limit < 0x1_0000_0000
    ensures WrappedDigits(s, lo, hi, limit)
      == if DigitsValue(s, lo, hi, 10) > limit then None else Some(DigitsValue(s, lo, hi, 10))
    decreases hi - lo
  {
    if lo < hi {
      WrappedIsExact(s, lo, hi - 1, limit);
      DigitsValueGrows(s, lo, hi - 1, hi);
      var prev := DigitsValue(s, lo, hi - 1, 10);
      if prev <= limit {
        var sum := prev * 10 + DigitValue(s[hi - 1]);
        assert DigitsValue(s, lo, hi, 10) == sum;
        ModSmall(prev * 10);
        ModSmall(sum);
      }
    }
  }

  /** For 1, 2 and 4 bytes the code as written does what is intended. */
  lemma AsWrittenExactBelow8(s: seq<char>, store: bool, isSigned: bool, byteCount: int, noNeg: bool)
    requires byteCount != 8
    ensures CheckIntAsWritten(s, store, isSigned, byteCount, noNeg) == CheckInt(s, store, isSigned, byteCount, noNeg)
  {
    if ValidByteCount(byteCount) && !(Minus(s) && (!isSigned || noNeg)) {
      var p0 := if Minus(s) then 1 else 0;
      LimitValues(isSigned, byteCount, Minus(s));
      assert Span(1) == 0x100 && Span(2) == 0x1_0000 && Span(4) == 0x1_0000_0000;
      WrappedIsExact(s, p0, p0 + DigitRun(s, p0, 10), Limit(isSigned, byteCount, Minus(s)));
    }
  }

  /** The counterexample text: a 3 followed by nineteen zeros, 3 * 10^19. */
  function ThreeE19(): (s: seq<char>)
    ensures |s| == 20
  {
    "30000000000000000000"
  }

  /** The prefixes of ThreeE19 are worth 3 * 10^(k-1). */
  lemma {:induction false} ThreeE19Value(k: nat)
    requires 1 <= k <= 20
    ensures DigitsValue(ThreeE19(), 0, k, 10) == 3 * Pow10(k - 1)
  {
    var s := ThreeE19();
    if k > 1 {
      ThreeE19Value(k - 1);
      assert s[k - 1] == '0';
      var p := Pow10(k - 2);
      assert DigitsValue(s, 0, k, 10) == DigitsValue(s, 0, k - 1, 10) * 10 + DigitValue(s[k - 1]);
      assert Pow10(k - 1) == 10 * p;
    }
  }

  /** Up to nineteen digits, the wrapping loop reads ThreeE19's prefixes exactly. */
  lemma {:induction false} ThreeE19Wrapped(k: nat)
    requires 1 <= k <= 19
    ensures WrappedDigits(ThreeE19(), 0, k, TwoTo64 - 1) == Some(3 * Pow10(k - 1))
  {
    var s := ThreeE19();
    if k > 1 {
      ThreeE19Wrapped(k - 1);
      assert s[k - 1] == '0';
      var res := 3 * Pow10(k - 2);
      assert res * 10 == 3 * Pow10(k - 1);
      Pow10Below(k - 1);
      WrappedZeroStep(s, k, TwoTo64 - 1, res);
    } else {
      assert s[0] == '3';
    }
  }

  /** A '0' digit that does not overflow multiplies the wrapped value by ten. */
  lemma WrappedZeroStep(s: seq<char>, k: nat, limit: nat, res: nat)
    requires 1 <= k <= |s| && s[k - 1] == '0' && res * 10 <= limit && res * 10 < TwoTo64
    requires WrappedDigits(s, 0, k - 1, limit) == Some(res)
    ensures WrappedDigits(s, 0, k, limit) == Some(res * 10)
  {
    var product := res * 10;
    ModSmall(product);
    assert res * 10 % 0x1_0000_0000_0000_0000 == product;
    assert (product + DigitValue(s[k - 1])) % 0x1_0000_0000_0000_0000 == product;
  }

  /** x % 2^64 is x below 2^64. */
  lemma ModSmall(x: nat)
    requires x < TwoTo64
    ensures x % 0x1_0000_0000_0000_0000 == x
  {
  }

  /** 10^n for n <= 18 leaves room for three times it below 2^64. */
  lemma Pow10Below(n: nat)
    requires n <= 18
    ensures 3 * Pow10(n) < TwoTo64
  {
    Pow10Grows(n, 18);
    Pow10Of18();
  }

  lemma {:induction false} Pow10Grows(a: nat, b: nat)
    requires a <= b
    ensures Pow10(a) <= Pow10(b)
    decreases b - a
  {
    if a < b {
      Pow10Grows(a, b - 1);
    }
  }

  /**
   * The 64-bit overflow tests miss some overflows: "30000000000000000000"
   * read as an unsigned 8-byte integer is accepted as 11553255926290448384
   * (3 * 10^19 - 2^64), where the digits exceed the limit.
   */
  lemma WrapMissesOverflow(s: seq<char>)
    requires s == ThreeE19()
    ensures CheckIntAsWritten(s, true, false, 8, false) == Ok(IntCheck(0, Some(11553255926290448384)))
    ensures CheckInt(s, true, false, 8, false) == Ok(IntCheck(2, None))
  {
    assert s[0] == '3' && !Minus(s);
    assert forall i | 0 <= i < 20 :: IsDigit(s[i]);
    DigitRunOfDigits(s, 0, 20);
    assert Limit(false, 8, false) == TwoTo64 - 1;
    Pow10Of18();
    ThreeE19Value(20);
    ThreeE19Wrapped(19);
    var w := WrappedDigits(s, 0, 19, TwoTo64 - 1).value;
    assert w == 3_000_000_000_000_000_000;
    assert DigitsValue(s, 0, 20, 10) == 10 * w;
    assert s[19] == '0' && DigitValue(s[19]) == 0;
    ModOnce(w * 10);
    assert WrappedDigits(s, 0, 20, TwoTo64 - 1) == Some(10 * w - TwoTo64);
  }

  /** x % 2^64 is x - 2^64 between 2^64 and 2^65. */
  lemma ModOnce(x: nat)
    requires TwoTo64 <= x < 2 * TwoTo64
    ensures x % 0x1_0000_0000_0000_0000 == x - TwoTo64
    ensures (x % 0x1_0000_0000_0000_0000 + 0) % 0x1_0000_0000_0000_0000 == x - TwoTo64
  {
  }

  /** 10^18, reached nine factors at a time. */
  lemma Pow10Of18()
    ensures Pow10(18) == 1_000_000_000_000_000_000
  {
    assert Pow10(9) == 1_000_000_000;
    assert Pow10(14) == 100_000_000_000_000;
  }

  /** A stored value is a value of the requested type. */
  lemma StoredFits(s: seq<char>, isSigned: bool, byteCount: int, noNeg: bool)
    requires ValidByteCount(byteCount)
    ensures var r := CheckInt(s, true, isSigned, byteCount, noNeg);
      r.Ok? && r.value.code == 0 ==> InType(r.value.stored.value, isSigned, byteCount)
  {
    LimitValues(isSigned, byteCount, Minus(s));
  }

  /**
   * A number written in decimal is read back when its type can hold it, and
   * reported as overflow (2) exactly when it cannot.
   */
  lemma CheckIntOfNumber(n: int, isSigned: bool, byteCount: int, noNeg: bool)
    requires ValidByteCount(byteCount) && (n >= 0 || (isSigned && !noNeg))
    ensures CheckInt(IntToString(n), true, isSigned, byteCount, noNeg)
      == if InType(n, isSigned, byteCount) then Ok(IntCheck(0, Some(n))) else Ok(IntCheck(2, None))
  {
    var m := if n < 0 then -n else n;
    ReadDigitsOfNumber(n, Limit(isSigned, byteCount, n < 0));
    LimitValues(isSigned, byteCount, n < 0);
    assert InType(n, isSigned, byteCount) <==> m <= Limit(isSigned, byteCount, n < 0);
  }

  /** The digit reading of CheckInt on a number written with %d: its value, unless over the limit. */
  lemma ReadDigitsOfNumber(n: int, limit: nat)
    ensures Minus(IntToString(n)) <==> n < 0
    ensures ReadDigits(IntToString(n), limit, true)
      == if (if n < 0 then -n else n) <= limit then IntCheck(0, Some(n)) else IntCheck(2, None)
  {
    var s := IntToString(n);
    var m := if n < 0 then -n else n;
    DigitsOf(n, []);
    assert s + [] == s;
    assert Signed(n < 0, m) == n;
  }

  /** Characters after the digits make the text no number (1), unless the digits already overflowed (2). */
  lemma CheckIntTrailing(n: int, junk: seq<char>, isSigned: bool, byteCount: int, noNeg: bool)
    requires ValidByteCount(byteCount) && (n >= 0 || (isSigned && !noNeg))
    requires |junk| > 0 && !IsDigit(junk[0])
    ensures CheckInt(IntToString(n) + junk, true, isSigned, byteCount, noNeg)
      == if InType(n, isSigned, byteCount) then Ok(IntCheck(1, None)) else Ok(IntCheck(2, None))
  {
    DigitsOf(n, junk);
    LimitValues(isSigned, byteCount, n < 0);
  }

  /** The sign errors: a minus sign on an unsigned type is 3, on a signed one with noNeg 4. */
  lemma CheckIntSign(rest: seq<char>, store: bool, isSigned: bool, byteCount: int, noNeg: bool)
    requires ValidByteCount(byteCount) && (!isSigned || noNeg)
    ensures CheckInt("-" + rest, store, isSigned, byteCount, noNeg)
      == if !isSigned then Ok(IntCheck(3, None)) else Ok(IntCheck(4, None))
  {
  }

  /** An empty string, or a lone minus sign, has no digits: 1. */
  lemma CheckIntNoDigits(store: bool, isSigned: bool, byteCount: int, noNeg: bool)
    requires ValidByteCount(byteCount)
    ensures CheckInt("", store, isSigned, byteCount, noNeg) == Ok(IntCheck(1, None))
    ensures isSigned && !noNeg ==> CheckInt("-", store, isSigned, byteCount, noNeg) == Ok(IntCheck(1, None))
  {
  }

  /** Where the digits of IntToString(n) + junk start and end, and what they are worth. */
  lemma DigitsOf(n: int, junk: seq<char>)
    requires |junk| > 0 ==> !IsDigit(junk[0])
    ensures var s := IntToString(n) + junk; var p0 := if n < 0 then 1 else 0;
      var m := if n < 0 then -n else n;
      (Minus(s) <==> n < 0) && DigitRun(s, p0, 10) == |NatToString(m)|
      && DigitsValue(s, p0, p0 + |NatToString(m)|, 10) == m
      && |s| == p0 + |NatToString(m)| + |junk|
  {
    var m := if n < 0 then -n else n;
    var pre := if n < 0 then "-" else "";
    assert IntToString(n) + junk == pre + NatToString(m) + junk;
    SignOf(n, junk);
    DigitsAt(pre, m, junk);
  }

  /** IntToString(n) + junk starts with a minus sign exactly when n is negative. */
  lemma SignOf(n: int, junk: seq<char>)
    ensures Minus(IntToString(n) + junk) <==> n < 0
  {
    var s := IntToString(n) + junk;
    if n >= 0 {
      assert s[0] == NatToString(n)[0];
    }
  }

  /** The digits of m written after pre and followed by a non-digit are read back whole, as m. */
  lemma DigitsAt(pre: seq<char>, m: nat, junk: seq<char>)
    requires |junk| > 0 ==> !IsDigit(junk[0])
    ensures var s := pre + NatToString(m) + junk;
      DigitRun(s, |pre|, 10) == |NatToString(m)| && DigitsValue(s, |pre|, |pre| + |NatToString(m)|, 10) == m
  {
    DigitRunAt(pre, NatToString(m), junk);
    DigitsValueAt(pre, NatToString(m), junk);
    NatToStringValue(m);
  }

  /** A run of digits d after pre, followed by a non-digit, is found whole. */
  lemma DigitRunAt(pre: seq<char>, d: seq<char>, junk: seq<char>)
    requires forall i | 0 <= i < |d| :: IsDigit(d[i])
    requires |junk| > 0 ==> !IsDigit(junk[0])
    ensures DigitRun(pre + d + junk, |pre|, 10) == |d|
  {
    var s := pre + d + junk;
    DigitsInside(pre, d, junk);
    assert |pre| + |d| < |s| ==> s[|pre| + |d|] == junk[0];
    DigitRunOfDigits(s, |pre|, |d|);
  }

  /** The characters of d keep their digit-ness between pre and junk. */
  lemma DigitsInside(pre: seq<char>, d: seq<char>, junk: seq<char>)
    requires forall i | 0 <= i < |d| :: IsDigit(d[i])
    ensures forall i | |pre| <= i < |pre| + |d| :: IsDigit((pre + d + junk)[i])
  {
    forall i | |pre| <= i < |pre| + |d| ensures IsDigit((pre + d + junk)[i]) {
      assert (pre + d + junk)[i] == (pre + d)[i] == d[i - |pre|];
    }
  }

  /** The value of digits d does not depend on what surrounds them. */
  lemma DigitsValueAt(pre: seq<char>, d: seq<char>, junk: seq<char>)
    ensures DigitsValue(pre + d + junk, |pre|, |pre| + |d|, 10) == DigitsValue(d, 0, |d|, 10)
  {
    var s := pre + d + junk;
    var p0 := |pre|;
    forall i | 0 <= i < |d| ensures s[p0 + i] == d[i] {
      assert s[p0 + i] == (pre + d)[p0 + i];
    }
    DigitsValueShift(s, d, p0, p0 + |d|, 10);
  }

  // ---------------------------------------------------------------------
  // lineFileAllIntsArray

  /** The first item of a comma-separated list: the text before its first comma. */
  function FirstItem(t: seq<char>): (item: seq<char>)
    ensures ',' !in item
  {
    match IndexFrom(t, ',', 0)
    case None => t
    case Some(e) => t[..e]
  }

  /** What follows the first item's comma; nothing when there is no comma. */
  function AfterItem(t: seq<char>): (rest: seq<char>)
    ensures |t| > 0 ==> |rest| < |t|
  {
    match IndexFrom(t, ',', 0)
    case None => []
    case Some(e) => t[e + 1..]
  }

  /**
   * The items lineFileAllIntsArray parses from the C string t, left to
   * right: no more than arraySize (no bound when it is negative), none from
   * an empty rest, so a trailing comma starts no item.
   */
  function Items(t: seq<char>, arraySize: int): (items: seq<seq<char>>)
    ensures arraySize >= 0 ==> |items| <= arraySize
    ensures forall i | 0 <= i < |items| :: ',' !in items[i]
    decreases |t|
  {
    if |t| == 0 || arraySize == 0 then [] else [FirstItem(t)] + Items(AfterItem(t), arraySize - 1)
  }

  /** Items written back with a comma between each two. */
  function JoinCommas(items: seq<seq<char>>): seq<char>
  {
    if |items| == 0 then []
    else if |items| == 1 then items[0]
    else items[0] + "," + JoinCommas(items[1..])
  }

  /** Whether the text ends in a comma. */
  predicate TrailingComma(t: seq<char>)
  {
    |t| > 0 && t[|t| - 1] == ','
  }

  /**
   * With no bound reached, the items joined by commas give back the text,
   * less a trailing comma.
   */
  lemma {:induction false} ItemsJoin(t: seq<char>, arraySize: int)
    requires arraySize < 0 || |t| < arraySize
    ensures JoinCommas(Items(t, arraySize)) + (if TrailingComma(t) then "," else "") == t
    decreases |t|
  {
    if |t| > 0 {
      var u := AfterItem(t);
      ItemsJoin(u, arraySize - 1);
      match IndexFrom(t, ',', 0)
      case None =>
        assert !TrailingComma(t);
      case Some(e) =>
        ItemsJoinCut(t, arraySize, e);
    }
  }

  /** The step of ItemsJoin for a text whose first comma is at e. */
  lemma ItemsJoinCut(t: seq<char>, arraySize: int, e: nat)
    requires arraySize < 0 || |t| < arraySize
    requires IndexFrom(t, ',', 0) == Some(e)
    requires JoinCommas(Items(AfterItem(t), arraySize - 1)) + (if TrailingComma(AfterItem(t)) then "," else "") == AfterItem(t)
    ensures JoinCommas(Items(t, arraySize)) + (if TrailingComma(t) then "," else "") == t
  {
    var u := AfterItem(t);
    var first, more := t[..e], Items(u, arraySize - 1);
    ItemsAtComma(t, arraySize, e);
    TrailingSplit(first, u);
    if |u| == 0 {
      assert [first] + more == [first];
    } else {
      JoinStep(first, more, u, if TrailingComma(u) then "," else "");
    }
  }

  /** At a comma, the text is its first item, the comma and the rest, and so are its items. */
  lemma ItemsAtComma(t: seq<char>, arraySize: int, e: nat)
    requires arraySize < 0 || |t| < arraySize
    requires IndexFrom(t, ',', 0) == Some(e)
    ensures e < |t| && t == t[..e] + "," + AfterItem(t)
    ensures Items(t, arraySize) == [t[..e]] + Items(AfterItem(t), arraySize - 1)
  {
    assert t == t[..e] + [t[e]] + t[e + 1..];
  }

  /** Joining one more item in front puts it and a comma before the rest. */
  lemma JoinStep(first: seq<char>, more: seq<seq<char>>, u: seq<char>, tc: seq<char>)
    requires |more| > 0 && JoinCommas(more) + tc == u
    ensures JoinCommas([first] + more) + tc == first + "," + u
  {
    assert ([first] + more)[1..] == more;
    AppendAssoc(first + ",", JoinCommas(more), tc);
  }

  /** A text cut at a comma ends in a comma when its rest is empty or does. */
  lemma TrailingSplit(first: seq<char>, u: seq<char>)
    ensures TrailingComma(first + "," + u) == (|u| == 0 || TrailingComma(u))
  {
    var t := first + "," + u;
    if |u| > 0 {
      assert t[|t| - 1] == u[|u| - 1];
    }
  }

  lemma AppendAssoc(a: seq<char>, b: seq<char>, c: seq<char>)
    ensures (a + b) + c == a + (b + c)
  {
  }

  /** The abort of lineFileAllIntsArray for a malformed item. */
  function BadItem(column: nat): string
  {
    "invalid integer in column " + NatToString(column) + " of array field"
  }

  /**
   * The values of the items, parsed one after the other with the checker as
   * written (CheckIntAsWritten, the wrapping digit loop included); the first
   * item that is not a number aborts.  `column` counts the items before.
   */
  function ItemValues(items: seq<seq<char>>, column: nat, isSigned: bool, byteCount: int, noNeg: bool): (r: Result<seq<int>>)
    ensures r.Ok? ==> |r.value| == |items|
    ensures r.Ok? ==> forall i | 0 <= i < |items| ::
      CheckIntAsWritten(items[i], true, isSigned, byteCount, noNeg) == Ok(IntCheck(0, Some(r.value[i])))
    decreases |items|
  {
    if |items| == 0 then Ok([])
    else
      var c := CheckIntAsWritten(items[0], true, isSigned, byteCount, noNeg);
      if c.Abort? then Abort(c.reason)
      else if c.value.code > 0 then Abort(BadItem(column))
      else match ItemValues(items[1..], column + 1, isSigned, byteCount, noNeg)
        case Abort(m) => Abort(m)
        case Ok(vs) => Ok([c.value.stored.value] + vs)
  }

  /** For 1, 2 and 4 bytes each value ItemValues gives is the one the intended parser reads. */
  lemma ItemValuesBelow8(items: seq<seq<char>>, column: nat, isSigned: bool, byteCount: int, noNeg: bool)
    requires byteCount != 8
    ensures var r := ItemValues(items, column, isSigned, byteCount, noNeg);
      r.Ok? ==> forall i | 0 <= i < |items| ::
        CheckInt(items[i], true, isSigned, byteCount, noNeg) == Ok(IntCheck(0, Some(r.value[i])))
  {
    forall i | 0 <= i < |items|
      ensures CheckInt(items[i], true, isSigned, byteCount, noNeg) == CheckIntAsWritten(items[i], true, isSigned, byteCount, noNeg)
    {
      AsWrittenExactBelow8(items[i], true, isSigned, byteCount, noNeg);
    }
  }

  /** The values so far followed by those of the rest, or the rest's abort. */
  function Then(done: seq<int>, rest: Result<seq<int>>): Result<seq<int>>
  {
    match rest
    case Abort(m) => Abort(m)
    case Ok(vs) => Ok(done + vs)
  }

  /** The C string at b[pos..] is t. */
  predicate At(b: seq<char>, pos: nat, t: seq<char>)
  {
    pos < |b| && '\0' in b[pos..] && CString(b[pos..]) == t
  }

  /**
   * One round of lineFileAllIntsArray: cut the list at its first comma,
   * parse the item before it and, when it is a number, put the comma back;
   * `next` is where the rest of the list starts, None after the last item.
   */
  method ParseFirstItem(buf: array<char>, pos: nat, store: bool, isSigned: bool, byteCount: int, noNeg: bool,
                        ghost b0: seq<char>, ghost t: seq<char>)
    returns (check: Result<IntCheck>, next: Option<nat>)
    requires buf[..] == b0 && At(b0, pos, t)
    modifies buf
    ensures check == CheckIntAsWritten(FirstItem(t), store, isSigned, byteCount, noNeg)
    ensures check.Ok? && check.value.code == 0 ==> buf[..] == b0
    ensures check.Ok? && check.value.code == 0 ==> (next.None? <==> IndexFrom(t, ',', 0).None?)
    ensures check.Ok? && check.value.code == 0 && next.Some? ==> At(b0, next.value, AfterItem(t))
  {
    var comma := CutAtComma(buf, pos, b0, t);
    var item := CString(buf[pos..]);
    check := CheckAllIntsNoAbort(item, store, isSigned, byteCount, noNeg);
    if check.Abort? || check.value.code > 0 {
      return check, None;
    }
    next := RestoreComma(buf, pos, comma, b0, t);
  }

  /** `*e = 0` at the first comma of the C string t at buf[pos..]: the buffer then holds t's first item there. */
  method CutAtComma(buf: array<char>, pos: nat, ghost b0: seq<char>, ghost t: seq<char>) returns (comma: Option<nat>)
    requires buf[..] == b0 && At(b0, pos, t)
    modifies buf
    ensures comma == IndexFrom(t, ',', 0)
    ensures comma.None? ==> buf[..] == b0
    ensures comma.Some? ==>
      pos + comma.value < |b0| && b0[pos + comma.value] == ',' && buf[..] == b0[pos + comma.value := '\0']
    ensures At(buf[..], pos, FirstItem(t))
  {
    comma := IndexFrom(CString(buf[pos..]), ',', 0);
    if comma.Some? {
      buf[pos + comma.value] := '\0';
      assert buf[pos..][..comma.value] == t[..comma.value];
      TerminatedAt(buf[pos..], comma.value);
    }
  }

  /** `*e = ','` after a good item: the buffer is whole again and the next item starts after the comma. */
  method RestoreComma(buf: array<char>, pos: nat, comma: Option<nat>, ghost b0: seq<char>, ghost t: seq<char>)
    returns (next: Option<nat>)
    requires At(b0, pos, t) && comma == IndexFrom(t, ',', 0)
    requires comma.None? ==> buf[..] == b0
    requires comma.Some? ==>
      pos + comma.value < |b0| && b0[pos + comma.value] == ',' && buf[..] == b0[pos + comma.value := '\0']
    modifies buf
    ensures buf[..] == b0
    ensures next.None? <==> comma.None?
    ensures next.Some? ==> At(b0, next.value, AfterItem(t))
  {
    if comma.Some? {
      buf[pos + comma.value] := ',';
      assert buf[..] == b0;
      CStringSuffix(b0[pos..], comma.value + 1);
      assert b0[pos..][comma.value + 1..] == b0[pos + comma.value + 1..];
      next := Some(pos + comma.value + 1);
    } else {
      next := None;
    }
  }

  /**
   * lineFileAllIntsArray on the C string at buf[from..]: parses the items
   * into arr (validation only when arr is null) and returns their count;
   * aborts on the first item that is not a number of the type.  The commas
   * it cuts at are restored.
   */
  method AllIntsArray(buf: array<char>, from: nat, arr: array?<int>, arraySize: int,
                      isSigned: bool, byteCount: int, noNeg: bool) returns (r: Result<nat>)
    requires from < buf.Length && '\0' in buf[from..]
    requires arr != null ==> 0 <= arraySize <= arr.Length
    modifies buf, arr
    ensures var values := ItemValues(Items(old(CString(buf[from..])), arraySize), 0, isSigned, byteCount, noNeg);
      r.Ok? <==> values.Ok?
    ensures var values := ItemValues(Items(old(CString(buf[from..])), arraySize), 0, isSigned, byteCount, noNeg);
      r.Abort? ==> values == Abort(r.reason)
    ensures var values := ItemValues(Items(old(CString(buf[from..])), arraySize), 0, isSigned, byteCount, noNeg);
      r.Ok? ==>
        r.value == |values.value| && buf[..] == old(buf[..]) &&
        (arr != null ==> arr[..r.value] == values.value && arr[r.value..] == old(arr[r.value..]))
  {
    ghost var b0 := buf[..];
    ghost var a0 := if arr == null then [] else arr[..];
    ghost var t := CString(buf[from..]);
    ghost var spec := ItemValues(Items(t, arraySize), 0, isSigned, byteCount, noNeg);
    ghost var vals;
    r, vals := ItemLoop(buf, from, arr, arraySize, isSigned, byteCount, noNeg, b0, a0, t, spec);
    if r.Ok? && arr != null {
      assert arr[..r.value] == (vals + a0[r.value..])[..r.value];
      assert arr[r.value..] == (vals + a0[r.value..])[r.value..];
    }
  }

  /**
   * The loop of lineFileAllIntsArray: one item per round, from the C string
   * t at buf[from..], until the text or the budget of arraySize items runs
   * out or an item fails.
   */
  method ItemLoop(buf: array<char>, from: nat, arr: array?<int>, arraySize: int,
                  isSigned: bool, byteCount: int, noNeg: bool,
                  ghost b0: seq<char>, ghost a0: seq<int>, ghost t: seq<char>, ghost spec: Result<seq<int>>)
    returns (r: Result<nat>, ghost vals: seq<int>)
    requires buf[..] == b0 && At(b0, from, t)
    requires arr != null ==> 0 <= arraySize <= arr.Length && arr[..] == a0
    requires spec == ItemValues(Items(t, arraySize), 0, isSigned, byteCount, noNeg)
    modifies buf, arr
    ensures r.Abort? ==> spec == Abort(r.reason)
    ensures r.Ok? ==>
      spec == Ok(vals) && r.value == |vals| && buf[..] == b0 &&
      (arr != null ==> arr[..] == vals + a0[r.value..])
  {
    ghost var rest := t;
    ghost var budget := arraySize;
    vals := [];
    var pos: Option<nat> := Some(from);
    var count: nat := 0;
    ThenNothing(spec);
    assert Inv(buf, arr, pos, count, arraySize, isSigned, byteCount, noNeg, b0, a0, rest, budget, vals, spec);
    while true
      invariant Inv(buf, arr, pos, count, arraySize, isSigned, byteCount, noNeg, b0, a0, rest, budget, vals, spec)
      decreases |rest|
    {
      var done := Finished(buf, arr, pos, count, arraySize, isSigned, byteCount, noNeg, b0, a0, rest, budget, vals, spec);
      if done {
        break;
      }
      var stop, next, vals', after, count', budget' := Round(buf, arr, pos.value, count, arraySize, isSigned, byteCount, noNeg, b0, a0, rest, budget, vals, spec);
      if stop.Some? {
        return Abort(stop.value), vals;
      }
      vals := vals';
      count := count';
      budget := budget';

      rest := after;
      pos := next;
    }
    r := Ok(count);
  }

  /**
   * What holds at the head of each round of lineFileAllIntsArray, with the
   * item at pos next: the text from pos is the C string rest, the buffer is
   * as it was, the count values parsed so far followed by what rest gives
   * make up the outcome, and they fill the front of the array.
   */
  ghost predicate Inv(buf: array<char>, arr: array?<int>, pos: Option<nat>, count: nat, arraySize: int,
                      isSigned: bool, byteCount: int, noNeg: bool, b0: seq<char>, a0: seq<int>,
                      rest: seq<char>, budget: int, vals: seq<int>, spec: Result<seq<int>>)
    reads buf, arr
  {
    (pos.Some? ==> At(b0, pos.value, rest)) && (pos.None? ==> rest == []) && buf[..] == b0 &&
    |vals| == count && budget == arraySize - count && (arraySize >= 0 ==> count <= arraySize) &&
    spec == Then(vals, ItemValues(Items(rest, budget), count, isSigned, byteCount, noNeg)) &&
    (arr != null ==> 0 <= arraySize <= arr.Length == |a0| && count <= arraySize && arr[..] == vals + a0[count..])
  }

  /**
   * The test at the head of the loop of lineFileAllIntsArray: no more text,
   * an empty rest, or arraySize items parsed.  Once it holds, the values
   * parsed so far are the outcome.
   */
  method Finished(buf: array<char>, arr: array?<int>, pos: Option<nat>, count: nat, arraySize: int,
                  isSigned: bool, byteCount: int, noNeg: bool, ghost b0: seq<char>, ghost a0: seq<int>,
                  ghost rest: seq<char>, ghost budget: int, ghost vals: seq<int>, ghost spec: Result<seq<int>>)
    returns (done: bool)
    requires Inv(buf, arr, pos, count, arraySize, isSigned, byteCount, noNeg, b0, a0, rest, budget, vals, spec)
    ensures done ==> spec == Ok(vals)
    ensures !done ==> pos.Some? && |rest| > 0 && budget != 0
  {
    if pos.None? {
      ThenDone(vals, rest, budget, count, isSigned, byteCount, noNeg);
      return true;
    }
    AtEmpty(b0, pos.value, rest);
    if buf[pos.value] == '\0' || count == arraySize {
      ThenDone(vals, rest, budget, count, isSigned, byteCount, noNeg);
      return true;
    }
    done := false;
  }

  /**
   * The body of the loop of lineFileAllIntsArray for the item at pos: parse
   * it, store its value, and find where the next one starts.  `stop` is the
   * abort message when the item is not a number of the type.
   */
  method Round(buf: array<char>, arr: array?<int>, pos: nat, count: nat, arraySize: int,
               isSigned: bool, byteCount: int, noNeg: bool, ghost b0: seq<char>, ghost a0: seq<int>,
               ghost rest: seq<char>, ghost budget: int, ghost vals: seq<int>, ghost spec: Result<seq<int>>)
    returns (stop: Option<string>, next: Option<nat>, ghost vals': seq<int>, ghost after: seq<char>, count': nat, ghost budget': int)
    requires Inv(buf, arr, Some(pos), count, arraySize, isSigned, byteCount, noNeg, b0, a0, rest, budget, vals, spec)
    requires |rest| > 0 && budget != 0
    modifies buf, arr
    ensures stop.Some? ==> spec == Abort(stop.value)
    ensures stop.None? ==>
      |after| < |rest| &&
      Inv(buf, arr, next, count', arraySize, isSigned, byteCount, noNeg, b0, a0, after, budget', vals', spec)
  {
    after := AfterItem(rest);
    count' := count + 1;
    budget' := budget - 1;
    var check;
    check, next := ParseFirstItem(buf, pos, arr != null, isSigned, byteCount, noNeg, b0, rest);
    ghost var v := Advance(spec, vals, rest, budget, count, after, budget', count', check, arr != null, isSigned, byteCount, noNeg);
    vals' := vals + [v];
    if check.Abort? {
      return Some(check.reason), None, vals', after, count, budget;
    }
    if check.value.code > 0 {
      return Some(BadItem(count)), None, vals', after, count, budget;
    }
    if arr != null {
      Put(arr, count, count', check.value.stored.value, vals, a0);
    }
    stop := None;
  }

  /** `cArray[count] = value`: the values so far grow by one, the rest of the array is left alone. */
  method Put(arr: array<int>, count: nat, count': nat, v: int, ghost vals: seq<int>, ghost a0: seq<int>)
    requires count < arr.Length == |a0| && |vals| == count && arr[..] == vals + a0[count..] && count' == count + 1
    modifies arr
    ensures arr[..] == (vals + [v]) + a0[count'..]
  {
    arr[count] := v;
    assert arr[..] == (vals + [v]) + a0[count'..];
  }

  /** The C string at b[pos..] is empty exactly when b[pos] is the terminator. */
  lemma AtEmpty(b: seq<char>, pos: nat, t: seq<char>)
    requires At(b, pos, t)
    ensures b[pos] == '\0' <==> |t| == 0
  {
    assert b[pos..][0] == b[pos];
  }

  /** With no items left, the outcome is the values found so far. */
  lemma ThenDone(vals: seq<int>, rest: seq<char>, budget: int, column: nat, isSigned: bool, byteCount: int, noNeg: bool)
    requires |rest| == 0 || budget == 0
    ensures Then(vals, ItemValues(Items(rest, budget), column, isSigned, byteCount, noNeg)) == Ok(vals)
  {
    assert vals + [] == vals;
  }

  /** The first item's value, or the abort it causes. */
  function NextValue(t: seq<char>, column: nat, isSigned: bool, byteCount: int, noNeg: bool): (r: Result<int>)
    ensures r.Ok? ==> CheckIntAsWritten(FirstItem(t), true, isSigned, byteCount, noNeg) == Ok(IntCheck(0, Some(r.value)))
  {
    var c := CheckIntAsWritten(FirstItem(t), true, isSigned, byteCount, noNeg);
    if c.Abort? then Abort(c.reason)
    else if c.value.code > 0 then Abort(BadItem(column))
    else Ok(c.value.stored.value)
  }

  /** Passing no `val` changes only what is stored. */
  lemma StoreOnlyStores(s: seq<char>, isSigned: bool, byteCount: int, noNeg: bool)
    ensures var c := CheckInt(s, true, isSigned, byteCount, noNeg);
      CheckInt(s, false, isSigned, byteCount, noNeg) == if c.Abort? then c else Ok(IntCheck(c.value.code, None))
    ensures var c := CheckIntAsWritten(s, true, isSigned, byteCount, noNeg);
      CheckIntAsWritten(s, false, isSigned, byteCount, noNeg) == if c.Abort? then c else Ok(IntCheck(c.value.code, None))
  {
  }

  /**
   * One round of the list loop at the level of values: what the outcome of
   * parsing the next item means for the whole list.  `v` is the item's value.
   */
  lemma Advance(spec: Result<seq<int>>, vals: seq<int>, rest: seq<char>, budget: int, column: nat,
                after: seq<char>, budget': int, column': nat,
                check: Result<IntCheck>, store: bool, isSigned: bool, byteCount: int, noNeg: bool)
    returns (v: int)
    requires |rest| > 0 && budget != 0
    requires after == AfterItem(rest) && budget' == budget - 1 && column' == column + 1
    requires spec == Then(vals, ItemValues(Items(rest, budget), column, isSigned, byteCount, noNeg))
    requires check == CheckIntAsWritten(FirstItem(rest), store, isSigned, byteCount, noNeg)
    ensures check.Abort? ==> spec == Abort(check.reason)
    ensures check.Ok? && check.value.code > 0 ==> spec == Abort(BadItem(column))
    ensures check.Ok? && check.value.code == 0 ==>
      (store ==> check.value.stored == Some(v)) &&
      spec == Then(vals + [v], ItemValues(Items(after, budget'), column', isSigned, byteCount, noNeg))
  {
    v := 0;
    var step := NextValue(rest, column, isSigned, byteCount, noNeg);
    ItemsStep(rest, budget, column, isSigned, byteCount, noNeg);
    StoreOnlyStores(FirstItem(rest), isSigned, byteCount, noNeg);
    if step.Ok? {
      v := step.value;
      ThenStep(vals, v, ItemValues(Items(AfterItem(rest), budget - 1), column + 1, isSigned, byteCount, noNeg));
    }
  }

  /** Nothing found yet: the outcome is that of the rest. */
  lemma ThenNothing(r: Result<seq<int>>)
    ensures Then([], r) == r
  {
    if r.Ok? {
      assert [] + r.value == r.value;
    }
  }

  /** Values found one at a time, then the rest. */
  lemma ThenStep(vals: seq<int>, v: int, rest: Result<seq<int>>)
    ensures Then(vals, Then([v], rest)) == Then(vals + [v], rest)
  {
    if rest.Ok? {
      assert vals + ([v] + rest.value) == (vals + [v]) + rest.value;
    }
  }

  /** One item of the list: what ItemValues does with the first item and the rest. */
  lemma ItemsStep(t: seq<char>, budget: int, column: nat, isSigned: bool, byteCount: int, noNeg: bool)
    requires |t| > 0 && budget != 0
    ensures var step := NextValue(t, column, isSigned, byteCount, noNeg);
      var rest := ItemValues(Items(AfterItem(t), budget - 1), column + 1, isSigned, byteCount, noNeg);
      ItemValues(Items(t, budget), column, isSigned, byteCount, noNeg)
        == if step.Abort? then Abort(step.reason) else Then([step.value], rest)
  {
    var items := Items(t, budget);
    assert items[1..] == Items(AfterItem(t), budget - 1);
  }
}
