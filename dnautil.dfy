/**
 * DNA utilities of dnautil.c: the nucleotide value tables, codon lookup in
 * the standard and the vertebrate mitochondrial genetic code, packing four
 * bases into a byte, complement and reverse complement, table-driven
 * filters, intron orientation, ungapped match scoring and the poly-A /
 * poly-T trimmers.  The source fills its tables once, lazily; here each table
 * is a constant function of the character (or value) that indexes it.
 */
module DnaUtil {
  import opened CLib
  import opened Wrappers
  import opened Common

  // ---------------------------------------------------------------------
  // Base values.  T, C, A and G are 0..3, the order of the codon table;
  // U shares T's value.  N and the masked bit come from dnautil.h.

  const TBaseVal: int := 0
  const UBaseVal: int := 0
  const CBaseVal: int := 1
  const ABaseVal: int := 2
  const GBaseVal: int := 3
  const NBaseVal: int := 4
  const MaskedBaseBit: int := 8

  /** The four bases in lower case. */
  predicate IsLowerBase(c: char)
  {
    c == 't' || c == 'c' || c == 'a' || c == 'g'
  }

  /** A letter of t, u, c, a, g in either case. */
  predicate IsNt(c: char)
  {
    c == 't' || c == 'T' || c == 'u' || c == 'U' || c == 'c' || c == 'C' ||
    c == 'a' || c == 'A' || c == 'g' || c == 'G'
  }

  /** The base a nucleotide letter stands for, in lower case; u reads as t. */
  function CanonicalBase(c: char): (b: char)
    requires IsNt(c)
    ensures IsLowerBase(b)
  {
    if c == 'u' || c == 'U' then 't' else ToLower(c)
  }

  /** ntVal: 0 for t/u, 1 for c, 2 for a, 3 for g in either case, -1 for everything else. */
  function NtVal(c: char): (v: int)
    ensures -1 <= v <= 3
    ensures v >= 0 <==> IsNt(c)
  {
    match c
    case 't' => TBaseVal case 'T' => TBaseVal
    case 'u' => UBaseVal case 'U' => UBaseVal
    case 'c' => CBaseVal case 'C' => CBaseVal
    case 'a' => ABaseVal case 'A' => ABaseVal
    case 'g' => GBaseVal case 'G' => GBaseVal
    case _ => -1
  }

  /** ntValLower: ntVal restricted to lower-case letters. */
  function NtValLower(c: char): (v: int)
    ensures v == if IsLower(c) then NtVal(c) else -1
  {
    match c
    case 't' => TBaseVal case 'u' => UBaseVal case 'c' => CBaseVal
    case 'a' => ABaseVal case 'g' => GBaseVal
    case _ => -1
  }

  /** ntValUpper: ntVal restricted to upper-case letters. */
  function NtValUpper(c: char): (v: int)
    ensures v == if IsUpper(c) then NtVal(c) else -1
  {
    match c
    case 'T' => TBaseVal case 'U' => UBaseVal case 'C' => CBaseVal
    case 'A' => ABaseVal case 'G' => GBaseVal
    case _ => -1
  }

  /** ntValNoN: ntVal with T's value in place of -1. */
  function NtValNoN(c: char): (v: int)
    ensures v == if NtVal(c) < 0 then TBaseVal else NtVal(c)
  {
    if IsNt(c) then NtVal(c) else TBaseVal
  }

  /** ntVal5: a base's value, -1 for white space and digits, N's value for any other character. */
  function NtVal5(c: char): (v: int)
    ensures IsNt(c) ==> v == NtVal(c)
    ensures !IsNt(c) ==> v == if IsSpace(c) || IsDigit(c) then -1 else NBaseVal
  {
    if IsNt(c) then NtVal(c)
    else if IsSpace(c) || IsDigit(c) then -1
    else NBaseVal
  }

  /**
   * ntValMasked: like ntVal5, with the masked bit added for lower case, and
   * a lower-case character that is no base reading as a masked N.
   */
  function NtValMasked(c: char): (v: int)
    ensures IsNt(c) ==> v == NtVal(c) + (if IsLower(c) then MaskedBaseBit else 0)
    ensures !IsNt(c) && (IsSpace(c) || IsDigit(c)) ==> v == -1
    ensures !IsNt(c) && !IsSpace(c) && !IsDigit(c) ==> v == NBaseVal + (if IsLower(c) then MaskedBaseBit else 0)
  {
    if IsNt(c) then (if IsLower(c) then NtVal(c) + MaskedBaseBit else NtVal(c))
    else if IsSpace(c) || IsDigit(c) then -1
    else if IsLower(c) then NBaseVal + MaskedBaseBit
    else NBaseVal
  }

  /** valToNt: lower-case letter of a value of [0, N|masked], masked or not; '\0' for the unused slots. */
  function ValToNt(v: int): (c: char)
    requires 0 <= v <= NBaseVal + MaskedBaseBit
    ensures v % MaskedBaseBit < 4 ==> IsLowerBase(c) && NtVal(c) == v % MaskedBaseBit
    ensures v % MaskedBaseBit == 4 ==> c == 'n'
    ensures v % MaskedBaseBit > 4 ==> c == '\0'
  {
    match v % MaskedBaseBit
    case 0 => 't'
    case 1 => 'c'
    case 2 => 'a'
    case 3 => 'g'
    case 4 => 'n'
    case _ => '\0'
  }

  /** valToNtMasked: upper case for plain values, lower case for masked ones; '\0' for the unused slots. */
  function ValToNtMasked(v: int): (c: char)
    requires 0 <= v < 256
    ensures v < 4 ==> IsUpper(c) && NtVal(c) == v
    ensures v == 4 ==> c == 'N'
    ensures 8 <= v < 12 ==> IsLower(c) && NtVal(c) == v - 8
    ensures v == 12 ==> c == 'n'
    ensures !(0 <= v <= 4 || 8 <= v <= 12) ==> c == '\0'
  {
    match v
    case 0 => 'T' case 1 => 'C' case 2 => 'A' case 3 => 'G' case 4 => 'N'
    case 8 => 't' case 9 => 'c' case 10 => 'a' case 11 => 'g' case 12 => 'n'
    case _ => '\0'
  }

  /** A letter of ACGTN in either case. */
  predicate IsAcgtn(c: char)
  {
    c == 'a' || c == 'c' || c == 'g' || c == 't' || c == 'n' ||
    c == 'A' || c == 'C' || c == 'G' || c == 'T' || c == 'N'
  }

  /** Reading a base's value back through valToNt gives the base in lower case. */
  lemma NtValRoundTrip(c: char)
    requires IsNt(c)
    ensures ValToNt(NtVal(c)) == CanonicalBase(c)
    ensures ValToNt(NtVal5(c)) == CanonicalBase(c)
  {
  }

  /** The masked value of an ACGTN letter reads back to the same letter, case included. */
  lemma NtValMaskedRoundTrip(c: char)
    requires IsAcgtn(c)
    ensures 0 <= NtValMasked(c) < 256 && ValToNtMasked(NtValMasked(c)) == c
  {
  }

  // ---------------------------------------------------------------------
  // The codon table and codon lookup.

  /** One row of the codon table: the codon in lower case, its standard and its mitochondrial amino acid ('\0' for stop). */
  datatype CodonRow = CodonRow(codon: string, protCode: char, mitoCode: char)

  // The codon table, one constant per first base, in the order of the codon values.

  /** The sixteen codons that start with t. */
  const TRows: seq<CodonRow> := [
    CodonRow("ttt", 'F', 'F'), CodonRow("ttc", 'F', 'F'), CodonRow("tta", 'L', 'L'), CodonRow("ttg", 'L', 'L'),
    CodonRow("tct", 'S', 'S'), CodonRow("tcc", 'S', 'S'), CodonRow("tca", 'S', 'S'), CodonRow("tcg", 'S', 'S'),
    CodonRow("tat", 'Y', 'Y'), CodonRow("tac", 'Y', 'Y'), CodonRow("taa", '\0', '\0'), CodonRow("tag", '\0', '\0'),
    CodonRow("tgt", 'C', 'C'), CodonRow("tgc", 'C', 'C'), CodonRow("tga", '\0', 'W'), CodonRow("tgg", 'W', 'W')
  ]

  /** The sixteen codons that start with c. */
  const CRows: seq<CodonRow> := [
    CodonRow("ctt", 'L', 'L'), CodonRow("ctc", 'L', 'L'), CodonRow("cta", 'L', 'L'), CodonRow("ctg", 'L', 'L'),
    CodonRow("cct", 'P', 'P'), CodonRow("ccc", 'P', 'P'), CodonRow("cca", 'P', 'P'), CodonRow("ccg", 'P', 'P'),
    CodonRow("cat", 'H', 'H'), CodonRow("cac", 'H', 'H'), CodonRow("caa", 'Q', 'Q'), CodonRow("cag", 'Q', 'Q'),
    CodonRow("cgt", 'R', 'R'), CodonRow("cgc", 'R', 'R'), CodonRow("cga", 'R', 'R'), CodonRow("cgg", 'R', 'R')
  ]

  /** The sixteen codons that start with a. */
  const ARows: seq<CodonRow> := [
    CodonRow("att", 'I', 'I'), CodonRow("atc", 'I', 'I'), CodonRow("ata", 'I', 'M'), CodonRow("atg", 'M', 'M'),
    CodonRow("act", 'T', 'T'), CodonRow("acc", 'T', 'T'), CodonRow("aca", 'T', 'T'), CodonRow("acg", 'T', 'T'),
    CodonRow("aat", 'N', 'N'), CodonRow("aac", 'N', 'N'), CodonRow("aaa", 'K', 'K'), CodonRow("aag", 'K', 'K'),
    CodonRow("agt", 'S', 'S'), CodonRow("agc", 'S', 'S'), CodonRow("aga", 'R', '\0'), CodonRow("agg", 'R', '\0')
  ]

  /** The sixteen codons that start with g. */
  const GRows: seq<CodonRow> := [
    CodonRow("gtt", 'V', 'V'), CodonRow("gtc", 'V', 'V'), CodonRow("gta", 'V', 'V'), CodonRow("gtg", 'V', 'V'),
    CodonRow("gct", 'A', 'A'), CodonRow("gcc", 'A', 'A'), CodonRow("gca", 'A', 'A'), CodonRow("gcg", 'A', 'A'),
    CodonRow("gat", 'D', 'D'), CodonRow("gac", 'D', 'D'), CodonRow("gaa", 'E', 'E'), CodonRow("gag", 'E', 'E'),
    CodonRow("ggt", 'G', 'G'), CodonRow("ggc", 'G', 'G'), CodonRow("gga", 'G', 'G'), CodonRow("ggg", 'G', 'G')
  ]

  /** The 64 codons in the order of their values: the first base is the most significant. */
  const CodonTable: seq<CodonRow> := TRows + CRows + ARows + GRows

  /** The lower-case letter of a base value of [0, 4). */
  function BaseLetter(v: int): (c: char)
    requires 0 <= v < 4
    ensures IsLowerBase(c) && NtVal(c) == v && ValToNt(v) == c
  {
    match v
    case 0 => 't'
    case 1 => 'c'
    case 2 => 'a'
    case _ => 'g'
  }

  /** The codon whose value is 16 * b0 + 4 * b1 + b2: its three bases in lower case. */
  function CodonOf(b0: int, b1: int, b2: int): (codon: string)
    requires 0 <= b0 < 4 && 0 <= b1 < 4 && 0 <= b2 < 4
    ensures |codon| == 3 && forall k | 0 <= k < 3 :: IsLowerBase(codon[k])
  {
    [BaseLetter(b0), BaseLetter(b1), BaseLetter(b2)]
  }

  /** The rows of one quarter of the table hold the codons of its first base, in order. */
  predicate QuarterOrdered(rows: seq<CodonRow>, b0: int)
    requires 0 <= b0 < 4
  {
    |rows| == 16 &&
    forall b1, b2 | 0 <= b1 < 4 && 0 <= b2 < 4 :: rows[4 * b1 + b2].codon == CodonOf(b0, b1, b2)
  }

  lemma TRowsOrdered() ensures QuarterOrdered(TRows, 0)
  {
    forall b1, b2 | 0 <= b1 < 4 && 0 <= b2 < 4 ensures TRows[4 * b1 + b2].codon == CodonOf(0, b1, b2) {
      assert b1 == 0 || b1 == 1 || b1 == 2 || b1 == 3;
      assert b2 == 0 || b2 == 1 || b2 == 2 || b2 == 3;
    }
  }
  lemma CRowsOrdered() ensures QuarterOrdered(CRows, 1)
  {
    forall b1, b2 | 0 <= b1 < 4 && 0 <= b2 < 4 ensures CRows[4 * b1 + b2].codon == CodonOf(1, b1, b2) {
      assert b1 == 0 || b1 == 1 || b1 == 2 || b1 == 3;
      assert b2 == 0 || b2 == 1 || b2 == 2 || b2 == 3;
    }
  }
  lemma ARowsOrdered() ensures QuarterOrdered(ARows, 2)
  {
    forall b1, b2 | 0 <= b1 < 4 && 0 <= b2 < 4 ensures ARows[4 * b1 + b2].codon == CodonOf(2, b1, b2) {
      assert b1 == 0 || b1 == 1 || b1 == 2 || b1 == 3;
      assert b2 == 0 || b2 == 1 || b2 == 2 || b2 == 3;
    }
  }
  lemma GRowsOrdered() ensures QuarterOrdered(GRows, 3)
  {
    forall b1, b2 | 0 <= b1 < 4 && 0 <= b2 < 4 ensures GRows[4 * b1 + b2].codon == CodonOf(3, b1, b2) {
      assert b1 == 0 || b1 == 1 || b1 == 2 || b1 == 3;
      assert b2 == 0 || b2 == 1 || b2 == 2 || b2 == 3;
    }
  }

  /** Row 16 * b0 + 4 * b1 + b2 of the codon table is the codon of those base values. */
  lemma CodonTableOrdered(b0: int, b1: int, b2: int)
    requires 0 <= b0 < 4 && 0 <= b1 < 4 && 0 <= b2 < 4
    ensures |CodonTable| == 64 && CodonTable[16 * b0 + 4 * b1 + b2].codon == CodonOf(b0, b1, b2)
  {
    var r := 4 * b1 + b2;
    if b0 == 0 {
      TRowsOrdered();
      assert CodonTable[r] == TRows[r];
    } else if b0 == 1 {
      CRowsOrdered();
      assert CodonTable[16 + r] == CRows[r];
    } else if b0 == 2 {
      ARowsOrdered();
      assert CodonTable[32 + r] == ARows[r];
    } else {
      GRowsOrdered();
      assert CodonTable[48 + r] == GRows[r];
    }
  }

  /** Where the standard and the mitochondrial codes put stops and where they differ, within one quarter. */
  predicate QuarterCodes(rows: seq<CodonRow>, stops: set<int>, mitoDiffers: set<int>)
  {
    |rows| == 16 &&
    forall r | 0 <= r < 16 ::
      (rows[r].protCode == '\0' <==> r in stops) && (r !in mitoDiffers ==> rows[r].mitoCode == rows[r].protCode) &&
      !IsLower(rows[r].mitoCode)
  }

  lemma TRowsCodes() ensures QuarterCodes(TRows, {10, 11, 14}, {14}) {}
  lemma CRowsCodes() ensures QuarterCodes(CRows, {}, {}) {}
  lemma ARowsCodes() ensures QuarterCodes(ARows, {}, {2, 14, 15}) {}
  lemma GRowsCodes() ensures QuarterCodes(GRows, {}, {}) {}

  /**
   * The standard code stops at rows 10, 11 and 14 (taa, tag, tga) only; the
   * mitochondrial code agrees with it except at tga (W), ata (M) and aga,
   * agg (stops).
   */
  lemma CodonTableCodes()
    ensures |CodonTable| == 64
    ensures forall ix | 0 <= ix < 64 :: CodonTable[ix].protCode == '\0' <==> ix == 10 || ix == 11 || ix == 14
    ensures forall ix | 0 <= ix < 64 && ix != 14 && ix != 34 && ix != 46 && ix != 47 ::
      CodonTable[ix].mitoCode == CodonTable[ix].protCode
    ensures CodonTable[14].mitoCode == 'W' && CodonTable[34].mitoCode == 'M'
    ensures CodonTable[46].mitoCode == '\0' && CodonTable[47].mitoCode == '\0'
    ensures forall ix | 0 <= ix < 64 :: !IsLower(CodonTable[ix].mitoCode)
  {
    TRowsCodes();
    CRowsCodes();
    ARowsCodes();
    GRowsCodes();
    forall ix | 0 <= ix < 64
      ensures (CodonTable[ix].protCode == '\0' <==> ix == 10 || ix == 11 || ix == 14)
      ensures ix != 14 && ix != 34 && ix != 46 && ix != 47 ==> CodonTable[ix].mitoCode == CodonTable[ix].protCode
      ensures !IsLower(CodonTable[ix].mitoCode)
    {
      if ix < 16 {
        assert CodonTable[ix] == TRows[ix];
      } else if ix < 32 {
        assert CodonTable[ix] == CRows[ix - 16];
      } else if ix < 48 {
        assert CodonTable[ix] == ARows[ix - 32];
      } else {
        assert CodonTable[ix] == GRows[ix - 48];
      }
    }
    assert CodonTable[14] == TRows[14];
    assert CodonTable[34] == ARows[2];
    assert CodonTable[46] == ARows[14] && CodonTable[47] == ARows[15];
  }

  /** Character i of a C string, its terminator past the end. */
  function CharAt(s: seq<char>, i: nat): char
  {
    if i < |s| then s[i] else '\0'
  }

  /** The first three bases of dna hold nucleotide letters. */
  predicate HasCodon(dna: seq<char>)
  {
    IsNt(CharAt(dna, 0)) && IsNt(CharAt(dna, 1)) && IsNt(CharAt(dna, 2))
  }

  /** The first three bases of dna as a lower-case codon, u read as t. */
  function CodonText(dna: seq<char>): string
    requires HasCodon(dna)
  {
    [CanonicalBase(CharAt(dna, 0)), CanonicalBase(CharAt(dna, 1)), CanonicalBase(CharAt(dna, 2))]
  }

  /** A nucleotide letter's value names its lower-case base. */
  lemma BaseLetterOfNtVal(c: char)
    requires IsNt(c)
    ensures BaseLetter(NtVal(c)) == CanonicalBase(c)
  {
  }

  /**
   * The row lookupCodon and lookupMitoCodon read for dna: None when one of
   * the three bases is no nucleotide, else the row that holds dna's codon.
   */
  function CodonIndex(dna: seq<char>): (ix: Option<int>)
    ensures ix.Some? <==> HasCodon(dna)
    ensures ix.Some? ==> 0 <= ix.value < 64 && CodonTable[ix.value].codon == CodonText(dna)
  {
    var v0, v1, v2 := NtVal(CharAt(dna, 0)), NtVal(CharAt(dna, 1)), NtVal(CharAt(dna, 2));
    if v0 < 0 || v1 < 0 || v2 < 0 then None
    else
      CodonRowOf(dna);
      Some(16 * v0 + 4 * v1 + v2)
  }

  /** The row of a codon's base values holds that codon. */
  lemma CodonRowOf(dna: seq<char>)
    requires HasCodon(dna)
    ensures CodonTable[16 * NtVal(CharAt(dna, 0)) + 4 * NtVal(CharAt(dna, 1)) + NtVal(CharAt(dna, 2))].codon == CodonText(dna)
  {
    var c0, c1, c2 := CharAt(dna, 0), CharAt(dna, 1), CharAt(dna, 2);
    BaseLetterOfNtVal(c0);
    BaseLetterOfNtVal(c1);
    BaseLetterOfNtVal(c2);
    assert CodonOf(NtVal(c0), NtVal(c1), NtVal(c2)) == CodonText(dna);
    CodonTableOrdered(NtVal(c0), NtVal(c1), NtVal(c2));
  }

  /** The value of the first i bases, accumulated as the lookup loop does. */
  ghost function PartialIndex(dna: seq<char>, i: nat): int
    requires i <= 3
  {
    if i == 0 then 0 else 4 * PartialIndex(dna, i - 1) + NtVal(CharAt(dna, i - 1))
  }

  /** The loop shared by lookupCodon and lookupMitoCodon: the codon's row, or None at a non-base. */
  method ReadCodon(dna: seq<char>) returns (ix: Option<int>)
    ensures ix == CodonIndex(dna)
  {
    var acc := 0;
    var i := 0;
    while i < 3
      invariant 0 <= i <= 3
      invariant forall k | 0 <= k < i :: IsNt(CharAt(dna, k))
      invariant acc == PartialIndex(dna, i)
    {
      var bv := NtVal(CharAt(dna, i));
      if bv < 0 {
        return None;
      }
      acc := acc * 4 + bv;
      i := i + 1;
    }
    assert PartialIndex(dna, 1) == NtVal(CharAt(dna, 0));
    assert PartialIndex(dna, 2) == 4 * NtVal(CharAt(dna, 0)) + NtVal(CharAt(dna, 1));
    assert acc == 16 * NtVal(CharAt(dna, 0)) + 4 * NtVal(CharAt(dna, 1)) + NtVal(CharAt(dna, 2));
    return Some(acc);
  }

  /** The standard code's translation of dna's first codon: 'X' for a bad base, '\0' for a stop. */
  function Codon(dna: seq<char>): char
  {
    match CodonIndex(dna)
    case None => 'X'
    case Some(ix) => CodonTable[ix].protCode
  }

  /** The vertebrate mitochondrial code's translation, upper-cased as lookupMitoCodon does. */
  function MitoCodon(dna: seq<char>): char
  {
    match CodonIndex(dna)
    case None => 'X'
    case Some(ix) => ToUpper(CodonTable[ix].mitoCode)
  }

  /** lookupCodon. */
  method LookupCodon(dna: seq<char>) returns (c: char)
    ensures c == Codon(dna)
  {
    var ix := ReadCodon(dna);
    if ix.None? {
      return 'X';
    }
    c := CodonTable[ix.value].protCode;
  }

  /** lookupMitoCodon. */
  method LookupMitoCodon(dna: seq<char>) returns (c: char)
    ensures c == MitoCodon(dna)
  {
    var ix := ReadCodon(dna);
    if ix.None? {
      return 'X';
    }
    c := CodonTable[ix.value].mitoCode;
    c := ToUpper(c);
  }

  /** Two codons are equal exactly when their values are. */
  lemma CodonOfInjective(b0: int, b1: int, b2: int, c0: int, c1: int, c2: int)
    requires 0 <= b0 < 4 && 0 <= b1 < 4 && 0 <= b2 < 4
    requires 0 <= c0 < 4 && 0 <= c1 < 4 && 0 <= c2 < 4
    ensures CodonOf(b0, b1, b2) == CodonOf(c0, c1, c2) <==> 16 * b0 + 4 * b1 + b2 == 16 * c0 + 4 * c1 + c2
  {
    if CodonOf(b0, b1, b2) == CodonOf(c0, c1, c2) {
      assert BaseLetter(b0) == BaseLetter(c0) && BaseLetter(b1) == BaseLetter(c1) && BaseLetter(b2) == BaseLetter(c2);
    }
  }

  /** The codon text of dna and the row lookupCodon reads for it. */
  lemma CodonTextRow(dna: seq<char>, text: string, b0: int, b1: int, b2: int)
    requires HasCodon(dna) && 0 <= b0 < 4 && 0 <= b1 < 4 && 0 <= b2 < 4 && text == CodonOf(b0, b1, b2)
    ensures CodonText(dna) == text <==> CodonIndex(dna) == Some(16 * b0 + 4 * b1 + b2)
  {
    var v0, v1, v2 := NtVal(CharAt(dna, 0)), NtVal(CharAt(dna, 1)), NtVal(CharAt(dna, 2));
    BaseLetterOfNtVal(CharAt(dna, 0));
    BaseLetterOfNtVal(CharAt(dna, 1));
    BaseLetterOfNtVal(CharAt(dna, 2));
    assert CodonText(dna) == CodonOf(v0, v1, v2);
    CodonOfInjective(v0, v1, v2, b0, b1, b2);
  }

  /** lookupCodon gives '\0' (stop) exactly for taa, tag and tga, in either case and with u for t. */
  lemma StopCodons(dna: seq<char>)
    ensures Codon(dna) == '\0' <==> HasCodon(dna) && (CodonText(dna) == "taa" || CodonText(dna) == "tag" || CodonText(dna) == "tga")
  {
    CodonTableCodes();
    if HasCodon(dna) {
      CodonTextRow(dna, "taa", 0, 2, 2);
      CodonTextRow(dna, "tag", 0, 2, 3);
      CodonTextRow(dna, "tga", 0, 3, 2);
    }
  }

  /**
   * lookupMitoCodon agrees with lookupCodon except that tga reads W, ata
   * reads M and aga and agg are stops.
   */
  lemma MitoCodonDiffers(dna: seq<char>)
    ensures !HasCodon(dna) ==> MitoCodon(dna) == 'X' && Codon(dna) == 'X'
    ensures HasCodon(dna) && CodonText(dna) == "tga" ==> MitoCodon(dna) == 'W'
    ensures HasCodon(dna) && CodonText(dna) == "ata" ==> MitoCodon(dna) == 'M'
    ensures HasCodon(dna) && (CodonText(dna) == "aga" || CodonText(dna) == "agg") ==> MitoCodon(dna) == '\0'
    ensures HasCodon(dna) && CodonText(dna) !in {"tga", "ata", "aga", "agg"} ==> MitoCodon(dna) == Codon(dna)
  {
    CodonTableCodes();
    if HasCodon(dna) {
      CodonTextRow(dna, "tga", 0, 3, 2);
      CodonTextRow(dna, "ata", 2, 0, 2);
      CodonTextRow(dna, "aga", 2, 3, 2);
      CodonTextRow(dna, "agg", 2, 3, 3);
    }
  }

  // ---------------------------------------------------------------------
  // packDna4

  /** An unsigned byte. The packed data's shifts and masks are written as division and remainder by powers of two. */
  type Byte = x: int | 0 <= x < 256

  /** Four bases as one byte, most significant first, each through ntValNoN. */
  function Pack4(dna: seq<char>): Byte
    requires |dna| >= 4
  {
    64 * NtValNoN(dna[0]) + 16 * NtValNoN(dna[1]) + 4 * NtValNoN(dna[2]) + NtValNoN(dna[3])
  }

  /** The value packDna4 has accumulated after the first i bases. */
  ghost function PackedPrefix(dna: seq<char>, i: nat): (r: nat)
    requires i <= 4 <= |dna|
    ensures i <= 1 ==> r < 4
    ensures i <= 2 ==> r < 16
    ensures i <= 3 ==> r < 64
    ensures r < 256
  {
    if i == 0 then 0 else PackedPrefix(dna, i - 1) * 4 + NtValNoN(dna[i - 1])
  }

  /** packDna4: shifts in the value of each of the four bases. */
  method PackDna4(dna: seq<char>) returns (out: Byte)
    requires |dna| >= 4
    ensures out == Pack4(dna)
  {
    out := 0;
    var count := 4;
    var i := 0;
    while count > 0
      invariant 0 <= count <= 4 && i == 4 - count
      invariant out == PackedPrefix(dna, i)
    {
      count := count - 1;
      var bVal := NtValNoN(dna[i]);
      i := i + 1;
      out := out * 4 + bVal;
    }
    PackedPrefixIsPack4(dna);
  }

  /** Shifting in the four base values two bits at a time builds Pack4's byte. */
  lemma PackedPrefixIsPack4(dna: seq<char>)
    requires |dna| >= 4
    ensures PackedPrefix(dna, 4) == Pack4(dna)
  {
    assert PackedPrefix(dna, 1) == NtValNoN(dna[0]);
    assert PackedPrefix(dna, 2) == 4 * NtValNoN(dna[0]) + NtValNoN(dna[1]);
    assert PackedPrefix(dna, 3) == 16 * NtValNoN(dna[0]) + 4 * NtValNoN(dna[1]) + NtValNoN(dna[2]);
  }

  /** The two bits of byte x at bit 6-2*k, that is base k of the four it packs. */
  function Field(x: Byte, k: nat): (f: int)
    requires k < 4
    ensures 0 <= f < 4
    decreases 3 - k
  {
    if k == 3 then x % 4 else Field(x / 4, k + 1)
  }

  /** Base k (0 = most significant) of a packed byte, read back through valToNt. */
  function UnpackBase(x: Byte, k: nat): (c: char)
    requires k < 4
    ensures IsLowerBase(c)
  {
    ValToNt(Field(x, k))
  }

  /** Each field of a byte built from four two-bit values is the value put there. */
  lemma ByteFields(v0: int, v1: int, v2: int, v3: int)
    requires 0 <= v0 < 4 && 0 <= v1 < 4 && 0 <= v2 < 4 && 0 <= v3 < 4
    ensures var x := 64 * v0 + 16 * v1 + 4 * v2 + v3;
      Field(x, 0) == v0 && Field(x, 1) == v1 && Field(x, 2) == v2 && Field(x, 3) == v3
  {
    var x := 64 * v0 + 16 * v1 + 4 * v2 + v3;
    assert x / 4 == 16 * v0 + 4 * v1 + v2;
    assert x / 4 / 4 == 4 * v0 + v1;
    assert x / 4 / 4 / 4 == v0;
  }

  /** Unpacking a packed base gives it back in lower case; a non-base comes back as t. */
  lemma PackDna4RoundTrip(dna: seq<char>, k: nat)
    requires |dna| >= 4 && k < 4
    ensures UnpackBase(Pack4(dna), k) == if IsNt(dna[k]) then CanonicalBase(dna[k]) else 't'
  {
    var x := Pack4(dna);
    var v := [NtValNoN(dna[0]), NtValNoN(dna[1]), NtValNoN(dna[2]), NtValNoN(dna[3])];
    ByteFields(v[0], v[1], v[2], v[3]);
    assert Field(x, k) == v[k] == NtValNoN(dna[k]);
    UnpackValue(Field(x, k), dna[k]);
  }

  /** A two-bit field holding a base's value reads back as that base. */
  lemma UnpackValue(f: int, c: char)
    requires f == NtValNoN(c)
    ensures ValToNt(f) == if IsNt(c) then CanonicalBase(c) else 't'
  {
    if IsNt(c) {
      BaseLetterOfNtVal(c);
    }
  }

  // ---------------------------------------------------------------------
  // complement, reverseComplement

  /** ntCompTable: the complement of a base or IUPAC ambiguity code, case kept; '\0' for anything else. */
  function NtComp(c: char): (r: char)
    ensures IsLowerBase(c) ==> IsLowerBase(r)
  {
    match c
    case ' ' => ' ' case '-' => '-' case '=' => '=' case '.' => '.'
    case 'a' => 't' case 'c' => 'g' case 'g' => 'c' case 't' => 'a' case 'u' => 'a' case 'n' => 'n'
    case 'A' => 'T' case 'C' => 'G' case 'G' => 'C' case 'T' => 'A' case 'U' => 'A' case 'N' => 'N'
    case 'R' => 'Y' case 'Y' => 'R' case 'M' => 'K' case 'K' => 'M' case 'S' => 'S' case 'W' => 'W'
    case 'V' => 'B' case 'H' => 'D' case 'D' => 'H' case 'B' => 'V' case 'X' => 'N'
    case 'r' => 'y' case 'y' => 'r' case 's' => 's' case 'w' => 'w' case 'm' => 'k' case 'k' => 'm'
    case 'v' => 'b' case 'h' => 'd' case 'd' => 'h' case 'b' => 'v' case 'x' => 'n'
    case '(' => ')' case ')' => '('
    case _ => '\0'
  }

  /** The characters the complement table maps back to themselves in two steps. */
  predicate SelfInverse(c: char)
  {
    match c
    case '\0' | ' ' | '-' | '=' | '.' | '(' | ')' => true
    case 'a' | 'c' | 'g' | 't' | 'n' | 'A' | 'C' | 'G' | 'T' | 'N' => true
    case 'R' | 'Y' | 'M' | 'K' | 'S' | 'W' | 'V' | 'H' | 'D' | 'B' => true
    case 'r' | 'y' | 'm' | 'k' | 's' | 'w' | 'v' | 'h' | 'd' | 'b' => true
    case _ => false
  }

  /** Complementing twice restores exactly the characters of SelfInverse (u, U, x, X and unlisted ones do not come back). */
  lemma NtCompTwice(c: char)
    ensures NtComp(NtComp(c)) == c <==> SelfInverse(c)
  {
  }

  /** Every ACGTN letter complements back to itself. */
  lemma AcgtnSelfInverse(c: char)
    requires IsAcgtn(c)
    ensures SelfInverse(c)
  {
  }

  /** A sequence with every character complemented. */
  function Complemented(s: seq<char>): (r: seq<char>)
    ensures |r| == |s| && forall i | 0 <= i < |s| :: r[i] == NtComp(s[i])
  {
    seq(|s|, i requires 0 <= i < |s| => NtComp(s[i]))
  }

  /**
   * complement: each of the first length characters through the complement table, in place;
   * a length of 0 or less changes nothing.
   */
  method Complement(dna: array<char>, length: int)
    requires length <= dna.Length
    modifies dna
    ensures dna[..Clamp0(length)] == Complemented(old(dna[..Clamp0(length)]))
    ensures dna[Clamp0(length)..] == old(dna[Clamp0(length)..])
  {
    var i := 0;
    while i < length
      invariant 0 <= i <= Clamp0(length)
      invariant forall k | 0 <= k < i :: dna[k] == NtComp(old(dna[k]))
      invariant forall k | i <= k < dna.Length :: dna[k] == old(dna[k])
    {
      dna[i] := NtComp(dna[i]);
      i := i + 1;
    }
  }

  /** The reverse complement of a sequence. */
  function RevComp(s: seq<char>): (r: seq<char>)
    ensures |r| == |s| && forall i | 0 <= i < |s| :: r[i] == NtComp(s[|s| - 1 - i])
  {
    Complemented(Reversed(s))
  }

  /** reverseComplement: reverseBytes, then complement, of the first length characters. */
  method ReverseComplement(dna: array<char>, length: int)
    requires length <= dna.Length
    modifies dna
    ensures dna[..Clamp0(length)] == RevComp(old(dna[..Clamp0(length)]))
    ensures dna[Clamp0(length)..] == old(dna[Clamp0(length)..])
  {
    ReverseBytes(dna, length);
    Complement(dna, length);
  }

  /** Complementing, or reverse complementing, twice gives back a sequence of self-inverse characters. */
  lemma ComplementTwice(s: seq<char>)
    requires forall i | 0 <= i < |s| :: SelfInverse(s[i])
    ensures Complemented(Complemented(s)) == s
    ensures RevComp(RevComp(s)) == s
  {
    forall i | 0 <= i < |s| ensures NtComp(NtComp(s[i])) == s[i] {
      NtCompTwice(s[i]);
    }
    assert RevComp(RevComp(s)) == s by {
      forall i | 0 <= i < |s| ensures RevComp(RevComp(s))[i] == s[i] {
        NtCompTwice(s[i]);
      }
    }
  }

  // ---------------------------------------------------------------------
  // dnaOrAaFilteredSize, dnaOrAaFilter

  /** The non-zero images under filter of the characters of s, in order. */
  function FilterMap(s: seq<char>, filter: char -> char): (r: seq<char>)
    ensures |r| <= |s|
  {
    if |s| == 0 then []
    else if filter(s[|s| - 1]) != '\0' then FilterMap(s[..|s| - 1], filter) + [filter(s[|s| - 1])]
    else FilterMap(s[..|s| - 1], filter)
  }

  /** The filtered text holds no terminator. */
  lemma {:induction false} FilterMapCString(s: seq<char>, filter: char -> char)
    ensures IsCString(FilterMap(s, filter))
  {
    if |s| > 0 {
      FilterMapCString(s[..|s| - 1], filter);
    }
  }

  lemma FilterMapStep(s: seq<char>, i: nat, filter: char -> char)
    requires i < |s|
    ensures filter(s[i]) != '\0' ==> FilterMap(s[..i + 1], filter) == FilterMap(s[..i], filter) + [filter(s[i])]
    ensures filter(s[i]) == '\0' ==> FilterMap(s[..i + 1], filter) == FilterMap(s[..i], filter)
  {
    assert s[..i + 1][..i] == s[..i];
  }

  /** dnaOrAaFilteredSize: the number of characters of the C string raw that filter keeps. */
  method DnaOrAaFilteredSize(raw: seq<char>, filter: char -> char) returns (count: nat)
    requires IsCString(raw)
    ensures count == |FilterMap(raw, filter)|
  {
    count := 0;
    var i := 0;
    while i < |raw|
      invariant 0 <= i <= |raw| && count == |FilterMap(raw[..i], filter)|
    {
      var c := raw[i];
      FilterMapStep(raw, i, filter);
      if filter(c) != '\0' {
        count := count + 1;
      }
      i := i + 1;
    }
    assert raw[..i] == raw;
  }

  /** dnaOrAaFilter: writes the non-zero images of in's characters to out, then a terminator. */
  method DnaOrAaFilter(input: seq<char>, out: array<char>, filter: char -> char)
    requires IsCString(input) && |FilterMap(input, filter)| < out.Length
    modifies out
    ensures out[..|FilterMap(input, filter)|] == FilterMap(input, filter)
    ensures out[|FilterMap(input, filter)|] == '\0'
    ensures out[|FilterMap(input, filter)| + 1..] == old(out[|FilterMap(input, filter)| + 1..])
  {
    var i := 0;
    var o := 0;
    FilterMapLength(input, 0, filter);
    while i < |input|
      invariant 0 <= i <= |input| && o == |FilterMap(input[..i], filter)|
      invariant o <= |FilterMap(input, filter)|
      invariant out[..o] == FilterMap(input[..i], filter)
      invariant forall k | o <= k < out.Length :: out[k] == old(out[k])
    {
      var c := input[i];
      FilterMapStep(input, i, filter);
      FilterMapLength(input, i + 1, filter);
      var f := filter(c);
      if f != '\0' {
        ghost var kept := out[..o];
        out[o] := f;
        assert out[..o + 1] == kept + [f];
        o := o + 1;
      }
      i := i + 1;
    }
    assert input[..i] == input;
    out[o] := '\0';
  }

  /** A prefix filters to no more than the whole. */
  lemma {:induction false} FilterMapLength(s: seq<char>, i: nat, filter: char -> char)
    requires i <= |s|
    ensures |FilterMap(s[..i], filter)| <= |FilterMap(s, filter)|
    decreases |s| - i
  {
    if i < |s| {
      FilterMapStep(s, i, filter);
      FilterMapLength(s, i + 1, filter);
    } else {
      assert s[..i] == s;
    }
  }

  /** dnaOrAaFilter's output is a C string exactly as long as dnaOrAaFilteredSize says. */
  method FilterMatchesSize(input: seq<char>, out: array<char>, filter: char -> char) returns (size: nat)
    requires IsCString(input) && |FilterMap(input, filter)| < out.Length
    modifies out
    ensures '\0' in out[..] && |CString(out[..])| == size
  {
    size := DnaOrAaFilteredSize(input, filter);
    DnaOrAaFilter(input, out, filter);
    FilterMapCString(input, filter);
    assert out[..][..size] == FilterMap(input, filter);
    TerminatedAt(out[..], size);
  }

  // ---------------------------------------------------------------------
  // intronOrientationMinSize

  /** Whether the gap [iStart, iEnd) of genome reads as an intron: 1 for GT..AG, -1 for CT..AC, 0 otherwise. */
  function IntronOrientation(genome: seq<char>, iStart: int, iEnd: int, minIntronSize: int): (r: int)
    requires 0 <= iStart && iEnd <= |genome|
    requires iEnd - iStart >= minIntronSize ==> iStart + 2 <= |genome| && iEnd >= 2
    ensures -1 <= r <= 1 && (r != 0 ==> iEnd - iStart >= minIntronSize)
  {
    if iEnd - iStart < minIntronSize then 0
    else if genome[iStart] == 'g' && genome[iStart + 1] == 't' && genome[iEnd - 2] == 'a' && genome[iEnd - 1] == 'g' then 1
    else if genome[iStart] == 'c' && genome[iStart + 1] == 't' && genome[iEnd - 2] == 'a' && genome[iEnd - 1] == 'c' then -1
    else 0
  }

  /** On the reverse-complemented genome the mirrored gap reads as an intron of the opposite orientation. */
  lemma IntronOrientationFlips(genome: seq<char>, iStart: int, iEnd: int, minIntronSize: int)
    requires 0 <= iStart && iEnd <= |genome|
    requires iEnd - iStart >= minIntronSize ==> iStart + 2 <= |genome| && iEnd >= 2
    ensures IntronOrientation(genome, iStart, iEnd, minIntronSize) != 0 ==>
      IntronOrientation(RevComp(genome), |genome| - iEnd, |genome| - iStart, minIntronSize)
      == -IntronOrientation(genome, iStart, iEnd, minIntronSize)
  {
  }

  /** When every character complements back to itself, orientation and its reverse-complement mirror always agree up to sign. */
  lemma {:induction false} IntronOrientationReverseComplement(genome: seq<char>, iStart: int, iEnd: int, minIntronSize: int)
    requires 0 <= iStart && iEnd <= |genome|
    requires iEnd - iStart >= minIntronSize ==> iStart + 2 <= |genome| && iEnd >= 2
    requires forall i | 0 <= i < |genome| :: SelfInverse(genome[i])
    ensures IntronOrientation(RevComp(genome), |genome| - iEnd, |genome| - iStart, minIntronSize)
      == -IntronOrientation(genome, iStart, iEnd, minIntronSize)
  {
    var n := |genome|;
    if iEnd - iStart >= minIntronSize {
      var rc := RevComp(genome);
      assert rc[n - iEnd] == NtComp(genome[iEnd - 1]);
      assert rc[n - iEnd + 1] == NtComp(genome[iEnd - 2]);
      assert rc[n - iStart - 2] == NtComp(genome[iStart + 1]);
      assert rc[n - iStart - 1] == NtComp(genome[iStart]);
      NtCompTwice(genome[iStart]);
      NtCompTwice(genome[iStart + 1]);
      NtCompTwice(genome[iEnd - 2]);
      NtCompTwice(genome[iEnd - 1]);
    }
  }

  // ---------------------------------------------------------------------
  // dnaOrAaScoreMatch

  /** The ungapped alignment score of a against b: matchScore per equal pair, mismatchScore per unequal one, nothing for a pair holding ignore. */
  function Score(a: seq<char>, b: seq<char>, matchScore: int, mismatchScore: int, ignore: char): int
    requires |a| == |b|
  {
    if |a| == 0 then 0
    else
      var last := |a| - 1;
      Score(a[..last], b[..last], matchScore, mismatchScore, ignore) +
      (if a[last] == ignore || b[last] == ignore then 0
       else if a[last] == b[last] then matchScore else mismatchScore)
  }

  /** dnaOrAaScoreMatch: scores the first size positions of a against b. */
  method ScoreMatch(a: seq<char>, b: seq<char>, size: int, matchScore: int, mismatchScore: int, ignore: char)
    returns (score: int)
    requires size <= |a| && size <= |b|
    ensures score == Score(a[..Clamp0(size)], b[..Clamp0(size)], matchScore, mismatchScore, ignore)
  {
    score := 0;
    var i := 0;
    while i < size
      invariant 0 <= i <= Clamp0(size)
      invariant score == Score(a[..i], b[..i], matchScore, mismatchScore, ignore)
    {
      var aa := a[i];
      var bb := b[i];
      assert a[..i + 1][..i] == a[..i] && b[..i + 1][..i] == b[..i];
      if aa == ignore || bb == ignore {
        i := i + 1;
        continue;
      }
      if aa == bb {
        score := score + matchScore;
      } else {
        score := score + mismatchScore;
      }
      i := i + 1;
    }
  }

  /** A count that is zero for negative sizes. */
  function Clamp0(n: int): (r: nat)
    ensures r == n || (n < 0 && r == 0)
  {
    if n < 0 then 0 else n
  }

  /** The score does not depend on which sequence comes first. */
  lemma {:induction false} ScoreSymmetric(a: seq<char>, b: seq<char>, matchScore: int, mismatchScore: int, ignore: char)
    requires |a| == |b|
    ensures Score(a, b, matchScore, mismatchScore, ignore) == Score(b, a, matchScore, mismatchScore, ignore)
  {
    if |a| > 0 {
      ScoreSymmetric(a[..|a| - 1], b[..|b| - 1], matchScore, mismatchScore, ignore);
    }
  }

  /** The number of characters of s other than ignore. */
  function Counted(s: seq<char>, ignore: char): nat
  {
    if |s| == 0 then 0 else Counted(s[..|s| - 1], ignore) + (if s[|s| - 1] == ignore then 0 else 1)
  }

  /** Against itself a sequence scores matchScore for every position not holding ignore. */
  lemma {:induction false} SelfScore(a: seq<char>, matchScore: int, mismatchScore: int, ignore: char)
    ensures Score(a, a, matchScore, mismatchScore, ignore) == matchScore * Counted(a, ignore)
  {
    if |a| > 0 {
      SelfScore(a[..|a| - 1], matchScore, mismatchScore, ignore);
    }
  }

  // ---------------------------------------------------------------------
  // findTailPolyAMaybeMask, findHeadPolyTMaybeMask

  predicate IsA(c: char) { c == 'a' || c == 'A' }
  predicate IsT(c: char) { c == 't' || c == 'T' }
  predicate IsNChar(c: char) { c == 'n' || c == 'N' }

  /**
   * findTailPolyAMaybeMask: scans from the end for a poly-A tail, tolerating a few other bases,
   * and returns how many bases to trim, leaving the first two bases of the tail for a taa stop
   * codon; with doMask the trimmed bases become 'n'.
   */
  method FindTailPolyAMaybeMask(dna: array<char>, size: int, doMask: bool, loose: bool) returns (trimSize: int)
    requires size <= dna.Length
    modifies dna
    ensures 0 <= trimSize && (trimSize > 0 ==> trimSize <= size - 2)
    ensures trimSize > 0 ==> IsA(old(dna[size - trimSize - 2]))
    ensures forall k | 0 <= k < dna.Length ::
      dna[k] == if doMask && size - trimSize <= k < size then 'n' else old(dna[k])
  {
    var score := 10;
    var bestScore := 10;
    var bestPos := -1;
    trimSize := 0;
    var i := size - 1;
    while i >= 0
      invariant i < size
      invariant bestPos == -1 || (i < bestPos < size && IsA(dna[bestPos]))
    {
      var b := dna[i];
      if IsNChar(b) {
        i := i - 1;
        continue;
      }
      if score > 20 {
        score := 20;
      }
      if IsA(b) {
        score := score + 1;
        if score >= bestScore {
          bestScore := score;
          bestPos := i;
        } else if loose && score >= bestScore - 8 {
          bestPos := i;
        }
      } else {
        score := score - 10;
      }
      if score < 0 {
        break;
      }
      i := i - 1;
    }
    if bestPos >= 0 {
      trimSize := size - bestPos - 2;
      if trimSize > 0 {
        if doMask {
          i := size - trimSize;
          while i < size
            invariant size - trimSize <= i <= size
            invariant forall k | 0 <= k < dna.Length ::
              dna[k] == if size - trimSize <= k < i then 'n' else old(dna[k])
          {
            dna[i] := 'n';
            i := i + 1;
          }
        }
      } else {
        trimSize := 0;
      }
    }
  }

  /**
   * findHeadPolyTMaybeMask: the mirror image of the poly-A scan for a poly-T head, leaving the
   * last two bases of the head; with doMask the trimmed bases become 'n'.
   */
  method FindHeadPolyTMaybeMask(dna: array<char>, size: int, doMask: bool, loose: bool) returns (trimSize: int)
    requires size <= dna.Length
    modifies dna
    ensures 0 <= trimSize && (trimSize > 0 ==> trimSize <= size - 2)
    ensures trimSize > 0 ==> IsT(old(dna[trimSize + 1]))
    ensures forall k | 0 <= k < dna.Length ::
      dna[k] == if doMask && k < trimSize then 'n' else old(dna[k])
  {
    var score := 10;
    var bestScore := 10;
    var bestPos := -1;
    trimSize := 0;
    var i := 0;
    while i < size
      invariant 0 <= i <= Clamp0(size)
      invariant bestPos == -1 || (0 <= bestPos < i && IsT(dna[bestPos]))
    {
      var b := dna[i];
      if IsNChar(b) {
        i := i + 1;
        continue;
      }
      if score > 20 {
        score := 20;
      }
      if IsT(b) {
        score := score + 1;
        if score >= bestScore {
          bestScore := score;
          bestPos := i;
        } else if loose && score >= bestScore - 8 {
          bestPos := i;
        }
      } else {
        score := score - 10;
      }
      if score < 0 {
        break;
      }
      i := i + 1;
    }
    if bestPos >= 0 {
      trimSize := bestPos + 1 - 2;
      if trimSize > 0 {
        if doMask {
          forall k | 0 <= k < trimSize {
            dna[k] := 'n';
          }
        }
      } else {
        trimSize := 0;
      }
    }
  }
}
