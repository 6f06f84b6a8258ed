# A verified model of the UCSC kent library core

This project models, in Dafny, the sequential core of five C files of the UCSC
Genome Browser "kent" library and proves what those files promise:

- `bits.c`: the packed bit array, most significant bit first, that serves the URL data
  cache as its per-block "already fetched" map. It covers single-bit set, clear and read,
  setting a range through the left and right byte masks, counting a range through the
  256-entry popcount table, and the two-speed `bitFind`.
- `common.c`: the extent gap finder, integer range intersection, byte swapping and byte
  reversal. It also covers the singly-linked list operations and the string helpers:
  prefix and suffix tests, `stripChar`, `eraseWhiteSpace`, the two tokenisers
  `chopString` and `chopByChar`, the delimited name list, `safecpy` and `safecat`.
- `twoBit.c`: the in-memory half of the .2bit DNA codec:
  - four bases per byte with `T` padding;
  - the N and lower-case (mask) runs stored as (start, size) blocks;
  - the greatest-lower-bound search over block starts;
  - fragment decoding, with the N and mask blocks laid over it;
  - the `file:seq:start-end` range parser and the `seq:start-end` spec parser.
- `dnautil.c`: the nucleotide value tables as constant functions, `packDna4`, codon lookup
  in the standard and the vertebrate mitochondrial code, complement and reverse
  complement, the table-driven filters, intron orientation, ungapped match scoring and the
  poly-A / poly-T trimmers.
- `linefile.c`:
  - the strict fixed-width integer checker `lineFileCheckAllIntsNoAbort` with its error
    codes;
  - the comma-separated array parser;
  - newline-type detection;
  - compression signature and suffix classification;
  - a line file over a string in memory, with `lineFileNext` reading it line by line.

The source changes state in place in many of these operations. There the model does the
same:
- arrays are `array<char>` or `array<bv8>`;
- list nodes are a class with a `next` field;
- the line file is a class whose methods update its fields.

Each such method is proved against a specification function on sequences or sets, and
the properties the source promises are lemmas about those functions. The pure parts are
functions with contracts.

A C call to `errAbort` becomes the `Abort` case of a `Result`. The source's lazily filled
global tables are constant functions of the character or value that indexes them.

Modules:
- `Wrappers`: `Option` and `Result`.
- `CLib`: the C library calls the core relies on. These are `strlen`, `strchr`, `strtol`
  with base 0, `isdigit`, `isspace`, `toupper` and `tolower`, all over ASCII characters.
- `Common`: gap finder, range intersection, byte swap, byte reversal.
- `SlList`: list nodes and list operations.
- `StrUtil`: prefix and suffix tests, compaction, `safecpy` and `safecat`.
- `Tokenize`: `chopString` and `chopByChar`.
- `Names`: the delimited name list.
- `Bits`: the bit array.
- `DnaUtil`: the DNA utilities.
- `TwoBit`: the .2bit codec.
- `TwoBitRange`: the range and spec parsers.
- `LineFile`: decompression classification, newline types and the in-memory line file.
- `LineFileInts`: the integer checker and the array parser.

## Model

| member | source | states |
|---|---|---|
| Bits.BitsInByteInit | src/ucsc/bits.c:18-48 | entry i of the 256-entry table is the number of set bits of the byte i |
| Bits.ByteBitsByMasks | src/ucsc/bits.c:26-45 | testing a byte against its eight one-bit masks counts exactly its set bits |
| Bits.ByteCount | src/ucsc/bits.c:50-55 | `(n+7)>>3` is the least number of bytes that holds n bits |
| Bits.BitAlloc | src/ucsc/bits.c:50-55 | a fresh array of `(n+7)>>3` bytes in which every bit reads clear |
| Bits.BitClone | src/ucsc/bits.c:57-64 | a fresh copy of the first `(n+7)>>3` bytes; every bit below n reads as in the original |
| Bits.OneBitMask | src/ucsc/bits.c:11 | `oneBit[k]` has exactly bit k set, counting from the most significant bit |
| Bits.LeftMaskMask | src/ucsc/bits.c:12 | `leftMask[a]` has exactly bits a..7 set |
| Bits.RightMaskMask | src/ucsc/bits.c:13 | `rightMask[b]` has exactly bits 0..b set |
| Bits.BothMasksMask | src/ucsc/bits.c:104-108 | `leftMask[a] & rightMask[b]` has exactly bits a..b set, the single-byte case of a range |
| Bits.ReadThroughOneBit | src/ucsc/bits.c:116-120 | `x & oneBit[k]` is non-zero exactly when bit k of x is set |
| Bits.BitReadOne | src/ucsc/bits.c:116-120 | true exactly when bit ix of the array is set |
| Bits.BitSetOne | src/ucsc/bits.c:80-84 | afterwards bit ix is set and every other bit is as before |
| Bits.BitClearOne | src/ucsc/bits.c:86-90 | afterwards bit ix is clear and every other bit is as before |
| Bits.BitSetRange | src/ucsc/bits.c:92-114 | a count of 0 or less changes nothing; otherwise exactly the bits of [start, start+count) become set and all others keep their value |
| Bits.BitCountRange | src/ucsc/bits.c:122-144 | the number of set bits in [start, start+count), and 0 when count is 0 or less |
| Bits.CountAcrossBytes | src/ucsc/bits.c:131-143 | the partial first byte, the whole middle bytes and the partial last byte together count the set bits of the range |
| Bits.BitFind | src/ucsc/bits.c:146-179 | the least index from start on whose bit equals val, or bitCount if none; no matching bit before it is skipped |
| Bits.BitFindSet | src/ucsc/bits.c:181-185 | the first set bit from start on, or bitCount |
| Bits.BitFindClear | src/ucsc/bits.c:187-191 | the first clear bit from start on, or bitCount |
| Bits.FindClearRun | src/ucsc/bits.c:146-191 | `bitFindClear` then `bitFindSet` delimit a maximal run of clear bits: all set before it, all clear inside, set or the end after it |
| Bits.SetRangeThenCount | src/ucsc/bits.c:92-144 | counting a range right after setting it gives its length |
| Common.FindGap | src/ucsc/common.c:1605-1621 | beforeGap ends the longest prefix of adjoining extents; afterGap is its successor, or none at the end of the list |
| Common.RangeIntersection | src/ucsc/common.c:1624-1631 | a positive result is the size of the overlap of [start1, end1) and [start2, end2); a result of 0 or less means they do not overlap, and for well-formed ranges its negation is the gap between them |
| Common.PositiveRangeIntersection | src/ucsc/common.c:1633-1641 | the size of the overlap, 0 when the ranges are disjoint |
| Common.ByteSwap16 | src/ucsc/common.c:1713-1721 | the bytes of the result are the bytes of the input in reverse order |
| Common.ByteSwap32 | src/ucsc/common.c:1669-1679 | the bytes of the result are the bytes of the input in reverse order |
| Common.ByteSwap64 | src/ucsc/common.c:1643-1657 | the bytes of the result are the bytes of the input in reverse order |
| Common.ByteSwapInvolutive | src/ucsc/common.c:1643-1721 | each byte swap undoes itself |
| Common.ReverseBytes | src/ucsc/common.c:49-60 | the first length bytes hold their old contents in reverse order; the bytes after them, and the whole buffer when length is 0 or less, are unchanged |
| Common.ReversedTwice | src/ucsc/common.c:49-60 | reversing twice restores the original |
| SlList.SlCount | src/ucsc/common.c:66-77 | the number of nodes in the list |
| SlList.SlReverse | src/ucsc/common.c:168-187 | the returned list holds the same nodes in reverse order |
| SlList.SlReverseTwice | src/ucsc/common.c:168-187 | reversing twice gives back the same head and the same node order |
| SlList.SlAddTail | src/ucsc/common.c:122-133 | the list is the old nodes followed by the new node |
| SlList.SlPopHead | src/ucsc/common.c:135-146 | on an empty list both results are null; otherwise the first node comes back detached and the list is the rest |
| SlList.SlCat | src/ucsc/common.c:149-166 | the nodes of the first list followed by those of the second |
| SlList.SlRemoveEl | src/ucsc/common.c:255-278 | the list without the given node, in the same order; the flag says whether the node was in it; the removed node's own next link is left as it was |
| StrUtil.StartsWith | src/ucsc/common.c:764-777 | true exactly when start is a prefix of the string |
| StrUtil.EndsWith | src/ucsc/common.c:792-802 | true exactly when end is a suffix of the string, so false when end is longer |
| StrUtil.StripChar | src/ucsc/common.c:918-932 | the string becomes itself with every c removed, the other characters in order, and is re-terminated; bytes past the new terminator are untouched |
| StrUtil.EraseWhiteSpace | src/ucsc/common.c:1208-1223 | the string becomes itself with every white-space character removed, the others in order |
| StrUtil.EraseWhiteSpaceRemovesAll | src/ucsc/common.c:1208-1223 | no white space is left and every other character occurs as often as before |
| StrUtil.FilterCounts | src/ucsc/common.c:918-932 | compaction keeps each kept character as often as it occurred and drops every other one |
| StrUtil.SafecpyAbortsAsWritten | src/ucsc/common.c:1866-1873 | the `slen > bufSize-1` test as written, in size_t arithmetic; for bufSize > 0 it aborts exactly when the string and its terminator do not fit |
| StrUtil.SafecpyZeroSizeOverflows | src/ucsc/common.c:1866-1873 | with bufSize 0 the test as written never aborts, though nothing fits |
| StrUtil.Safecpy | src/ucsc/common.c:1866-1873 | aborts exactly when the string and its terminator need more than bufSize bytes, changing nothing; otherwise the buffer starts with the string and its terminator, the rest untouched |
| StrUtil.Safecat | src/ucsc/common.c:1890-1900 | aborts exactly when the joined string does not fit; otherwise the buffer holds the old string, then src, then a terminator |
| StrUtil.SafecpyThenSafecat | src/ucsc/common.c:1866-1900 | a copy then an append succeeds exactly when both strings and a terminator fit, and leaves their concatenation |
| Tokenize.ChopString | src/ucsc/common.c:1040-1063 | returns the number of words (at most outSize when recording); a terminator is written after each recorded word only, and the recorded starts are the words' starts |
| Tokenize.WordsFromShape | src/ucsc/common.c:1040-1063 | the words are non-empty, contain no separator, are bounded by separators or the string's ends, and come in order |
| Tokenize.WordsFromCover | src/ucsc/common.c:1040-1063 | every non-separator character lies in some word |
| Tokenize.ChoppedReadBack | src/ucsc/common.c:1040-1063 | reading a recorded start of the chopped buffer as a C string gives exactly that word |
| Tokenize.ChopByChar | src/ucsc/common.c:1106-1134 | returns the number of fields (at most outSize when recording); each recorded field's delimiter becomes a terminator and the starts are recorded |
| Tokenize.FieldsJoin | src/ucsc/common.c:1106-1134 | the fields joined by the delimiter give back the string, and no field contains the delimiter |
| Tokenize.ChoppedFieldReadBack | src/ucsc/common.c:1106-1134 | reading a recorded start of the chopped buffer as a C string gives exactly that field |
| Names.CountSeparatedItems | src/ucsc/common.c:971-986 | the count equals the number of names in the delimited name list |
| Names.NamesFromLength | src/ucsc/common.c:971-986 | the number of names is the number of delimiters, plus one when the string does not end with a delimiter |
| Names.SlNameListFromString | src/ucsc/common.c:463-485 | a fresh list whose values, in order, are the names of the delimited name list |
| Names.NamesReversed | src/ucsc/common.c:470-483 | the loop builds the names in reverse order, each in a fresh node |
| Names.NameListJoin | src/ucsc/common.c:463-485 | the names joined by the delimiter give back the string without a final delimiter, and no name contains the delimiter |
| Names.TrailingDelimiterOptional | src/ucsc/common.c:463-485 | adding a final delimiter to a non-empty string that does not already end with one leaves its name list unchanged |
| TwoBit.PackedSize | src/ucsc/twoBit.c:213-217 | `(n+3)>>2` is the least number of bytes that holds n bases at four per byte |
| TwoBit.RunsExact | src/ucsc/twoBit.c:111-211 | the blocks are the maximal runs: non-empty, increasing, separated by a gap, and covering exactly the positions in a run |
| TwoBit.CountBlocks | src/ucsc/twoBit.c:111-145 | the number of maximal runs of N (or of lower-case letters) |
| TwoBit.StoreBlocks | src/ucsc/twoBit.c:147-211 | the start and size arrays hold those runs, in order |
| TwoBit.PackedBases | src/ucsc/twoBit.c:234-249 | `(n+3)>>2` bytes; byte k is `packDna4` of bases 4k..4k+3, with missing tail bases padded by T |
| TwoBit.TwoBitFromDnaSeq | src/ucsc/twoBit.c:219-269 | the record holds the name, the size, the N runs, the lower-case runs only with doMask, and the packed bases |
| TwoBit.EncodeValid | src/ucsc/twoBit.c:219-269 | an encoded sequence is well formed: its blocks are ordered runs inside it and its packed data has the right size |
| TwoBit.FindGreatestLowerBound | src/ucsc/twoBit.c:465-490 | every start before the index is below val, the start at the index is at most val unless it is 0, and for strictly increasing starts all later ones exceed val |
| TwoBit.StartsSorted | src/ucsc/twoBit.c:733-737 | the starts of ordered blocks are sorted, strictly when no block is empty, as the search needs |
| TwoBit.FindNextBlock | src/ucsc/twoBit.c:733-737 | every block before the search result ends at or before the fragment start, so the overlay loop skips none that matter |
| TwoBit.DecodeWithinByte | src/ucsc/twoBit.c:675-685 | the bases of one packed byte from pStart to pEnd are decoded in order |
| TwoBit.DecodeMiddle | src/ucsc/twoBit.c:705-718 | whole middle bytes decode to four bases each, most significant pair first |
| TwoBit.DecodeAcrossBytes | src/ucsc/twoBit.c:686-730 | the partial first byte, the middle bytes and the partial last byte decode to the bases of the window |
| TwoBit.DecodeFrag | src/ucsc/twoBit.c:674-730 | base i of the output is base offset+i of the packed bytes |
| TwoBit.MapRange | src/ucsc/twoBit.c:746-747 | a character map applied to one clipped block changes just that block |
| TwoBit.OverlayBlocks | src/ucsc/twoBit.c:733-770 | a position of the window changes exactly when it lies in one of the blocks |
| TwoBit.DecodeRange | src/ucsc/twoBit.c:664-730 | the window holds the packed bases of the range |
| TwoBit.ReadRange | src/ucsc/twoBit.c:664-772 | each output base is the packed base, or n inside an N block; with doMask it is upper-case outside mask blocks and lower-case inside them |
| TwoBit.ReadSeqFragExt | src/ucsc/twoBit.c:633-780 | the result equals the fragment reader specification, and the full size is the sequence size |
| TwoBit.ReadFragErrors | src/ucsc/twoBit.c:633-641 | aborts when the end exceeds the size, when the end is negative, when a non-zero end is not after the start, and when an end of 0 comes with a start at or past the size |
| TwoBit.ReadFragShape | src/ucsc/twoBit.c:633-663 | on success the effective end (the size when fragEnd is 0) lies after the start and within the sequence, there is one base per position, and the name is the record's own exactly when the whole sequence is read or the suffixed name happens to equal it |
| TwoBit.ReadFragInRange | src/ucsc/twoBit.c:633-772 | inside the sequence the read succeeds, with the shown base at each position |
| TwoBit.ShownEncoded | src/ucsc/twoBit.c:219-269 | after encoding, each ACGTNacgtn character reads back as itself with doMask, and in lower case without it |
| TwoBit.EncodedBases | src/ucsc/twoBit.c:219-772 | a window of an encoded sequence reads back as that window, lower-cased without doMask |
| TwoBit.ReadFragEncoded | src/ucsc/twoBit.c:219-772 | packing then reading any range gives that range, named with a suffix unless it is the whole sequence |
| TwoBit.ReadWholeEncoded | src/ucsc/twoBit.c:219-772 | packing with doMask then reading the whole sequence with doMask gives back the sequence and its name |
| TwoBitRange.AfterLastSlash | src/ucsc/twoBit.c:846-850 | the position after the last '/', or 0; no '/' follows it |
| TwoBitRange.TwoBitParseRange | src/ucsc/twoBit.c:817-879 | the result and the numbers match the range specification; the colons that end the file and the sequence name become terminators, and the file and name are read back from the buffer |
| TwoBitRange.NoColonNotRange | src/ucsc/twoBit.c:852-855 | with no ':' in the last path component the text is not a range and is the file |
| TwoBitRange.ShortFormRoundTrip | src/ucsc/twoBit.c:860-863 | `file:seq` parses as a range with start and end 0 |
| TwoBitRange.RangeRoundTrip | src/ucsc/twoBit.c:817-879 | `file:seq:start-end` parses back to file, seq, start and end |
| TwoBitRange.ReadRangeRoundTrip | src/ucsc/twoBit.c:865-877 | the text `start-end` reads back as start and end |
| TwoBitRange.MissingDashNotRange | src/ucsc/twoBit.c:865-867 | a start not followed by '-' makes the text not a range, with start and end left 0 |
| TwoBitRange.TrailingNotRange | src/ucsc/twoBit.c:873-875 | characters after the end make the text not a range, with the start already returned |
| TwoBitRange.ParseSeqSpec | src/ucsc/twoBit.c:894-922 | a spec that parses has a name without ':' and a start no greater than its end |
| TwoBitRange.SeqSpecNameOnly | src/ucsc/twoBit.c:904-906 | a name without ':' is the whole spec, with start and end 0 |
| TwoBitRange.SeqSpecRoundTrip | src/ucsc/twoBit.c:894-922 | `name:start-end` parses back, and aborts when end < start |
| TwoBitRange.FragNameIsSpec | src/ucsc/twoBit.c:655-659 | the name the fragment reader gives a window parses back as that window's spec |
| DnaUtil.NtVal | src/ucsc/dnautil.c:133-159 | t, u, c, a, g in either case map to 0..3 and every other character to -1 |
| DnaUtil.NtValLower | src/ucsc/dnautil.c:139-159 | the base value for lower-case letters, -1 for all else |
| DnaUtil.NtValUpper | src/ucsc/dnautil.c:139-159 | the base value for upper-case letters, -1 for all else |
| DnaUtil.NtValNoN | src/ucsc/dnautil.c:140-159 | the base value, with the T value in place of -1 |
| DnaUtil.NtVal5 | src/ucsc/dnautil.c:141-159 | the base value; N for every other non-space, non-digit character; -1 for spaces and digits |
| DnaUtil.NtValMasked | src/ucsc/dnautil.c:141-181 | the base value plus the mask bit for lower case; N (plus the mask bit) for other letters; -1 for spaces and digits |
| DnaUtil.ValToNt | src/ucsc/dnautil.c:160-164 | a value (masked or not) maps to its lower-case base, 4 to n |
| DnaUtil.ValToNtMasked | src/ucsc/dnautil.c:183-193 | values 0..4 map to upper-case bases and N, the masked values to lower case |
| DnaUtil.NtValRoundTrip | src/ucsc/dnautil.c:133-194 | `valToNt` of a base's value is the base in lower case, u read as t |
| DnaUtil.NtValMaskedRoundTrip | src/ucsc/dnautil.c:166-193 | `valToNtMasked` undoes `ntValMasked` on ACGTNacgtn, keeping case |
| DnaUtil.CodonTableOrdered | src/ucsc/dnautil.c:27-112 | row 16*b0 + 4*b1 + b2 of the codon table is the codon of the bases b0, b1, b2 |
| DnaUtil.CodonTableCodes | src/ucsc/dnautil.c:27-112 | the stop rows are exactly taa, tag and tga; the mito column differs only at tga (W), ata (M), aga and agg (stop) |
| DnaUtil.CodonIndex | src/ucsc/dnautil.c:199-217 | present exactly when the three bases are nucleotides, and then the row whose codon they spell |
| DnaUtil.LookupCodon | src/ucsc/dnautil.c:199-217 | the standard-code amino acid of the codon; X for a non-nucleotide |
| DnaUtil.LookupMitoCodon | src/ucsc/dnautil.c:223-242 | the mitochondrial-code amino acid of the codon; X for a non-nucleotide |
| DnaUtil.StopCodons | src/ucsc/dnautil.c:199-217 | the standard code gives 0 exactly for taa, tag and tga |
| DnaUtil.MitoCodonDiffers | src/ucsc/dnautil.c:223-242 | the mitochondrial code agrees with the standard one except tga→W, ata→M and aga, agg→stop; both give X for bad input |
| DnaUtil.PackDna4 | src/ucsc/dnautil.c:402-415 | the byte holds the four `ntValNoN` values, most significant first |
| DnaUtil.PackDna4RoundTrip | src/ucsc/dnautil.c:402-415 | unpacking field k gives base k in lower case, or t for a non-base |
| DnaUtil.NtCompTwice | src/ucsc/dnautil.c:296-341 | complementing twice gives back the character exactly when it is one the table maps both ways |
| DnaUtil.AcgtnSelfInverse | src/ucsc/dnautil.c:296-341 | every ACGTNacgtn character is complemented back to itself, so a↔t and c↔g with case kept and n→n |
| DnaUtil.Complement | src/ucsc/dnautil.c:344-354 | each of the first length characters is replaced by its complement; the characters after them are unchanged |
| DnaUtil.ReverseComplement | src/ucsc/dnautil.c:358-362 | the first length characters hold the complement of their old contents read backwards; the characters after them are unchanged |
| DnaUtil.ComplementTwice | src/ucsc/dnautil.c:344-362 | on self-inverse characters complementing, or reverse-complementing, twice is the identity |
| DnaUtil.DnaOrAaFilteredSize | src/ucsc/dnautil.c:377-388 | the number of characters the filter keeps |
| DnaUtil.DnaOrAaFilter | src/ucsc/dnautil.c:390-400 | the output holds the filtered characters and a terminator, the rest untouched |
| DnaUtil.FilterMatchesSize | src/ucsc/dnautil.c:377-400 | the filtered output's length is the filtered size |
| DnaUtil.IntronOrientation | src/ucsc/dnautil.c:426-443 | the result is -1, 0 or 1, and 0 for an intron shorter than the minimum |
| DnaUtil.IntronOrientationReverseComplement | src/ucsc/dnautil.c:426-443 | the same intron on the reverse-complemented genome has the opposite orientation |
| DnaUtil.ScoreMatch | src/ucsc/dnautil.c:445-463 | the sum over the first size positions of the match score, the mismatch score, or 0 where either side is the ignored character |
| DnaUtil.ScoreSymmetric | src/ucsc/dnautil.c:445-463 | the score does not depend on which sequence comes first |
| DnaUtil.SelfScore | src/ucsc/dnautil.c:445-463 | a sequence against itself scores the match score per non-ignored position |
| DnaUtil.FindTailPolyAMaybeMask | src/ucsc/dnautil.c:465-519 | a trim size between 0 and size-2; a positive trim keeps two tail bases, the first of them an A; with doMask exactly the trimmed tail becomes n and nothing else changes |
| DnaUtil.FindHeadPolyTMaybeMask | src/ucsc/dnautil.c:521-574 | a trim size between 0 and size-2; a positive trim keeps two head bases, the second of them a T; with doMask exactly the trimmed head becomes n and nothing else changes |
| LineFile.FileNameFromHdrSig | src/ucsc/linefile.c:19-33 | a name exactly when the header starts with a compression signature, and then `somefile.` plus that format's extension |
| LineFile.SignaturesDisjoint | src/ucsc/linefile.c:19-33 | at most one signature matches a header, so the order of the tests does not matter |
| LineFile.Decompressor | src/ucsc/linefile.c:35-63 | a command exactly when the name (the decoded one for a URL) ends in a compression suffix, and then that format's command |
| LineFile.SuffixesDisjoint | src/ucsc/linefile.c:35-63 | at most one compression suffix matches a name |
| LineFile.HeaderNameDecompresses | src/ucsc/linefile.c:19-63 | the name made from a signature selects that signature's decompressor |
| LineFile.DetectNlAtBreak | src/ucsc/linefile.c:276-298 | the first line break decides: `\n` is unix, `\r\n` is dos, a lone `\r` is mac |
| LineFile.DetectNlNoBreak | src/ucsc/linefile.c:276-298 | a buffer without a line break is unix |
| LineFile.ScanNlType | src/ucsc/linefile.c:283-297 | the scan returns the newline type of the buffer |
| LineFile.LineFile.DetermineNlType | src/ucsc/linefile.c:276-298 | nothing changes for an empty buffer or a type already known; otherwise the type becomes the buffer's newline type |
| LineFile.LineFile.OnString | src/ucsc/linefile.c:160-173 | a line file over the C string, nothing read yet and the newline type undetermined |
| LineFile.LineFile.Reuse | src/ucsc/linefile.c:224-228 | marks the current line for reuse and changes nothing else |
| LineFile.LineFile.Next | src/ucsc/linefile.c:300-505 | a reused line comes back unchanged; otherwise the next line of the unread text, or false at its end |
| LineFile.LineFile.ReadLine | src/ucsc/linefile.c:365-505 | the line runs through its terminator, or to the end of the text for a final unterminated line; with zTerm the terminator and a dos `\r` are zeroed; the line index advances |
| LineFile.NextLineSplits | src/ucsc/linefile.c:368-395 | the next line is a non-empty prefix of the unread text that ends at the first terminator or takes the whole text |
| LineFile.LinesConcat | src/ucsc/linefile.c:300-505 | the successive lines concatenate to the text |
| LineFile.LinesShape | src/ucsc/linefile.c:300-505 | every line is non-empty and every line but the last ends with the terminator |
| LineFile.ShownCString | src/ucsc/linefile.c:491-498 | with zTerm the line reads as a C string without its terminator, and without the `\r` of a dos line |
| LineFileInts.LimitValues | src/ucsc/linefile.c:810-827 | the limit is 2^(8n)-1 unsigned, 2^(8n-1)-1 signed, and 2^(8n-1) after a minus sign |
| LineFileInts.SignAndLimit | src/ucsc/linefile.c:815-835 | 3 for a minus on an unsigned type, 4 for a minus with noNeg, else the sign, the digit start and the limit |
| LineFileInts.CheckInt | src/ucsc/linefile.c:788-925 | aborts exactly for a byte count outside 1, 2, 4, 8; otherwise a code 0..4, with a stored value exactly when storing and the code is 0 |
| LineFileInts.CheckAllIntsExact | src/ucsc/linefile.c:788-925 | the corrected checker equals the integer checker specification, whose overflow test compares the exact value with the limit |
| LineFileInts.CheckAllIntsNoAbort | src/ucsc/linefile.c:788-925 | the checker as written, with 64-bit wrap-around in the digit loop |
| LineFileInts.ExactDigitLoop | src/ucsc/linefile.c:836-859 | overflow exactly when the digits' value exceeds the limit, else that value and the end of the digits |
| LineFileInts.WrappedDigitLoop | src/ucsc/linefile.c:836-859 | the digit loop with unsigned 64-bit arithmetic and its three overflow tests |
| LineFileInts.WrappedIsExact | src/ucsc/linefile.c:836-859 | for limits below 2^32 the wrap-around tests never miss, so the loop gives the exact answer |
| LineFileInts.AsWrittenExactBelow8 | src/ucsc/linefile.c:788-925 | for byte counts 1, 2 and 4 the checker as written equals the exact one |
| LineFileInts.WrapMissesOverflow | src/ucsc/linefile.c:839-856 | unsigned 8-byte `30000000000000000000` is accepted as written with a wrapped value, but is an overflow (2) in the exact checker |
| LineFileInts.StoredFits | src/ucsc/linefile.c:872-921 | a stored value lies in the range of the requested type |
| LineFileInts.CheckIntOfNumber | src/ucsc/linefile.c:788-925 | a number's decimal text gives 0 and the number when it fits the type, else 2 |
| LineFileInts.CheckIntTrailing | src/ucsc/linefile.c:861-865 | a number followed by a non-digit gives 1 when the number fits the type, and 2 when it overflows first |
| LineFileInts.CheckIntSign | src/ucsc/linefile.c:817-835 | a leading minus gives 3 for an unsigned type and 4 with noNeg |
| LineFileInts.CheckIntNoDigits | src/ucsc/linefile.c:866-870 | the empty string, and a lone minus where minus is allowed, give 1 |
| LineFileInts.StoreOnlyStores | src/ucsc/linefile.c:872-873 | validating without storing gives the same abort or code as storing, with nothing stored |
| LineFileInts.Items | src/ucsc/linefile.c:950-970 | at most arraySize items, none containing a comma |
| LineFileInts.ItemsJoin | src/ucsc/linefile.c:950-970 | the items joined by commas, plus a trailing comma if there was one, give back the whole text when arraySize does not cut it short |
| LineFileInts.ItemValues | src/ucsc/linefile.c:950-970 | on success one value per item, each the value the checker as written stores for that item |
| LineFileInts.ItemValuesBelow8 | src/ucsc/linefile.c:788-970 | for byte counts 1, 2 and 4 each of those values is also the one the exact checker reads |
| LineFileInts.AllIntsArray | src/ucsc/linefile.c:941-972 | succeeds exactly when every item passes the checker as written with code 0; then the count is the number of items, the values fill the front of the array, and the text is restored; otherwise the first bad item's abort |
| LineFileInts.CutAtComma | src/ucsc/linefile.c:955-957 | the first comma of the item is found and zeroed |
| LineFileInts.RestoreComma | src/ucsc/linefile.c:967-969 | the zeroed comma is put back and the next item starts after it |

## Left out

- The URL data cache itself (`udc.h`). Only its declarations exist; the model has its two visible building blocks, the bit array and the extent gap finder.
- File and descriptor I/O in `common.c` (`mustOpen`, `mustRead`, `mustWrite`, the `fd` readers, `readBits32`, `writeString`, `readString`). This is operating-system I/O.
- In `twoBit.c`:
  - the udc and stdio dispatch through function tables;
  - the index hash and B+ tree lookup;
  - the file writers, `twoBitIsFile` and `twoBitSpecNew`.
  
  A sequence's stored record is modelled as a value, `TwoBit.TwoBitSeq`; reading a fragment starts from that record rather than from a file offset.
- In `linefile.c`:
  - the `fd` reads, the decompression pipeline, udc, tabix and the metadata hash;
  - HTTP header parsing and the chunked-body reader.
  
  These are external I/O.
- Floating point: the double sorts and medians, the float byte swaps, `lineFileNeedDouble`, and `isDna`, which rounds `0.9 * size`.
- Time: `mktimeFromUtc` and `dateToSeconds`, which depend on libc and the TZ environment.
- The qsort-based sorts `slSort`, `slUniqify` and `intSort`. Their comparators are C callbacks over untyped memory.
- `verbose.c`, which is stderr logging and environment lookup. `tokenizer.h`, `dystring.h` and `htmlColor.h` are declarations only, and their code is not part of this model.
- Memory management (`needMem`, `cloneString`, `freeMem`) and the lazy initialisation flags. Copies are values and tables are constant functions.
- Other `common.c` and `dnautil.c` functions outside the core: `safencpy`, `slAddHead` (a macro whose header is not part of this model; the model's `SlList.SlAddHead` is its plain meaning), `ntChars` and `ntMixedCaseChars`, and the amino-acid tables.
- The constants of `dnautil.h` and `twoBit.h` are taken as the library defines them. These are T=0, U=0, C=1, A=2, G=3, N=4 and the mask bit 8. The headers are not part of this model.
- Error message text (`errMsg`, `errAbort` messages) is left out. An abort carries a short reason string instead.
- Characters are Dafny `char`. C's signed `char` indexing and non-ASCII bytes are not modelled.
- `CLib.StrToL`: the source's `strtol` result is stored in an `int`. The model keeps the unbounded value, so it does not model clamping at the `long` range or truncation to `int`.
- `TwoBit.TwoBitFromDnaSeq`: an empty sequence is excluded; the source writes one packed byte into a zero-length array.
- Integer widths: coordinates, offsets and sizes are unbounded integers, so 32- and 64-bit overflow is not modelled. This covers `Common.RangeIntersection` (the `int` overflow of `e - s`), `Common.FindGap` (the `bits64` wrap of `offset + size`) and `TwoBit.FragName` (`%d` of an `int`). `TwoBit.ReadFrag` and `TwoBit.ReadSeqFragExt` take fragStart as a `nat`, so a negative `int` fragStart is excluded.
- `LineFileInts.AllIntsArray`: values are stored as unbounded integers in an `array<int>`. The byte layout at the requested width is not modelled. A negative arraySize, which the source compares as unsigned, is treated as no limit.
- `LineFile.LineFile.Next` reads a line file made on a string in memory only, where every read returns 0 bytes. With no file to read, the refill loop runs at most once. The buffer never grows, and the "Line too long" abort cannot happen. The `nextCallBack`, udc and metadata branches are left out.
- `LineFile.Decompressor` returns the command words without the C array's NULL terminator. The URL decoding of a URL name is a parameter (`urlDecoded`), as `cgiDecode` is outside the core.
- `DnaUtil.FindTailPolyAMaybeMask`: the contract states the bounds of the trim size, the A at the first kept tail position and the masking. It does not state which position the score selects.
- `DnaUtil.FindHeadPolyTMaybeMask`: the contract states the bounds of the trim size, the T at the last kept head position and the masking. It does not state which position the score selects.
- `DnaUtil.DnaOrAaFilter`: the 256-entry filter table is a function from characters to characters, with 0 meaning drop.
- `Bits.BitsInByteInit` returns the popcount table as a value rather than filling a global array behind a flag.

## Findings

| source | as written | input that shows it | evidently intended | confidence | as-written member | corrected member |
|---|---|---|---|---|---|---|
| src/ucsc/linefile.c:839-856 | the digit loop detects overflow by `res < oldRes` after `res *= 10` and after adding the digit; a 64-bit multiply by 10 can wrap to a value that is still larger | `lineFileCheckAllIntsNoAbort("30000000000000000000", val, FALSE, 8, …)` returns 0 and stores 11553255926290448384 | return 2, since the value exceeds 2^64-1 | not executed | LineFileInts.CheckAllIntsNoAbort, LineFileInts.WrapMissesOverflow | LineFileInts.CheckAllIntsExact |
| src/ucsc/common.c:1866-1873 | `safecpy` (and `safecat` at lines 1890-1900) tests `slen > bufSize-1` in `size_t`; when bufSize is 0 the subtraction wraps to the largest `size_t` and the test never aborts | `safecpy(buf, 0, "x")` copies two bytes into a zero-size buffer | abort whenever the string and its terminator need more than bufSize bytes | not executed | StrUtil.SafecpyAbortsAsWritten, StrUtil.SafecpyZeroSizeOverflows | StrUtil.Safecpy, StrUtil.Safecat |
