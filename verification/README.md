# Verified model of the native kernels

A Dafny model of the native code of this 5G terminal simulator that has arithmetic, state or
protocol in it, with proofs of what that code is for:

* the SNOW 3G and ZUC key stream generators, and the authentication codes UIA2 and 128-EIA3 built
  on them (`Gf2Ring`, `SnowAlpha`, `SnowBoxes`, `Snow3g`, `Uea2`, `ZucBoxes`, `Zuc`, `Eia3`);
  `SnowStandard`, `Uia2Standard`, `ZucStandard` and `Eia3Standard` are what TS 35.215, 35.216,
  35.221 and 35.222 define, written over bit strings with the tables and constants by their laws
  (`BitWords`, `ByteField`), which the code is proved to compute; `ZucInjective` shows that the
  states of ZUC never meet;
* the ASN.1 INTEGER: conversions, minimal encodings, comparison, enumeration tables, decimal
  readers, XER printer and reader, aligned PER (`TwosComplement`, `Integer`, `Decimal`,
  `EnumMap`, `Xer`, `Aper`);
* the ASN.1 BIT STRING: compaction, comparison, unaligned PER with and without a size constraint
  (`BitOrder`, `BitString`, `Uper`);
* what both PER codecs stand on: octet packing, bit streams and length determinants (`Packing`,
  `BitStream`, `PerLength`);
* the blocking queue and the Internet checksums (`BlockingQueue`, `Checksum`).

`dafny verify dfyconfig.toml` checks everything.

Machine words are natural numbers with the C operators written out bit by bit (`Words`); every
truncation, wrap-around and sign conversion of the code is explicit. `long`, `intmax_t` and
pointers are 64 bits wide, `int` 32. Code that updates variables is a method or a class with the
same fields and loops, proved against a function; what the code is worth is then proved about that
function.

## Where the code differs from what one would expect

Each entry names the lemma with the exact condition and, where one input says it best, a second one.

* `INTEGER_compare` reverses the order of two negatives of one length
  (`TwosComplement.CompareIsNumericUnless`, `TwosComplement.NegativesAreReversed`).
* A negative decimal with another digit after -2^63 to -2^63 + 8 overflows
  (`Decimal.SignedIsExact`, `Decimal.TwentyDigitsMayOverflow`).
* An unsigned INTEGER above 2^63 - 1 comes back negative from aligned PER when its range has at most
  16 bits, because `asn_ulong2INTEGER` uses the signed converter (`Aper.ConstrainedRoundTrip`,
  `Aper.LargeComesBackNegative`); only a hand-made constraint has such a range. Every unsigned INTEGER
  from 2^63 up is refused by the XER reader (`Xer.XerRoundTrip`,
  `Xer.LargeUnsignedIsRefused`).
* In aligned PER, a type that is flagged semi-constrained or constrained but has negative range bits
  and lower bound 0 is written in the general form for values in range and refused by the decoder,
  extensible types with a clear extension bit included (`Aper.GeneralFormIsRead`,
  `Aper.SemiConstrainedIsNotRead`).
* Aligned PER aligns the bit field of ranges of 129 to 255 values, which section 11.5.7 of X.691 does
  not; `NGAP_ExpectedActivityPeriod.c` line 40 and `NGAP_ExpectedIdlePeriod.c` line 40 have 181
  (`Aper.FormIsStandardUnless`, `Aper.AlignedBitField`).
* An INTEGER whose octets fill whole fragments of 16384 is written without the final empty piece and
  not read back (`Aper.GeneralRoundTrip`, `Aper.WholeFragmentIsLost`).
* The 64-bit range of `NGAP_VolumeTimedReport-Item.c` line 136, stored with upper bound -1 and read
  with a sign, is refused for every value (`Aper.RangeIsEncodable`, `Aper.WideRangeIsRefused`).
* Signed words overflow in aligned PER for offsets from 2^63 up (`Aper.StaysSignedIff`,
  `Aper.TopBitOverflows`).
* Unaligned PER of a BIT STRING writes a length field of 17 to 31 bits that its decoder does not read
  (`Uper.UperReturnsIfLegible`, `Uper.WideLengthIsLost`). Only a hand-made constraint has such a
  field: the generated tables give wider sizes no length field at all.
* In those, such as `NGAP_DRBStatusUL18.c` line 44, nothing is added up to the lower bound, so a
  string without ones decodes to fewer bits than the type allows (`Uper.SizeMeetsLowerBound`,
  `Uper.EmptyUnderLowerBound`).
* A BIT STRING decoded over an earlier one can keep a stale count of unused bits
  (`Uper.CountIsRight`, `Uper.StaleCount`).
* The 32-bit sum of `icmp_checksum` loses a carry from 131078 octets on
  (`Checksum.IcmpMessageVerifies`, `Checksum.LongMessageFails`); no IP packet is that large.
* `tcp_udp_checksum_assign` takes the length of its buffer and never compares the total length in the
  header with it (`Checksum.ConfinedIff`).
* A UDP checksum can be stored as 0, which RFC 768 reads as no checksum (`Checksum.ZeroIsStored`,
  `Checksum.ZeroChecksumExists`).
* The byte offsets of `f9` wrap beyond 2^35 bits (`Uea2.OffsetsAreExact`).
* The standard's zero-to-p correction in ZUC is missing and never needed
  (`ZucStandard.ReachableIsStandard`).

## Model

| member | source | states |
|---|---|---|
| Gf2Ring.MulIsQuotientRing | native/crypto-native/src/uea2.cpp:36-62 | for every width n and constant c < 2^n: a word is the remainder of the carry-less product of v and p on division by x^n + c if and only if it is what the `MUL64` loop returns; at width 64 this is multiplication in GF(2)[x]/(x^64 + c) |
| Gf2Ring.MulLinear | native/crypto-native/src/uea2.cpp:52-62 | the product distributes over exclusive or in each argument |
| Gf2Ring.MulComm | native/crypto-native/src/uea2.cpp:52-62 | the product commutes |
| Gf2Ring.MulAssoc | native/crypto-native/src/uea2.cpp:52-62 | the product is associative |
| Gf2Ring.MulUnit | native/crypto-native/src/uea2.cpp:52-62 | 1 is a unit and 0 absorbs, on both sides |
| Gf2Ring.MulXPowIsProduct | native/crypto-native/src/uea2.cpp:44-50 | `MUL64xPOW(V, i, c)` is the product of V and x^i (itself `MUL64xPOW(1, i, c)`), for every i |
| Gf2Ring.MulXLinear | native/crypto-native/src/snow3g.cpp:79-85 | multiplication by x is linear over exclusive or, for every constant |
| Gf2Ring.MulXPowLinear | native/crypto-native/src/snow3g.cpp:87-93 | so is multiplication by x^i |
| Gf2Ring.MulXPowAdd | native/crypto-native/src/snow3g.cpp:87-93 | multiplying by x^i and then by x^j is multiplying by x^(i+j) |
| Gf2Ring.MulXReduces | native/crypto-native/src/snow3g.cpp:79-85 | 2 v and `MULx(v, c)` differ by the modulus x^n + c if the top bit of v is set, and by nothing otherwise |
| SnowAlpha.AlphaTimesBytes | native/crypto-native/src/snow3g.cpp:95-98 | alpha times a word, byte by byte: each lower byte moves up and takes the top byte times x^23, x^245, x^48, x^239 |
| SnowAlpha.AlphaInverseTimesBytes | native/crypto-native/src/snow3g.cpp:100-103 | the same for division by alpha |
| SnowAlpha.OrderOfX | native/crypto-native/src/snow3g.cpp:87-93 | multiplying any byte by x^255 with constant 0xa9 gives it back (the exponent is a variable equal to 255 so that the power is not unfolded) |
| SnowAlpha.DivideUndoesMultiply | native/crypto-native/src/snow3g.cpp:95-103 | on every 32-bit word, (w >> 8) ^ `DIValpha`(w & 0xff) undoes (w << 8) ^ `MULalpha`(w >> 24) |
| SnowAlpha.MultiplyUndoesDivide | native/crypto-native/src/snow3g.cpp:95-103 | and the other way round |
| Snow3g.ClockIsBijection | native/crypto-native/src/snow3g.cpp:133-173 | for every fed-back word F (0 in key stream mode) the clock of the sixteen-word register has a two-sided inverse |
| SnowBoxes.SRUndone | native/crypto-native/src/snow3g.cpp:27-51 | the table `SR` has a table that undoes it, entry by entry |
| SnowBoxes.SQUndone | native/crypto-native/src/snow3g.cpp:53-77 | so has the table `SQ` |
| SnowBoxes.SRLaw | native/crypto-native/src/snow3g.cpp:27-51 | each entry of `SR` is the affine map of Rijndael applied to the 254th power, the inverse, of its index modulo x^8 + x^4 + x^3 + x + 1 |
| SnowBoxes.SQLaw | native/crypto-native/src/snow3g.cpp:53-77 | each entry of `SQ` is x + x^9 + x^13 + x^15 + x^33 + x^41 + x^45 + x^47 + x^49 + 0x25 at its index, modulo x^8 + x^6 + x^5 + x^3 + 1 |
| ByteField.SquareIsProduct1b | native/crypto-native/src/snow3g.cpp:27-51 | in these powers squaring, which spreads the bits, is multiplication of a byte with itself: modulo the polynomial of `SR`, ... |
| ByteField.SquareIsProduct69 | native/crypto-native/src/snow3g.cpp:53-77 | ... that of `SQ`, ... |
| ByteField.SquareIsProduct8b | native/crypto-native/src/zuc.cpp:31-47 | ... and that of the table `S1` of ZUC |
| SnowBoxes.MixedIsInjective | native/crypto-native/src/snow3g.cpp:112-115 | the linear mixing of four bytes loses nothing, whatever constant is used to reduce: bytes that mix to zero add up to zero, so opposite ones are equal, then all are, then each is zero |
| SnowBoxes.BoxesAreInjective | native/crypto-native/src/snow3g.cpp:105-131 | `S1` and `S2`, table look-ups and mixing together, never send two words to one |
| Snow3g.RoundIsInjective | native/crypto-native/src/snow3g.cpp:133-183 | a round of the whole generator, of either kind, never merges two states |
| Snow3g.LoadIsInjective | native/crypto-native/src/snow3g.cpp:189-204 | the key load determines key and initial value |
| Snow3g.InitializeIsInjective | native/crypto-native/src/snow3g.cpp:185-227 | after initialisation and any number of key stream rounds two generators are in the same state if and only if key and initial value agree |
| Snow3g.Generator.ClockLFSRInitializationMode | native/crypto-native/src/snow3g.cpp:133-152 | the sixteen assignments in place perform the clock on registers, and leave the state machine alone |
| Snow3g.Generator.ClockLFSRKeyStreamMode | native/crypto-native/src/snow3g.cpp:154-173 | the same with nothing fed back |
| Snow3g.Generator.ClockFSM | native/crypto-native/src/snow3g.cpp:175-183 | returns the output word of the old state and updates the three registers, the linear register unchanged |
| Snow3g.Generator.Initialize | native/crypto-native/src/snow3g.cpp:185-213 | the state after it is 32 feeding rounds from the loaded key |
| Snow3g.Generator.GenerateKeyStream | native/crypto-native/src/snow3g.cpp:215-227 | word t of the key stream comes from the state after t + 1 rounds, and n + 1 rounds have been made at the end |
| SnowStandard.AlphaIsStandard | native/crypto-native/src/snow3g.cpp:95-98 | the contribution of `LFSR_S0` is, on bit strings, the word moved up by a byte plus MULalpha of its first byte, MULxPOW being written on eight bits (section 3.4.2 of TS 35.216) |
| SnowStandard.AlphaInverseIsStandard | native/crypto-native/src/snow3g.cpp:100-103 | that of `LFSR_S11` is the word moved down by a byte plus DIValpha of its last byte |
| SnowStandard.BoxesAreStandard | native/crypto-native/src/snow3g.cpp:105-131 | `S1` and `S2` are, on bit strings, the S-boxes of sections 3.3.1 and 3.3.2, over the inverse and the polynomial and not over the tables |
| SnowStandard.OutputIsStandard | native/crypto-native/src/snow3g.cpp:175-178 | the output of the state machine is S15 plus R1 modulo 2^32, exclusive-or R2 |
| SnowStandard.RoundIsStandard | native/crypto-native/src/snow3g.cpp:133-183 | a round of the code, of either kind, is that of the standard on bit strings: new cell, next memory, and F fed back while initialising |
| SnowStandard.RunIsStandard | native/crypto-native/src/snow3g.cpp:133-183 | so is any run |
| SnowStandard.LoadIsStandard | native/crypto-native/src/snow3g.cpp:189-207 | the key load of section 4.1 |
| SnowStandard.WordIsStandard | native/crypto-native/src/snow3g.cpp:215-227 | from any state, word t of the key stream is F exclusive-or S0 after t + 1 rounds |
| SnowStandard.KeyStreamIsStandard | native/crypto-native/src/snow3g.cpp:185-227 | the key stream of every key and initial value is that of the standard |
| Uea2.MUL64 | native/crypto-native/src/uea2.cpp:52-62 | the loop computes the ring product, on 64 bits |
| Uea2.F9 | native/crypto-native/src/uea2.cpp:69-129 | for lengths of 1 to 2^35 bits the code depends on key, counters and exactly the first `length` bits: it is the polynomial code `Mac` of those bits under the five key stream words; the buffer need not extend beyond the byte that holds the last of them |
| Uea2.Authenticate | native/crypto-native/src/uea2.cpp:88-128 | the same for a given key stream: all blocks, the length block, and the final exclusive or |
| Uea2.LastBlock | native/crypto-native/src/uea2.cpp:98-117 | the byte loop and the masked byte collect the last block, zero-padded on the right |
| Uea2.LastBlockValue | native/crypto-native/src/uea2.cpp:98-117 | collected bytes and leading bits, moved to the top of the word, are block D-2 of the first `length` bits |
| Uea2.MaskKeepsTop | native/crypto-native/src/uea2.cpp:64-67 | `mask8bit(n)` keeps exactly the n leading bits of a byte |
| Uea2.FullBlock | native/crypto-native/src/uea2.cpp:92-96 | the eight shifted bytes at the 32-bit offset of block i are bits 64 i to 64 i + 63 of the message |
| Uea2.Fold | native/crypto-native/src/uea2.cpp:121-128 | taking the four bytes apart and joining them again is the top half of EVAL exclusive-or z[4] |
| Uea2.EvalIsPolynomial | native/crypto-native/src/uea2.cpp:91-119 | after d blocks EVAL is the exclusive or of M_i P^(d-i) over all blocks (section 4.5 of TS 35.215) |
| Uea2.EvalXor | native/crypto-native/src/uea2.cpp:91-119 | EVAL is linear in the message for fixed P |
| Uea2.MacIsAffine | native/crypto-native/src/uea2.cpp:69-129 | for fixed key stream and length the codes of a, b and a xor b add up to the code of the all-zero message |
| Uea2.OffsetsAreExact | native/crypto-native/src/uea2.cpp:92-96 | the 32-bit byte offsets are right for every block if and only if the length is at most 2^35 bits |
| Uia2Standard.ProductIsQuotient | native/crypto-native/src/uea2.cpp:36-62 | the product used by the standard is the remainder modulo x^64 + x^4 + x^3 + x + 1 |
| Uia2Standard.KeyIsStandard | native/crypto-native/src/uea2.cpp:82-83 | the four key words are the four parts of the 128 key bits, the first part last |
| Uia2Standard.IvIsStandard | native/crypto-native/src/uea2.cpp:84-87 | for a direction of 0 or 1 the words of the initial value are FRESH with bit 16 inverted for direction 1, COUNT with its first bit inverted for direction 1, FRESH, and COUNT (section 4.3 of TS 35.215) |
| Uia2Standard.CodeIsStandard | native/crypto-native/src/uea2.cpp:88-128 | under any five words the code is, bit by bit, that of section 4.5: blocks filled with zeros, P from the first two words, the length, Q from the next two, and the first 32 bits added to the last |
| Uia2Standard.F9IsStandard | native/crypto-native/src/uea2.cpp:69-129 | what `f9` returns is the code of the standard under the key stream of the standard, as a function of the bits of key, counters, direction and message |
| Uia2Standard.StatesAreDistinct | native/crypto-native/src/uea2.cpp:69-90 | different keys, counters, fresh values or directions lead to different generator states, after initialisation and any number of words |
| Zuc.AddMReduces | native/crypto-native/src/zuc.cpp:53-57 | on a in 1..p and b in 0..p the sum does not wrap and `AddM` returns the representative of a + b in 1..p, p = 2^31 - 1 |
| Zuc.MulByPow2Reduces | native/crypto-native/src/zuc.cpp:59 | on x in 1..p the 31-bit rotation returns the representative of 2^k x |
| Zuc.FeedbackReduces | native/crypto-native/src/zuc.cpp:65-80 | from cells in 1..p the feedback is the representative of 2^15 s15 + 2^17 s13 + 2^21 s10 + 2^20 s4 + (1 + 2^8) s0 |
| Zuc.Generator.LFSRWithInitializationMode | native/crypto-native/src/zuc.cpp:61-86 | the assignments in place perform the clock with u added |
| Zuc.Generator.LFSRWithWorkMode | native/crypto-native/src/zuc.cpp:88-111 | and without it |
| Zuc.Generator.Initialize | native/crypto-native/src/zuc.cpp:154-175 | 32 feeding rounds and one working round from the loaded cells |
| Zuc.Generator.GenerateKeyStream | native/crypto-native/src/zuc.cpp:177-185 | word i comes from the state after i rounds, and n rounds have been made at the end |
| ZucStandard.ClockIsStandard | native/crypto-native/src/zuc.cpp:61-111 | from cells in 1..p, in both modes, a clock appends the same cell as the clock of section 3.2 of TS 35.222 with its zero-to-p correction, and keeps all cells in 1..p |
| ZucStandard.ReorganizedIsStandard | native/crypto-native/src/zuc.cpp:113-119 | the bits of the four words are the top and bottom halves of the cells that section 3.3 takes, joined |
| ZucStandard.LinearIsStandard | native/crypto-native/src/zuc.cpp:121-131 | the bits of L1 and L2 are the exclusive or of rotations of the bit string in section 3.4.2 |
| ZucStandard.SubstitutedIsStandard | native/crypto-native/src/zuc.cpp:133-149 | splitting a word, looking up and joining again is substitution byte by byte on its bits, by the laws of the two tables and not by the tables |
| ZucStandard.OutputIsStandard | native/crypto-native/src/zuc.cpp:136-139 | the output word of `F`, stated over bit strings as in section 3.4 |
| ZucStandard.MemoryIsStandard | native/crypto-native/src/zuc.cpp:140-148 | the halves exchanged by shifts, the linear layers and the tables give the next memory of section 3.4, stated over bit strings |
| ZucStandard.LoadedCell | native/crypto-native/src/zuc.cpp:151-159 | key byte, constant and initial value byte, shifted and joined, are their concatenated bits, as a cell in 1..p |
| ZucStandard.ConstantIsStandard | native/crypto-native/src/zuc.cpp:49-51 | the bits of each constant are a linear recurrence: from the number i + 1, last bit first, b[j + 4] = b[j] + b[j + 1], and for the last constant from 1000, b[j + 4] = b[j] + b[j + 3] |
| ZucStandard.LoadedIsStandard | native/crypto-native/src/zuc.cpp:151-159 | the key load of section 3.5, key byte, constant and byte of the initial value side by side, the constants by their recurrence; every cell is in 1..p |
| ZucStandard.RoundIsStandard | native/crypto-native/src/zuc.cpp:61-149 | from cells in range, a round of the code, in both modes, is the round of the standard on bit strings |
| ZucStandard.RunIsStandard | native/crypto-native/src/zuc.cpp:61-149 | so is any run |
| ZucStandard.ReachableIsStandard | native/crypto-native/src/zuc.cpp:154-185 | in every state reached by k initialising and n working rounds all cells are in 1..p, and the state is the one the standard prescribes |
| ZucStandard.KeyStreamIsStandard | native/crypto-native/src/zuc.cpp:154-185 | the key stream of every key and initial value is that of the standard generator |
| ZucBoxes.TablesAreInjective | native/crypto-native/src/zuc.cpp:13-47 | neither `S0` nor `S1` holds an octet twice: each has a table that undoes it |
| ZucBoxes.S0Law | native/crypto-native/src/zuc.cpp:13-29 | each entry of `S0` is three rounds of additions and tables of four bits on the halves of its index, turned by five bits |
| ZucBoxes.S1Law | native/crypto-native/src/zuc.cpp:31-47 | each entry of `S1` is an affine map of the inverse of its index modulo x^8 + x^7 + x^3 + x + 1 |
| ZucInjective.LinearFourTimes | native/crypto-native/src/zuc.cpp:121-131 | applied four times, the bit string form of `L1` is a rotation by 8, that of `L2` one by 24 |
| ZucInjective.LinearIsInjective | native/crypto-native/src/zuc.cpp:121-131 | so `L1` and `L2` never send two words to one |
| ZucInjective.SubstitutedIsInjective | native/crypto-native/src/zuc.cpp:133-147 | nor does the S-box layer |
| ZucInjective.MemoryDetermines | native/crypto-native/src/zuc.cpp:136-149 | for fixed words from the register, the next memory of `F` determines the one before |
| ZucInjective.ClockDetermines | native/crypto-native/src/zuc.cpp:61-111 | the register after a clock, of either kind, determines the register before it, cells in range: the weight 1 + 2^8 of the oldest cell has an inverse modulo p |
| ZucInjective.RoundIsInjective | native/crypto-native/src/zuc.cpp:61-149 | a round of the whole generator, of either kind, never merges two states with cells in range |
| ZucInjective.LoadIsInjective | native/crypto-native/src/zuc.cpp:151-159 | the key load determines key and initial value |
| ZucInjective.InitializeIsInjective | native/crypto-native/src/zuc.cpp:154-185 | after initialisation and any number of key stream rounds two generators are in the same state if and only if key and initial value agree |
| Eia3.GetWordIsWindow | native/crypto-native/src/eia3_128.cpp:14-21 | at every bit offset that leaves 32 bits, `GetWord` is the 32-bit window of the key stream from there |
| Eia3.GetBitIsBit | native/crypto-native/src/eia3_128.cpp:23-26 | `GetBit` is bit i of the message |
| Eia3.Accumulate | native/crypto-native/src/eia3_128.cpp:56-66 | the loop computes the exclusive or of the windows at set message bits, the window at `length` and the last word, all inside the L words |
| Eia3.EIA3 | native/crypto-native/src/eia3_128.cpp:28-68 | for length + 95 < 2^32 that is the code under the ZUC key stream for the given parameters (section 4 of TS 35.221) |
| Eia3.SumXor | native/crypto-native/src/eia3_128.cpp:57-61 | the sum of windows is linear in the message |
| Eia3.MacIsAffine | native/crypto-native/src/eia3_128.cpp:56-66 | for a fixed key stream the codes of a, b and a xor b add up to the code of the all-zero message |
| Eia3.OneBitChange | native/crypto-native/src/eia3_128.cpp:57-61 | flipping message bit k changes the sum by exactly the window at k |
| Eia3Standard.CountIsStandard | native/crypto-native/src/eia3_128.cpp:50-52 | the number of words is the one L with 32 (L - 2) >= LENGTH > 32 (L - 3) |
| Eia3Standard.IvIsStandard | native/crypto-native/src/eia3_128.cpp:33-48 | the sixteen octets are COUNT, five bits of BEARER and zeros, and the same again with DIRECTION added to bits 0 and 48 (section 4.2 of TS 35.221) |
| Eia3Standard.MacIsStandard | native/crypto-native/src/eia3_128.cpp:56-68 | bit j of the code is set if an odd number of set message bits i meets a set key stream bit i + j, counted with key stream bits LENGTH + j and 32 (L - 1) + j |
| Eia3Standard.Eia3IsStandard | native/crypto-native/src/eia3_128.cpp:28-68 | so it is under the key stream of the standard from the initial value of the standard |
| TwosComplement.StrippedKeepsValue | native/ngap-native/src/asn_generated/INTEGER.c:77-108 | removing superfluous leading octets keeps the value, is idempotent and ends in a minimal string (section 8.3.2 of X.690) |
| TwosComplement.MinimalIsShortest | native/ngap-native/src/asn_generated/INTEGER.c:77-108 | the minimal string of a value is its one shortest string |
| TwosComplement.MinimalFits | native/ngap-native/src/asn_generated/INTEGER.c:1139-1164 | a minimal string has at most n octets if and only if its value has 8 n - 1 bits and sign |
| TwosComplement.CompareIsKeyOrder | native/ngap-native/src/asn_generated/INTEGER.c:1607-1622 | on minimal strings the comparison is that of one integer key |
| TwosComplement.CompareIsTotalOrder | native/ngap-native/src/asn_generated/INTEGER.c:1607-1622 | it is 0 exactly on equal values, antisymmetric and transitive |
| TwosComplement.CompareIsNumericUnless | native/ngap-native/src/asn_generated/INTEGER.c:1607-1622 | it is the numeric order if and only if the operands are not two different negatives of one length; on those it is the reverse |
| TwosComplement.NegativesAreReversed | native/ngap-native/src/asn_generated/INTEGER.c:1607-1622 | -2 compares above -1 |
| TwosComplement.SignedIsTwosComplement | native/ngap-native/src/asn_generated/INTEGER.c:1105-1123 | the value of a string is the binary number of its bits, the first of which counts negative |
| Integer.INTEGER.CanonicalContents | native/ngap-native/src/asn_generated/INTEGER.c:77-115 | the pointer loop hands on the stripped string |
| Integer.INTEGER.Convert | native/ngap-native/src/asn_generated/INTEGER.c:1105-1123 | shifting octets into a sign-initialised 64-bit word gives the value of any string of one to eight octets |
| Integer.INTEGER.ToImax | native/ngap-native/src/asn_generated/INTEGER.c:1125-1174 | succeeds exactly when the value of the whole buffer fits 64 bits with sign, and then returns it; an absent buffer is invalid, an empty one is 0 |
| Integer.INTEGER.ToUmax | native/ngap-native/src/asn_generated/INTEGER.c:1177-1207 | succeeds exactly when the octets read without sign are below 2^64, and then returns that number |
| Integer.INTEGER.FromImax | native/ngap-native/src/asn_generated/INTEGER.c:1235-1288 | stores the minimal string of the value |
| Integer.INTEGER.FromUmax | native/ngap-native/src/asn_generated/INTEGER.c:1209-1233 | stores a minimal string that reads back as the value both with and without sign |
| Decimal.Strtoumax | native/ngap-native/src/asn_generated/INTEGER.c:1485-1537 | the loop with its 64-bit boundary tests computes the reading over unbounded integers |
| Decimal.Strtoimax | native/ngap-native/src/asn_generated/INTEGER.c:1417-1477 | the same for signed numbers, with the sign flip at the last digit; a step that would overflow reads as undefined |
| Decimal.ScanIsExact | native/ngap-native/src/asn_generated/INTEGER.c:1453-1473 | a scan reports a range error exactly when the value of the whole digit run exceeds the maximum, at the first digit that does; otherwise it returns value and end of the run |
| Decimal.UnsignedIsExact | native/ngap-native/src/asn_generated/INTEGER.c:1485-1537 | on every digit run, with or without a plus sign: range error if and only if the value exceeds 2^64 - 1, and otherwise the value and the end |
| Decimal.NoDigits | native/ngap-native/src/asn_generated/INTEGER.c:1417-1498 | empty texts, a minus sign in the unsigned reader, and a sign alone have their own results |
| Decimal.StopsAtOther | native/ngap-native/src/asn_generated/INTEGER.c:1453-1473 | at another character the number so far and its end are returned, or a range error |
| Decimal.SignedIsExact | native/ngap-native/src/asn_generated/INTEGER.c:1417-1477 | the same with 2^63 - 1; after a minus sign the reading is undefined if and only if another digit follows a prefix of -2^63 to -2^63 + 8, and otherwise exact down to -2^63 |
| Decimal.NegativeIsExact | native/ngap-native/src/asn_generated/INTEGER.c:1441-1473 | the same from any point of a negative run |
| Decimal.NineteenDigitsAreSafe | native/ngap-native/src/asn_generated/INTEGER.c:1417-1477 | no run of at most 19 digits continues such a prefix |
| Decimal.OneDigitMoreOverflows | native/ngap-native/src/asn_generated/INTEGER.c:1441-1473 | the decimal text of -n overflows whenever n / 10 is 2^63 - 8 to 2^63 |
| Decimal.TwentyDigitsMayOverflow | native/ngap-native/src/asn_generated/INTEGER.c:1417-1477 | -92233720368547758080 is such a number |
| EnumMap.NameCompareIsOrder | native/ngap-native/src/asn_generated/INTEGER.c:230-247 | the octet loop is the lexicographic order of the key, cut at an embedded NUL, and the name |
| EnumMap.Bsearch | native/ngap-native/src/asn_generated/INTEGER.c:272-274 | bisection under a monotone comparator returns a matching index if and only if there is one |
| EnumMap.MapEnum2Value | native/ngap-native/src/asn_generated/INTEGER.c:249-281 | the doubly remapped search returns the entry with the delimited tag name, and nothing if no entry has it |
| EnumMap.MapValue2Enum | native/ngap-native/src/asn_generated/INTEGER.c:288-305 | the search by value returns the entry with that value, and nothing if no entry has it |
| EnumMap.NamesAreDistinct | native/ngap-native/src/asn_generated/INTEGER.c:224-247 | a permutation that sorts the names strictly makes them distinct |
| EnumMap.TagOfEntryFindsEntry | native/ngap-native/src/asn_generated/INTEGER.c:149-159 | looking up the tag printed for an entry finds that entry, on every well-formed table |
| EnumMap.TagIsFound | native/ngap-native/src/asn_generated/INTEGER.c:249-281 | one character, the name of an entry, and anything after white space, a slash or a closing bracket finds that entry |
| EnumMap.TagOnly | native/ngap-native/src/asn_generated/INTEGER.c:249-281 | and only such text finds one, except that a name is cut at an embedded NUL |
| Xer.Dump | native/ngap-native/src/asn_generated/INTEGER.c:131-203 | the chunks concatenate to the tag, the decimal or the hexadecimal text of the buffer, in the plain mode a number followed by its name, and the count is their total length; -1 and no chunk where only enumerated values may be printed |
| Xer.DumpHex | native/ngap-native/src/asn_generated/INTEGER.c:181-202 | whatever the flush points, the chunks concatenate to the colon-joined hexadecimal of all octets, and every write stays in the scratch buffer |
| Xer.XerBodyDecode | native/ngap-native/src/asn_generated/INTEGER.c:324-558 | the state machine with its jump back terminates, stays inside the chunk_size/3 + 2 octets allocated, and returns exactly what the grammar `MeaningOf` says of the chunk |
| Xer.ScanBody | native/ngap-native/src/asn_generated/INTEGER.c:356-534 | the loop over the chunk, started again where it jumps back, ends with state and octets that determine the meaning, or the chunk has none |
| Xer.MoveKeepsProgress | native/ngap-native/src/asn_generated/INTEGER.c:362-534 | every transition keeps the relation between the state and the meaning of the whole chunk |
| Xer.RescanIsHex | native/ngap-native/src/asn_generated/INTEGER.c:456-474 | a jump back to the start happens only in the first pass, with nothing written yet, and only when the text as a whole is hexadecimal |
| Xer.RoomForOctet | native/ngap-native/src/asn_generated/INTEGER.c:362-363 | at each octet written there is room for it and for the terminator |
| Xer.HexRoundTrip | native/ngap-native/src/asn_generated/INTEGER.c:183-202 | the hexadecimal text of two octets or more is read back as those octets |
| Xer.DecimalRoundTrip | native/ngap-native/src/asn_generated/INTEGER.c:540-558 | decimal text is read back as its number, if that is at most 2^63 - 1 |
| Xer.HexIsRead | native/ngap-native/src/asn_generated/INTEGER.c:362-534 | octets in hexadecimal, in letters of either case, joined by colons, with space around, are read as those octets if there are two or a letter shows |
| Xer.HexOnly | native/ngap-native/src/asn_generated/INTEGER.c:362-534 | and nothing else is read as octets |
| Xer.DecimalIsRead | native/ngap-native/src/asn_generated/INTEGER.c:362-558 | digits with at most a sign and space around are read as their number, as too large, or overflow, with the exact condition for each |
| Xer.NumOnly | native/ngap-native/src/asn_generated/INTEGER.c:362-558 | apart from tags nothing else is read as a number |
| Xer.NothingInSpace | native/ngap-native/src/asn_generated/INTEGER.c:539-541 | nothing is found exactly in chunks of space |
| Xer.HexIsUpperCase | native/ngap-native/src/asn_generated/INTEGER.c:181-202 | the printed hexadecimal stands for its octets and has no lower-case letter |
| Xer.EntryIsPrinted | native/ngap-native/src/asn_generated/INTEGER.c:146-164 | the value of an entry is printed as a tag, or as number and name in brackets |
| Xer.OtherIsPrinted | native/ngap-native/src/asn_generated/INTEGER.c:146-203 | any other number is not printed in XER for a strict type, and otherwise as a decimal of up to 64 bits or as octets |
| Xer.XerRoundTrip | native/ngap-native/src/asn_generated/INTEGER.c:131-558 | for every buffer the printer prints: beyond 64 bits the reader restores the same octets, otherwise the same number, except that unsigned numbers from 2^63 up are refused as too large |
| Xer.LargeUnsignedIsRefused | native/ngap-native/src/asn_generated/INTEGER.c:131-558 | 2^63 in an unsigned type is printed as its decimal text, which means too large |
| Packing.MergedInPlace | native/ngap-native/src/asn_generated/asn_bit_data.c:230-264 | octets stored by masking the first and shifting the rest out of a word put the word's bits after the bits already there, at every offset, and leave the others |
| Packing.ShiftedOut | native/ngap-native/src/asn_generated/asn_bit_data.c:105-130 | one to four octets joined, shifted right and masked are the wanted bits, at every offset |
| BitStream.BitOut.PutFewBits | native/ngap-native/src/asn_generated/asn_bit_data.c:192-277 | for n up to 31 appends the low n bits of a word to the octets at hand and handed over, through flushes of the 32-octet scratch and the split of wide writes; fails for other widths |
| BitStream.BitOut.AlignedFlush | native/ngap-native/src/asn_generated/asn_bit_data.c:313-334 | hands over everything, the last octet filled with zeros |
| BitStream.BitIn.GetFewBits | native/ngap-native/src/asn_generated/asn_bit_data.c:63-142 | from the octets under the cursor, with the split of wide reads: the next n bits as a number, or -1 and no move |
| BitStream.BitOut.PutManyBits | native/ngap-native/src/asn_generated/asn_bit_data.c:284-310 | the loop, 24 bits at a time and a shifted remainder, appends exactly the first n bits of the bytes |
| BitStream.BitIn.GetManyBits | native/ngap-native/src/asn_generated/asn_bit_data.c:147-187 | the loop reads the next n bits into bytes, aligned to the left or, if asked, to the right, or fails if they are not there |
| BitStream.RightIsPadded | native/ngap-native/src/asn_generated/asn_bit_data.c:151-157 | the byte in front of bits aligned to the right is zeros and then the bits |
| BitStream.BitsOfBytes | native/ngap-native/src/asn_generated/asn_bit_data.c:148-187 | the bytes returned, aligned to the left, hold the bits read, the last byte padded with zeros |
| PerLength.PrefixRoundTrip | native/ngap-native/src/asn_generated/per_support.c:13-47 | a length determinant, in front of anything, is read back as the count written and whether more pieces follow |
| PerLength.ReadsTheForms | native/ngap-native/src/asn_generated/per_support.c:13-47 | the reader takes exactly three forms: a zero and seven bits, one, zero and fourteen bits, and two ones and six bits that say 1 to 4 |
| PerLength.PrefixIsShortest | native/ngap-native/src/asn_generated/per_support.c:167-192 | below 16384 no determinant of the same count is shorter than the one written |
| PerLength.PrefixAnnouncesMost | native/ngap-native/src/asn_generated/per_support.c:167-192 | from 16384 on no determinant announces more, within the count, than the one written |
| PerLength.UperPutLength | native/ngap-native/src/asn_generated/per_support.c:167-192 | one octet, two octets or a fragment count, and whether a final empty piece is due |
| PerLength.AperPutLength | native/ngap-native/src/asn_generated/per_support.c:400-425 | padding and the same determinant, with nothing said of a final piece |
| PerLength.GetDeterminant | native/ngap-native/src/asn_generated/per_support.c:29-47 | reads exactly such a determinant, or fails |
| PerLength.AperGetLength | native/ngap-native/src/asn_generated/per_support.c:297-334 | skips to the next octet and reads a determinant, or fails |
| Aper.EncodeAper | native/ngap-native/src/asn_generated/INTEGER.c:959-1103 | succeeds exactly on `Encodable` buffers: numbers that fit 64 bits and lie in range or in the extension, and in the general form any octets under lower bound 0; appends extension bit and offset, or extension bit and length-prefixed octets |
| Aper.PutOffset | native/ngap-native/src/asn_generated/INTEGER.c:1023-1083 | the four forms by range: bare bits, one aligned octet, two aligned octets, or octet count and aligned octets |
| Aper.PutGeneral | native/ngap-native/src/asn_generated/INTEGER.c:1091-1100 | the loop writes the octets in aligned, length-prefixed pieces |
| Aper.HighestOctet | native/ngap-native/src/asn_generated/INTEGER.c:1063-1068 | the loop over signed shifts finds the highest octet that is not zero, also with the sign bit set |
| Aper.SignedShift | native/ngap-native/src/asn_generated/INTEGER.c:1063-1079 | an arithmetic shift by whole octets vanishes when the logical one does, and has the same low octet |
| Aper.LengthFits | native/ngap-native/src/asn_generated/INTEGER.c:1050-1072 | for a range of 17 to 64 bits the octet count less one always fits the length field, whose width both sides compute |
| Aper.LengthBitsIsLeast | native/ngap-native/src/asn_generated/INTEGER.c:1050-1058 | that width is the least that holds every count |
| Aper.DecodeAper | native/ngap-native/src/asn_generated/INTEGER.c:808-957 | succeeds exactly when `DecodeSpec` reads the bits, in either form, and stores the minimal string of the number or the octets read, stopping after them |
| Aper.GetOctetPieces | native/ngap-native/src/asn_generated/INTEGER.c:923-943 | the loop collects the octets of all pieces into the growing buffer, or fails where they end |
| Aper.OffsetRoundTrip | native/ngap-native/src/asn_generated/INTEGER.c:850-916 | from the same alignment, reading back a written offset gives it and consumes exactly its bits, for every offset of no more bits than the form holds, which may be more than range_bits |
| Aper.OffsetIsRead | native/ngap-native/src/asn_generated/INTEGER.c:850-916 | whoever wrote it, the decoder takes exactly bare bits, bits after any padding, or a count of octets, zero padding and that many octets |
| Aper.DecodedIsSum | native/ngap-native/src/asn_generated/INTEGER.c:875-916 | the number decoded is the offset plus the lower bound, on 64 bits with or without sign |
| Aper.ExtensionBit | native/ngap-native/src/asn_generated/INTEGER.c:984-1020 | the extension bit is set exactly for numbers outside the two bounds as the type reads them |
| Aper.EncodableIff | native/ngap-native/src/asn_generated/INTEGER.c:967-1089 | what the encoder accepts, for types with two bounds, with one, and without |
| Aper.ShortGeneralForm | native/ngap-native/src/asn_generated/INTEGER.c:1091-1100 | fewer than 16384 octets are one aligned, length-prefixed piece |
| Aper.GeneralAddsBound | native/ngap-native/src/asn_generated/INTEGER.c:923-954 | the general form of a type without flags gives its octets, or their value plus the lower bound on 64 bits |
| Aper.FormIsStandardUnless | native/ngap-native/src/asn_generated/INTEGER.c:1023-1083 | for every range of up to 2^64 values and every offset in it, the code writes the form of section 11.5.7 of X.691, stated apart from it, if and only if the range does not have 129 to 255 values or the position is aligned |
| Aper.AlignedBitField | native/ngap-native/src/asn_generated/INTEGER.c:1033-1040 | an offset in a range of 181 values behind one bit takes eight bits by the standard and fifteen by the code |
| Aper.ConstrainedRoundTrip | native/ngap-native/src/asn_generated/INTEGER.c:808-1083 | for every number of a flagged type in range whose offset the form holds, range_bits up to 64, decoding consumes exactly the bits written, and returns the number if and only if it is not an unsigned one above 2^63 - 1 with a range of at most 16 bits |
| Aper.RangeFits | native/ngap-native/src/asn_generated/INTEGER.c:1023-1083 | the form holds the offset of every number of a range of up to 2^range_bits values |
| Aper.UnflaggedIsNotRead | native/ngap-native/src/asn_generated/INTEGER.c:851-943 | 5 of 0..255 with 8 range bits and no flag is written as an octet and read as a length |
| Aper.LargeComesBackNegative | native/ngap-native/src/asn_generated/INTEGER.c:808-1083 | 2^63 + 1 in a range of 8 bits comes back as -2^63 + 1 |
| Aper.GeneralRoundTrip | native/ngap-native/src/asn_generated/INTEGER.c:923-1100 | octets in the general form are read back, and nothing more, if and only if their number is not a multiple of 16384: whole fragments lack the final piece the reader waits for |
| Aper.WholeFragmentIsLost | native/ngap-native/src/asn_generated/INTEGER.c:923-1100 | 16384 octets on their own are not read back |
| Aper.GeneralFormIsRead | native/ngap-native/src/asn_generated/INTEGER.c:808-1100 | where the encoder writes the general form of a constrained type, the decoder takes it for one if and only if the extension bit is set, or the type is not extensible and has no flag; else it refuses the bits |
| Aper.SemiConstrainedIsNotRead | native/ngap-native/src/asn_generated/INTEGER.c:851-919 | 5 with lower bound 0 and no upper bound is written and refused |
| Aper.AperRoundTrip | native/ngap-native/src/asn_generated/INTEGER.c:808-1103 | for every encodable buffer, in either form and at every alignment: number or octets come back and exactly the bits written are consumed, if and only if `Returns`, which depends on type, number and length alone; types with range bits have a flag or lower bound 0 |
| Aper.RangeIsEncodable | native/ngap-native/src/asn_generated/INTEGER.c:984-1020 | all numbers of a range l..u, bounds stored in 64 bits, are encodable if and only if the type is read without sign or u is at most 2^63 - 1 |
| Aper.WideRangeIsRefused | native/ngap-native/src/asn_generated/INTEGER.c:984-1020 | 0..2^64 - 1 read with a sign is refused for every buffer |
| Aper.StaysSignedIff | native/ngap-native/src/asn_generated/INTEGER.c:881-1031 | for a number in range no subtraction, shift or addition on signed words overflows if and only if its offset is at most 2^63 - 1 and, for an unsigned number above 2^63 - 1, the stored lower bound is negative |
| Aper.TopBitOverflows | native/ngap-native/src/asn_generated/INTEGER.c:881-1031 | 2^63 in the unsigned range of 64 bits is not such a number |
| BitOrder.TrimmedLengthIsUnique | native/ngap-native/src/asn_generated/BIT_STRING.c:215-255 | only one length ends right after the last set bit |
| BitOrder.SameIffTrimmed | native/ngap-native/src/asn_generated/BIT_STRING.c:257-305 | two strings agree up to trailing zeros if and only if they are equal once trimmed (section 22.7 of X.680) |
| BitOrder.OrderIsTotal | native/ngap-native/src/asn_generated/BIT_STRING.c:257-305 | of two strings exactly one comes first, or they are the same |
| BitOrder.OrderIsTransitive | native/ngap-native/src/asn_generated/BIT_STRING.c:257-305 | the order is transitive, strictly if either step is strict |
| BitString.BIT_STRING.Compactify | native/ngap-native/src/asn_generated/BIT_STRING.c:219-255 | the backward scan and bit count cut the buffer exactly after its last set bit |
| BitString.AndNegation | native/ngap-native/src/asn_generated/BIT_STRING.c:236-239 | v & -v is the lowest set bit of v |
| BitString.UnusedBits | native/ngap-native/src/asn_generated/BIT_STRING.c:236-241 | the three mask tests count the zero bits below the lowest set bit |
| BitString.Compare | native/ngap-native/src/asn_generated/BIT_STRING.c:261-305 | negative, zero or positive exactly as the first buffer's bits, continued by zeros, come before, equal or come after the second's lexicographically |
| Uper.EncodeUper | native/ngap-native/src/asn_generated/BIT_STRING.c:425-529 | fails exactly for an unsound string, a size above a fixed upper bound, or a length field above 31 bits; otherwise appends the encoding of the trimmed bits |
| Uper.PutTrailer | native/ngap-native/src/asn_generated/BIT_STRING.c:506-518 | the chunks of sixteen zero octets add up to the bits missing to the lower bound |
| Uper.PutPieces | native/ngap-native/src/asn_generated/BIT_STRING.c:524-543 | the fragment loop writes the general form of section 11.9.3 of X.691 |
| Uper.GetLength | native/ngap-native/src/asn_generated/per_support.c:13-47 | reads the constrained length, or a determinant, or fails |
| Uper.DecodeUper | native/ngap-native/src/asn_generated/BIT_STRING.c:321-423 | succeeds exactly when the bits are there; stores them padded to octets, stops after them, and leaves the count of unused bits `UnusedAfter` |
| Uper.CountIsRight | native/ngap-native/src/asn_generated/BIT_STRING.c:366-420 | octets and that count give the length read if and only if the length is not a multiple of 8, or the count was 0 before, or the size is fixed |
| Uper.StaleCount | native/ngap-native/src/asn_generated/BIT_STRING.c:366-420 | one octet decoded over a string with three unused bits counts as five bits |
| Uper.GeneralRoundTrip | native/ngap-native/src/asn_generated/BIT_STRING.c:378-422 | a string of any length in the general form, fragments included, is read back whole |
| Uper.SizeIsStandard | native/ngap-native/src/asn_generated/BIT_STRING.c:467-529 | with as many bits as the bounds ask for: sizes in the root stand in that many bits behind a clear extension bit, shorter strings are filled up first, longer ones go behind a set extension bit in the general form |
| Uper.UnboundedIsGeneral | native/ngap-native/src/asn_generated/BIT_STRING.c:467-543 | without an upper bound every size goes in the general form |
| Uper.SizeIsRead | native/ngap-native/src/asn_generated/BIT_STRING.c:366-423 | whoever wrote it, the decoder takes exactly a size of up to 16 bits and that many bits, or the bits of the one possible size |
| Uper.UperRoundTrip | native/ngap-native/src/asn_generated/BIT_STRING.c:321-529 | for every encodable string whose size is `Legible`, in the general form or in a field of up to 16 bits that holds it: decoding consumes exactly the bits written and gives the trimmed length, or the lower bound if that is more and the size is in the root; the bits equal the input up to trailing zeros if and only if its padding bits are zero |
| Uper.UperReturnsIfLegible | native/ngap-native/src/asn_generated/BIT_STRING.c:321-529 | for every constraint and every encodable string, decoding stops after the bits written with a string of the length written if and only if the size is `Legible` |
| Uper.BoundsFit | native/ngap-native/src/asn_generated/BIT_STRING.c:321-529 | a field as wide as the bounds ask for holds every size in the root |
| Uper.WideLengthsNeverReturn | native/ngap-native/src/asn_generated/BIT_STRING.c:321-529 | with a length field of 17 to 31 bits decoding never both stops after the bits written and returns a string of the length written |
| Uper.WideLengthIsLost | native/ngap-native/src/asn_generated/BIT_STRING.c:321-529 | under a field of 17 bits the string 1 comes back empty |
| Uper.SizeMeetsLowerBound | native/ngap-native/src/asn_generated/BIT_STRING.c:467-529 | the decoded size meets the lower bound if and only if the size is in the root or meets it already: the general form adds no zeros |
| Uper.EmptyUnderLowerBound | native/ngap-native/src/asn_generated/BIT_STRING.c:467-529 | with sizes 1 to 131072 and no length field a string without ones comes back with no bits |
| BlockingQueue.StepKeepsInv | native/app-native/src/blocking_queue.hpp:19-34 | every atomic step keeps order and wakeup invariant |
| BlockingQueue.QueueIsCorrect | native/app-native/src/blocking_queue.hpp:19-34 | in every interleaving, spurious wakeups included, what was popped followed by what is queued is what was pushed, and while a consumer sleeps no more elements are queued than notifications and awake consumers are outstanding |
| BlockingQueue.NobodyIsLost | native/app-native/src/blocking_queue.hpp:19-34 | in every interleaving each consumer that entered is awake, asleep or gone with one element, and each push is notified or has its notification outstanding |
| BlockingQueue.ThreadsComeToRest | native/app-native/src/blocking_queue.hpp:19-34 | threads already inside come to rest after a bounded number of their own steps, and then no consumer sleeps next to a queued element |
| BlockingQueue.StuckIsQuiescent | native/app-native/src/blocking_queue.hpp:19-34 | no thread inside can step if and only if none is notifying and none awake |
| BlockingQueue.Queue.PushFront | native/app-native/src/blocking_queue.hpp:19-24 | the locked block of push performs its step on the whole state |
| BlockingQueue.Queue.NotifyOne | native/app-native/src/blocking_queue.hpp:25 | so does the notification |
| BlockingQueue.Queue.TryPopBack | native/app-native/src/blocking_queue.hpp:27-34 | so does one look under the lock, which removes the oldest element if there is one |
| Checksum.ByteOrderIndependent | native/app-native/src/ip_checksum.cpp:53-56 | the complement of the folded little-endian sum, stored low byte first, and that of the big-endian sum, stored high byte first, are the same two bytes (section 2 of RFC 1071) |
| Checksum.IpChecksumAdd | native/app-native/src/ip_checksum.cpp:7-23 | adds the little-endian words modulo 2^32, an odd last byte included |
| Checksum.IpChecksumFold | native/app-native/src/ip_checksum.cpp:25-32 | the loop returns the one's complement sum |
| Checksum.IpChecksumAssign | native/app-native/src/ip_checksum.cpp:46-57 | only bytes 10 and 11 change, to the complement of the header's sum with a zero field |
| Checksum.IpHeaderVerifies | native/app-native/src/ip_checksum.cpp:46-57 | after assignment the header sums to all ones, in either byte order, if and only if hl >= 3 or it did before |
| Checksum.TwoStepFold | native/app-native/src/icmp_checksum.cpp:26-30 | two additions of the high half fold every 32-bit sum as the loop does |
| Checksum.IcmpChecksumAssign | native/app-native/src/icmp_checksum.cpp:34-46 | only bytes 2 and 3 change, to the complement of the message's sum with a zero field |
| Checksum.IcmpMessageVerifies | native/app-native/src/icmp_checksum.cpp:9-46 | after assignment an even-sized message sums to all ones if and only if the carries lost from the 32-bit sum are a multiple of 65535, which holds up to 131076 bytes |
| Checksum.LongMessageFails | native/app-native/src/icmp_checksum.cpp:9-46 | 131078 bytes of 0xff do not |
| Checksum.NetChecksumAdd | native/app-native/src/tcp_checksum.cpp:12-25 | adds the big-endian words modulo 2^32 |
| Checksum.NetChecksumTcpUdp | native/app-native/src/tcp_checksum.cpp:34-43 | the complement of the sum over segment, addresses, protocol and length; no 32-bit sum wraps |
| Checksum.TcpUdpChecksumAssign | native/app-native/src/tcp_checksum.cpp:45-78 | writes nothing outside the checksum field, and nothing at all unless the packet is IPv4, TCP or UDP and long enough |
| Checksum.ConfinedIff | native/app-native/src/tcp_checksum.cpp:45-78 | what follows the first `length` bytes stays as it is and has no influence on them, if and only if nothing is written or the total length of the header is at most `length`: the code never compares the two |
| Checksum.SegmentVerifies | native/app-native/src/tcp_checksum.cpp:45-78 | after assignment segment and pseudo-header sum to all ones if and only if the field is not one of the address words, as in headers of 0, 8 or 12 bytes, or the zero field was right; always for hl >= 5, odd lengths included |
| Checksum.ZeroIsStored | native/app-native/src/tcp_checksum.cpp:45-78 | both bytes of the field are 0 if and only if segment and pseudo-header sum to all ones with a zero field |
| Checksum.ZeroChecksumExists | native/app-native/src/tcp_checksum.cpp:45-78 | an empty UDP datagram whose addresses add up to 0xffe6 is such a packet |
| Checksum.SumIsValue | native/app-native/src/tcp_checksum.cpp:12-25 | the sum of the 16-bit words and the bytes read as one number leave the same remainder modulo 65535 |
| Checksum.IpHeaderIsMultiple | native/app-native/src/ip_checksum.cpp:46-57 | bytes 10 and 11 alone change, and make the header, read as one number, a multiple of 65535; they are never both 255 |
| Checksum.IcmpMessageIsMultiple | native/app-native/src/icmp_checksum.cpp:34-46 | so do bytes 2 and 3 of a message of up to 131076 bytes |
| Checksum.SegmentIsMultiple | native/app-native/src/tcp_checksum.cpp:45-78 | so do bytes 16 and 17 of a TCP segment and 6 and 7 of a UDP one, behind the pseudo-header of RFC 793 and RFC 768, for headers of 20 bytes and more |
| Checksum.OthersAreLeftAlone | native/app-native/src/tcp_checksum.cpp:45-78 | packets that are not IPv4, not TCP or UDP, or too short are not changed |

## Left out

- Uea2.F9: length 0, where the unsigned D - 2 wraps and the loop leaves the message, and more than 2^35 bits, where the byte offsets wrap.
- Uea2.Authenticate: the same lengths.
- Uea2.LastBlock: the same lengths.
- Eia3.EIA3: lengths with length + 95 >= 2^32, where the word count wraps and the reads leave the key stream.
- Snow3g.Generator.Initialize: key and initial value are sequences, and the static variables fields of one object; threads are not modelled.
- TwosComplement.Compare: an empty or absent operand; on an empty first operand the code reads a byte that is not there.
- Aper.EncodeAper: range_bits above 64, and an output stream that fails; signed overflow is taken to wrap, where `Aper.StaysSignedIff` says exactly when there is any.
- Aper.DecodeAper: range_bits above 64; the scratch allocation before the value is known.
- Aper.AperRoundTrip: types with range bits and a lower bound other than 0 but no flag, which the code generator never makes; with lower bound 0 they are included.
- Uper.EncodeUper: strings of 2^31 bits and more, whose count does not fit the `int` parameter of the stream.
- BitString.Compare: absent operands, which the code dereferences before it tests them.
- BitStream.BitOut.PutFewBits: an output callback that fails.
- BitStream.BitOut.AlignedFlush: the same.
- BitStream.BitIn.GetFewBits: refilling the input and the undo of reads; the octets are there from the start.
- Xer.Dump: failing consumers; `printf` is taken to print shortest decimals.
- EnumMap.MapEnum2Value: `bsearch` of the C library is written out as bisection over a table that is sorted as the generator promises.
- Decimal.Strtoimax: after a signed overflow the result is called undefined and nothing more is said.
- Checksum.TcpUdpChecksumAssign: a total length beyond the end of the buffer, which the code never checks, so that it leaves the buffer; `Checksum.ConfinedIff` says when it stays inside; the `assert` that stops a debug build on a packet that is not IPv4; unaligned 16-bit reads.
- BlockingQueue.Step: real time and fairness; the lock is the atomicity of the steps.
- `UEA2::f8` and 128-EEA3: an exclusive or with a key stream, which would only add easy members.
- The unaligned PER of INTEGER, `ANY.c`, and the generated descriptors and tables.
- JNI, sockets, netlink and interface code.
- Allocation failure, debug output and random filling.
