/** The 32-bit S-boxes of SNOW 3G (sections 3.3.1 and 3.3.2 of TS 35.216): four table look-ups
    and a linear mixing of the four bytes. */
module SnowBoxes {
  import opened Words
  import opened Gf2Ring
  import opened ByteField

  // ----- the tables and their inverses

  /** The table `SR`. */
  function SR(i: int): int {
    var j := i % 16;
    match i / 16
    case 0 => Pick(j, 0x63, 0x7c, 0x77, 0x7b, 0xf2, 0x6b, 0x6f, 0xc5, 0x30, 0x01, 0x67, 0x2b, 0xfe, 0xd7, 0xab, 0x76)
    case 1 => Pick(j, 0xca, 0x82, 0xc9, 0x7d, 0xfa, 0x59, 0x47, 0xf0, 0xad, 0xd4, 0xa2, 0xaf, 0x9c, 0xa4, 0x72, 0xc0)
    case 2 => Pick(j, 0xb7, 0xfd, 0x93, 0x26, 0x36, 0x3f, 0xf7, 0xcc, 0x34, 0xa5, 0xe5, 0xf1, 0x71, 0xd8, 0x31, 0x15)
    case 3 => Pick(j, 0x04, 0xc7, 0x23, 0xc3, 0x18, 0x96, 0x05, 0x9a, 0x07, 0x12, 0x80, 0xe2, 0xeb, 0x27, 0xb2, 0x75)
    case 4 => Pick(j, 0x09, 0x83, 0x2c, 0x1a, 0x1b, 0x6e, 0x5a, 0xa0, 0x52, 0x3b, 0xd6, 0xb3, 0x29, 0xe3, 0x2f, 0x84)
    case 5 => Pick(j, 0x53, 0xd1, 0x00, 0xed, 0x20, 0xfc, 0xb1, 0x5b, 0x6a, 0xcb, 0xbe, 0x39, 0x4a, 0x4c, 0x58, 0xcf)
    case 6 => Pick(j, 0xd0, 0xef, 0xaa, 0xfb, 0x43, 0x4d, 0x33, 0x85, 0x45, 0xf9, 0x02, 0x7f, 0x50, 0x3c, 0x9f, 0xa8)
    case 7 => Pick(j, 0x51, 0xa3, 0x40, 0x8f, 0x92, 0x9d, 0x38, 0xf5, 0xbc, 0xb6, 0xda, 0x21, 0x10, 0xff, 0xf3, 0xd2)
    case 8 => Pick(j, 0xcd, 0x0c, 0x13, 0xec, 0x5f, 0x97, 0x44, 0x17, 0xc4, 0xa7, 0x7e, 0x3d, 0x64, 0x5d, 0x19, 0x73)
    case 9 => Pick(j, 0x60, 0x81, 0x4f, 0xdc, 0x22, 0x2a, 0x90, 0x88, 0x46, 0xee, 0xb8, 0x14, 0xde, 0x5e, 0x0b, 0xdb)
    case 10 => Pick(j, 0xe0, 0x32, 0x3a, 0x0a, 0x49, 0x06, 0x24, 0x5c, 0xc2, 0xd3, 0xac, 0x62, 0x91, 0x95, 0xe4, 0x79)
    case 11 => Pick(j, 0xe7, 0xc8, 0x37, 0x6d, 0x8d, 0xd5, 0x4e, 0xa9, 0x6c, 0x56, 0xf4, 0xea, 0x65, 0x7a, 0xae, 0x08)
    case 12 => Pick(j, 0xba, 0x78, 0x25, 0x2e, 0x1c, 0xa6, 0xb4, 0xc6, 0xe8, 0xdd, 0x74, 0x1f, 0x4b, 0xbd, 0x8b, 0x8a)
    case 13 => Pick(j, 0x70, 0x3e, 0xb5, 0x66, 0x48, 0x03, 0xf6, 0x0e, 0x61, 0x35, 0x57, 0xb9, 0x86, 0xc1, 0x1d, 0x9e)
    case 14 => Pick(j, 0xe1, 0xf8, 0x98, 0x11, 0x69, 0xd9, 0x8e, 0x94, 0x9b, 0x1e, 0x87, 0xe9, 0xce, 0x55, 0x28, 0xdf)
    case _ => Pick(j, 0x8c, 0xa1, 0x89, 0x0d, 0xbf, 0xe6, 0x42, 0x68, 0x41, 0x99, 0x2d, 0x0f, 0xb0, 0x54, 0xbb, 0x16)
  }

  /** The table that undoes `SR`. */
  function SRInverse(i: int): int {
    var j := i % 16;
    match i / 16
    case 0 => Pick(j, 0x52, 0x09, 0x6a, 0xd5, 0x30, 0x36, 0xa5, 0x38, 0xbf, 0x40, 0xa3, 0x9e, 0x81, 0xf3, 0xd7, 0xfb)
    case 1 => Pick(j, 0x7c, 0xe3, 0x39, 0x82, 0x9b, 0x2f, 0xff, 0x87, 0x34, 0x8e, 0x43, 0x44, 0xc4, 0xde, 0xe9, 0xcb)
    case 2 => Pick(j, 0x54, 0x7b, 0x94, 0x32, 0xa6, 0xc2, 0x23, 0x3d, 0xee, 0x4c, 0x95, 0x0b, 0x42, 0xfa, 0xc3, 0x4e)
    case 3 => Pick(j, 0x08, 0x2e, 0xa1, 0x66, 0x28, 0xd9, 0x24, 0xb2, 0x76, 0x5b, 0xa2, 0x49, 0x6d, 0x8b, 0xd1, 0x25)
    case 4 => Pick(j, 0x72, 0xf8, 0xf6, 0x64, 0x86, 0x68, 0x98, 0x16, 0xd4, 0xa4, 0x5c, 0xcc, 0x5d, 0x65, 0xb6, 0x92)
    case 5 => Pick(j, 0x6c, 0x70, 0x48, 0x50, 0xfd, 0xed, 0xb9, 0xda, 0x5e, 0x15, 0x46, 0x57, 0xa7, 0x8d, 0x9d, 0x84)
    case 6 => Pick(j, 0x90, 0xd8, 0xab, 0x00, 0x8c, 0xbc, 0xd3, 0x0a, 0xf7, 0xe4, 0x58, 0x05, 0xb8, 0xb3, 0x45, 0x06)
    case 7 => Pick(j, 0xd0, 0x2c, 0x1e, 0x8f, 0xca, 0x3f, 0x0f, 0x02, 0xc1, 0xaf, 0xbd, 0x03, 0x01, 0x13, 0x8a, 0x6b)
    case 8 => Pick(j, 0x3a, 0x91, 0x11, 0x41, 0x4f, 0x67, 0xdc, 0xea, 0x97, 0xf2, 0xcf, 0xce, 0xf0, 0xb4, 0xe6, 0x73)
    case 9 => Pick(j, 0x96, 0xac, 0x74, 0x22, 0xe7, 0xad, 0x35, 0x85, 0xe2, 0xf9, 0x37, 0xe8, 0x1c, 0x75, 0xdf, 0x6e)
    case 10 => Pick(j, 0x47, 0xf1, 0x1a, 0x71, 0x1d, 0x29, 0xc5, 0x89, 0x6f, 0xb7, 0x62, 0x0e, 0xaa, 0x18, 0xbe, 0x1b)
    case 11 => Pick(j, 0xfc, 0x56, 0x3e, 0x4b, 0xc6, 0xd2, 0x79, 0x20, 0x9a, 0xdb, 0xc0, 0xfe, 0x78, 0xcd, 0x5a, 0xf4)
    case 12 => Pick(j, 0x1f, 0xdd, 0xa8, 0x33, 0x88, 0x07, 0xc7, 0x31, 0xb1, 0x12, 0x10, 0x59, 0x27, 0x80, 0xec, 0x5f)
    case 13 => Pick(j, 0x60, 0x51, 0x7f, 0xa9, 0x19, 0xb5, 0x4a, 0x0d, 0x2d, 0xe5, 0x7a, 0x9f, 0x93, 0xc9, 0x9c, 0xef)
    case 14 => Pick(j, 0xa0, 0xe0, 0x3b, 0x4d, 0xae, 0x2a, 0xf5, 0xb0, 0xc8, 0xeb, 0xbb, 0x3c, 0x83, 0x53, 0x99, 0x61)
    case _ => Pick(j, 0x17, 0x2b, 0x04, 0x7e, 0xba, 0x77, 0xd6, 0x26, 0xe1, 0x69, 0x14, 0x63, 0x55, 0x21, 0x0c, 0x7d)
  }

  /** The table `SQ`. */
  function SQ(i: int): int {
    var j := i % 16;
    match i / 16
    case 0 => Pick(j, 0x25, 0x24, 0x73, 0x67, 0xd7, 0xae, 0x5c, 0x30, 0xa4, 0xee, 0x6e, 0xcb, 0x7d, 0xb5, 0x82, 0xdb)
    case 1 => Pick(j, 0xe4, 0x8e, 0x48, 0x49, 0x4f, 0x5d, 0x6a, 0x78, 0x70, 0x88, 0xe8, 0x5f, 0x5e, 0x84, 0x65, 0xe2)
    case 2 => Pick(j, 0xd8, 0xe9, 0xcc, 0xed, 0x40, 0x2f, 0x11, 0x28, 0x57, 0xd2, 0xac, 0xe3, 0x4a, 0x15, 0x1b, 0xb9)
    case 3 => Pick(j, 0xb2, 0x80, 0x85, 0xa6, 0x2e, 0x02, 0x47, 0x29, 0x07, 0x4b, 0x0e, 0xc1, 0x51, 0xaa, 0x89, 0xd4)
    case 4 => Pick(j, 0xca, 0x01, 0x46, 0xb3, 0xef, 0xdd, 0x44, 0x7b, 0xc2, 0x7f, 0xbe, 0xc3, 0x9f, 0x20, 0x4c, 0x64)
    case 5 => Pick(j, 0x83, 0xa2, 0x68, 0x42, 0x13, 0xb4, 0x41, 0xcd, 0xba, 0xc6, 0xbb, 0x6d, 0x4d, 0x71, 0x21, 0xf4)
    case 6 => Pick(j, 0x8d, 0xb0, 0xe5, 0x93, 0xfe, 0x8f, 0xe6, 0xcf, 0x43, 0x45, 0x31, 0x22, 0x37, 0x36, 0x96, 0xfa)
    case 7 => Pick(j, 0xbc, 0x0f, 0x08, 0x52, 0x1d, 0x55, 0x1a, 0xc5, 0x4e, 0x23, 0x69, 0x7a, 0x92, 0xff, 0x5b, 0x5a)
    case 8 => Pick(j, 0xeb, 0x9a, 0x1c, 0xa9, 0xd1, 0x7e, 0x0d, 0xfc, 0x50, 0x8a, 0xb6, 0x62, 0xf5, 0x0a, 0xf8, 0xdc)
    case 9 => Pick(j, 0x03, 0x3c, 0x0c, 0x39, 0xf1, 0xb8, 0xf3, 0x3d, 0xf2, 0xd5, 0x97, 0x66, 0x81, 0x32, 0xa0, 0x00)
    case 10 => Pick(j, 0x06, 0xce, 0xf6, 0xea, 0xb7, 0x17, 0xf7, 0x8c, 0x79, 0xd6, 0xa7, 0xbf, 0x8b, 0x3f, 0x1f, 0x53)
    case 11 => Pick(j, 0x63, 0x75, 0x35, 0x2c, 0x60, 0xfd, 0x27, 0xd3, 0x94, 0xa5, 0x7c, 0xa1, 0x05, 0x58, 0x2d, 0xbd)
    case 12 => Pick(j, 0xd9, 0xc7, 0xaf, 0x6b, 0x54, 0x0b, 0xe0, 0x38, 0x04, 0xc8, 0x9d, 0xe7, 0x14, 0xb1, 0x87, 0x9c)
    case 13 => Pick(j, 0xdf, 0x6f, 0xf9, 0xda, 0x2a, 0xc4, 0x59, 0x16, 0x74, 0x91, 0xab, 0x26, 0x61, 0x76, 0x34, 0x2b)
    case 14 => Pick(j, 0xad, 0x99, 0xfb, 0x72, 0xec, 0x33, 0x12, 0xde, 0x98, 0x3b, 0xc0, 0x9b, 0x3e, 0x18, 0x10, 0x3a)
    case _ => Pick(j, 0x56, 0xe1, 0x77, 0xc9, 0x1e, 0x9e, 0x95, 0xa3, 0x90, 0x19, 0xa8, 0x6c, 0x09, 0xd0, 0xf0, 0x86)
  }

  /** The table that undoes `SQ`. */
  function SQInverse(i: int): int {
    var j := i % 16;
    match i / 16
    case 0 => Pick(j, 0x9f, 0x41, 0x35, 0x90, 0xc8, 0xbc, 0xa0, 0x38, 0x72, 0xfc, 0x8d, 0xc5, 0x92, 0x86, 0x3a, 0x71)
    case 1 => Pick(j, 0xee, 0x26, 0xe6, 0x54, 0xcc, 0x2d, 0xd7, 0xa5, 0xed, 0xf9, 0x76, 0x2e, 0x82, 0x74, 0xf4, 0xae)
    case 2 => Pick(j, 0x4d, 0x5e, 0x6b, 0x79, 0x01, 0x00, 0xdb, 0xb6, 0x27, 0x37, 0xd4, 0xdf, 0xb3, 0xbe, 0x34, 0x25)
    case 3 => Pick(j, 0x07, 0x6a, 0x9d, 0xe5, 0xde, 0xb2, 0x6d, 0x6c, 0xc7, 0x93, 0xef, 0xe9, 0x91, 0x97, 0xec, 0xad)
    case 4 => Pick(j, 0x24, 0x56, 0x53, 0x68, 0x46, 0x69, 0x42, 0x36, 0x12, 0x13, 0x2c, 0x39, 0x4e, 0x5c, 0x78, 0x14)
    case 5 => Pick(j, 0x88, 0x3c, 0x73, 0xaf, 0xc4, 0x75, 0xf0, 0x28, 0xbd, 0xd6, 0x7f, 0x7e, 0x06, 0x15, 0x1c, 0x1b)
    case 6 => Pick(j, 0xb4, 0xdc, 0x8b, 0xb0, 0x4f, 0x1e, 0x9b, 0x03, 0x52, 0x7a, 0x16, 0xc3, 0xfb, 0x5b, 0x0a, 0xd1)
    case 7 => Pick(j, 0x18, 0x5d, 0xe3, 0x02, 0xd8, 0xb1, 0xdd, 0xf2, 0x17, 0xa8, 0x7b, 0x47, 0xba, 0x0c, 0x85, 0x49)
    case 8 => Pick(j, 0x31, 0x9c, 0x0e, 0x50, 0x1d, 0x32, 0xff, 0xce, 0x19, 0x3e, 0x89, 0xac, 0xa7, 0x60, 0x11, 0x65)
    case 9 => Pick(j, 0xf8, 0xd9, 0x7c, 0x63, 0xb8, 0xf6, 0x6e, 0x9a, 0xe8, 0xe1, 0x81, 0xeb, 0xcf, 0xca, 0xf5, 0x4c)
    case 10 => Pick(j, 0x9e, 0xbb, 0x51, 0xf7, 0x08, 0xb9, 0x33, 0xaa, 0xfa, 0x83, 0x3d, 0xda, 0x2a, 0xe0, 0x05, 0xc2)
    case 11 => Pick(j, 0x61, 0xcd, 0x30, 0x43, 0x55, 0x0d, 0x8a, 0xa4, 0x95, 0x2f, 0x58, 0x5a, 0x70, 0xbf, 0x4a, 0xab)
    case 12 => Pick(j, 0xea, 0x3b, 0x48, 0x4b, 0xd5, 0x77, 0x59, 0xc1, 0xc9, 0xf3, 0x40, 0x0b, 0x22, 0x57, 0xa1, 0x67)
    case 13 => Pick(j, 0xfd, 0x84, 0x29, 0xb7, 0x3f, 0x99, 0xa9, 0x04, 0x20, 0xc0, 0xd3, 0x0f, 0x8f, 0x45, 0xe7, 0xd0)
    case 14 => Pick(j, 0xc6, 0xf1, 0x1f, 0x2b, 0x10, 0x62, 0x66, 0xcb, 0x1a, 0x21, 0xa3, 0x80, 0xe4, 0x23, 0x09, 0x44)
    case _ => Pick(j, 0xfe, 0x94, 0x98, 0x96, 0x5f, 0x8c, 0xa2, 0xa6, 0x8e, 0xd2, 0x6f, 0xe2, 0x87, 0xb5, 0x64, 0x7d)
  }

  // ----- what the tables are

  /** The S-box of Rijndael: the inverse modulo x^8 + x^4 + x^3 + x + 1 and an affine map. */
  function Rijndael(x: bv8): bv8 {
    var w := Power254(x, 0x1b);
    w ^ ((w << 1) | (w >> 7)) ^ ((w << 2) | (w >> 6)) ^ ((w << 3) | (w >> 5)) ^ ((w << 4) | (w >> 4)) ^ 0x63
  }

  /** The polynomial of section 3.3.2, modulo x^8 + x^6 + x^5 + x^3 + 1. */
  function Polynomial(x: bv8): bv8 {
    var x2 := Square(x, 0x69);
    var x4 := Square(x2, 0x69);
    var x8 := Square(x4, 0x69);
    var x16 := Square(x8, 0x69);
    var x32 := Square(x16, 0x69);
    var x9 := Times(x8, x, 0x69);
    var x13 := Times(x9, x4, 0x69);
    var x15 := Times(x13, x2, 0x69);
    var x33 := Times(x32, x, 0x69);
    var x41 := Times(x33, x8, 0x69);
    var x45 := Times(x41, x4, 0x69);
    var x47 := Times(x45, x2, 0x69);
    var x49 := Times(x47, x2, 0x69);
    x ^ x9 ^ x13 ^ x15 ^ x33 ^ x41 ^ x45 ^ x47 ^ x49 ^ 0x25
  }

  // Some entries at a time.
  lemma SRUndone0(x: bv8)
    requires x <= 0x3f
    ensures SRInverse(SR(x as int)) == x as int
  {}

  lemma SRUndone1(x: bv8)
    requires 0x40 <= x <= 0x5f
    ensures SRInverse(SR(x as int)) == x as int
  {}

  lemma SRUndone2(x: bv8)
    requires 0x60 <= x <= 0x7f
    ensures SRInverse(SR(x as int)) == x as int
  {}

  lemma SRUndone3(x: bv8)
    requires 0x80 <= x <= 0xbf
    ensures SRInverse(SR(x as int)) == x as int
  {}

  lemma SRUndone4(x: bv8)
    requires 0xc0 <= x
    ensures SRInverse(SR(x as int)) == x as int
  {}

  lemma SRLaw0(x: bv8)
    requires x <= 0x3f
    ensures SR(x as int) == Rijndael(x) as int
  {}

  lemma SRLaw1(x: bv8)
    requires 0x40 <= x <= 0x7f
    ensures SR(x as int) == Rijndael(x) as int
  {}

  lemma SRLaw2(x: bv8)
    requires 0x80 <= x <= 0xbf
    ensures SR(x as int) == Rijndael(x) as int
  {}

  lemma SRLaw3(x: bv8)
    requires 0xc0 <= x
    ensures SR(x as int) == Rijndael(x) as int
  {}

  lemma SQUndone0(x: bv8)
    requires x <= 0x3f
    ensures SQInverse(SQ(x as int)) == x as int
  {}

  lemma SQUndone1(x: bv8)
    requires 0x40 <= x <= 0x7f
    ensures SQInverse(SQ(x as int)) == x as int
  {}

  lemma SQUndone2(x: bv8)
    requires 0x80 <= x <= 0xbf
    ensures SQInverse(SQ(x as int)) == x as int
  {}

  lemma SQUndone3(x: bv8)
    requires 0xc0 <= x
    ensures SQInverse(SQ(x as int)) == x as int
  {}

  lemma SQLaw0(x: bv8)
    requires x <= 0x1f
    ensures SQ(x as int) == Polynomial(x) as int
  {}

  lemma SQLaw1(x: bv8)
    requires 0x20 <= x <= 0x3f
    ensures SQ(x as int) == Polynomial(x) as int
  {}

  lemma SQLaw2(x: bv8)
    requires 0x40 <= x <= 0x5f
    ensures SQ(x as int) == Polynomial(x) as int
  {}

  lemma SQLaw3(x: bv8)
    requires 0x60 <= x <= 0x7f
    ensures SQ(x as int) == Polynomial(x) as int
  {}

  lemma SQLaw4(x: bv8)
    requires 0x80 <= x <= 0x9f
    ensures SQ(x as int) == Polynomial(x) as int
  {}

  lemma SQLaw5(x: bv8)
    requires 0xa0 <= x <= 0xbf
    ensures SQ(x as int) == Polynomial(x) as int
  {}

  lemma SQLaw6(x: bv8)
    requires 0xc0 <= x <= 0xdf
    ensures SQ(x as int) == Polynomial(x) as int
  {}

  lemma SQLaw7(x: bv8)
    requires 0xe0 <= x
    ensures SQ(x as int) == Polynomial(x) as int
  {}

  lemma SRUndoneAt(x: bv8)
    ensures SRInverse(SR(x as int)) == x as int
  {
    hide SR, SRInverse;
    if x <= 0x3f {
      SRUndone0(x);
    } else if x <= 0x5f {
      SRUndone1(x);
    } else if x <= 0x7f {
      SRUndone2(x);
    } else if x <= 0xbf {
      SRUndone3(x);
    } else {
      SRUndone4(x);
    }
  }

  /** `SR` is undone by its inverse table. */
  lemma SRUndone(i: u8)
    ensures SRInverse(SR(i)) == i
  {
    hide SR, SRInverse;
    var x := ByteVector(i);
    SRUndoneAt(x);
  }

  lemma SRLawAt(x: bv8)
    ensures SR(x as int) == Rijndael(x) as int
  {
    hide SR, Rijndael;
    if x <= 0x3f {
      SRLaw0(x);
    } else if x <= 0x7f {
      SRLaw1(x);
    } else if x <= 0xbf {
      SRLaw2(x);
    } else {
      SRLaw3(x);
    }
  }

  /** And it is the S-box of Rijndael. */
  lemma SRLaw(i: u8)
    ensures SR(i) == Rijndael(i as bv8) as int
  {
    hide SR, Rijndael;
    var x := ByteVector(i);
    SRLawAt(x);
  }

  lemma SQUndoneAt(x: bv8)
    ensures SQInverse(SQ(x as int)) == x as int
  {
    hide SQ, SQInverse;
    if x <= 0x3f {
      SQUndone0(x);
    } else if x <= 0x7f {
      SQUndone1(x);
    } else if x <= 0xbf {
      SQUndone2(x);
    } else {
      SQUndone3(x);
    }
  }

  /** `SQ` is undone by its inverse table. */
  lemma SQUndone(i: u8)
    ensures SQInverse(SQ(i)) == i
  {
    hide SQ, SQInverse;
    var x := ByteVector(i);
    SQUndoneAt(x);
  }

  lemma SQLawAt(x: bv8)
    ensures SQ(x as int) == Polynomial(x) as int
  {
    hide SQ, Polynomial;
    if x <= 0x1f {
      SQLaw0(x);
    } else if x <= 0x3f {
      SQLaw1(x);
    } else if x <= 0x5f {
      SQLaw2(x);
    } else if x <= 0x7f {
      SQLaw3(x);
    } else if x <= 0x9f {
      SQLaw4(x);
    } else if x <= 0xbf {
      SQLaw5(x);
    } else if x <= 0xdf {
      SQLaw6(x);
    } else {
      SQLaw7(x);
    }
  }

  /** And it is the polynomial. */
  lemma SQLaw(i: u8)
    ensures SQ(i) == Polynomial(i as bv8) as int
  {
    hide SQ, Polynomial;
    var x := ByteVector(i);
    SQLawAt(x);
  }

  lemma SRIsInjective(i: u8, j: u8)
    ensures SR(i) == SR(j) <==> i == j
  {
    SRUndone(i);
    SRUndone(j);
  }

  lemma SQIsInjective(i: u8, j: u8)
    ensures SQ(i) == SQ(j) <==> i == j
  {
    SQUndone(i);
    SQUndone(j);
  }

  lemma SRHoldsOctets(i: int)
    ensures 0 <= SR(i) < 0x100
  {}

  lemma SQHoldsOctets(i: int)
    ensures 0 <= SQ(i) < 0x100
  {}

  // ----- the boxes

  /** `MULx` on bytes. */
  function Twice(v: u8, c: u8): u8 {
    WidthFacts();
    MulXBound(8, v, c);
    MulX(8, v, c)
  }

  datatype Column = Column(r0: u8, r1: u8, r2: u8, r3: u8)

  /** The mixing of the four bytes, `c` being the constant of `MULx`. */
  function Mixed(a: Column, c: u8): Column {
    var t0, t1, t2, t3 := Twice(a.r0, c), Twice(a.r1, c), Twice(a.r2, c), Twice(a.r3, c);
    Column(
      XorOctets(XorOctets(XorOctets(t0, a.r1), a.r2), XorOctets(t3, a.r3)),
      XorOctets(XorOctets(XorOctets(XorOctets(t0, a.r0), t1), a.r2), a.r3),
      XorOctets(XorOctets(XorOctets(a.r0, XorOctets(t1, a.r1)), t2), a.r3),
      XorOctets(XorOctets(XorOctets(a.r0, a.r1), XorOctets(t2, a.r2)), t3))
  }

  function Joined(a: Column): u32 {
    OrBytes4(a.r0, a.r1, a.r2, a.r3);
    Or(Or(Or(Shl(a.r0, 24), Shl(a.r1, 16)), Shl(a.r2, 8)), a.r3)
  }

  function OctetsOf(w: u32): Column {
    Column(LowOctet(Shr(w, 24)), LowOctet(Shr(w, 16)), LowOctet(Shr(w, 8)), LowOctet(w))
  }

  /** `SR` on each byte. */
  function SRColumn(a: Column): Column {
    SRHoldsOctets(a.r0);
    SRHoldsOctets(a.r1);
    SRHoldsOctets(a.r2);
    SRHoldsOctets(a.r3);
    Column(SR(a.r0), SR(a.r1), SR(a.r2), SR(a.r3))
  }

  function SQColumn(a: Column): Column {
    SQHoldsOctets(a.r0);
    SQHoldsOctets(a.r1);
    SQHoldsOctets(a.r2);
    SQHoldsOctets(a.r3);
    Column(SQ(a.r0), SQ(a.r1), SQ(a.r2), SQ(a.r3))
  }

  function S1(w: u32): u32 {
    Joined(Mixed(SRColumn(OctetsOf(w)), 0x1b))
  }

  function S2(w: u32): u32 {
    Joined(Mixed(SQColumn(OctetsOf(w)), 0x69))
  }

  // ----- the mixing loses nothing

  function XorColumns(a: Column, b: Column): Column {
    Column(XorOctets(a.r0, b.r0), XorOctets(a.r1, b.r1), XorOctets(a.r2, b.r2), XorOctets(a.r3, b.r3))
  }

  function TwiceColumn(a: Column, c: u8): Column {
    Column(Twice(a.r0, c), Twice(a.r1, c), Twice(a.r2, c), Twice(a.r3, c))
  }

  /** Bit `k` of every byte of the mixing of `d` is zero, `e` being twice `d`. */
  predicate Vanishes(d: Column, e: Column, k: nat) {
    && ((((Bit(e.r0, k) != Bit(d.r1, k)) != Bit(d.r2, k)) != Bit(e.r3, k)) == Bit(d.r3, k))
    && ((((Bit(e.r0, k) != Bit(d.r0, k)) != Bit(e.r1, k)) != Bit(d.r2, k)) == Bit(d.r3, k))
    && ((((Bit(d.r0, k) != Bit(e.r1, k)) != Bit(d.r1, k)) != Bit(e.r2, k)) == Bit(d.r3, k))
    && ((((Bit(d.r0, k) != Bit(d.r1, k)) != Bit(e.r2, k)) != Bit(d.r2, k)) == Bit(e.r3, k))
  }

  lemma BitsOfXor(k: nat)
    ensures forall a: nat, b: nat :: Bit(Xor(a, b), k) == (Bit(a, k) != Bit(b, k))
  {
    forall a: nat, b: nat ensures Bit(Xor(a, b), k) == (Bit(a, k) != Bit(b, k)) {
      XorBit(a, b, k);
    }
  }

  /** Where two columns mix to the same bytes, the mixing of their difference is zero. */
  lemma DifferenceVanishes(a: Column, b: Column, c: u8, k: nat)
    requires Mixed(a, c) == Mixed(b, c)
    ensures var d := XorColumns(a, b); Vanishes(d, TwiceColumn(d, c), k)
  {
    hide Xor, MulX, Bit;
    MulXLinear(8, a.r0, b.r0, c);
    MulXLinear(8, a.r1, b.r1, c);
    MulXLinear(8, a.r2, b.r2, c);
    MulXLinear(8, a.r3, b.r3, c);
    BitsOfXor(k);
  }

  lemma SameBits(v: u8, w: u8)
    requires forall k: nat :: Bit(v, k) == Bit(w, k)
    ensures v == w
  {
    hide Bit, ToBits, Pow2;
    WidthFacts();
    forall k: nat | k < 8 ensures ToBits(v, 8)[k] == ToBits(w, 8)[k] {
      ToBitsAt(v, 8, k);
      ToBitsAt(w, 8, k);
    }
    assert ToBits(v, 8) == ToBits(w, 8);
    BitsDetermine(v, w, 8);
  }

  lemma {:induction false} NoBitOfZero(k: nat)
    ensures !Bit(0, k)
  {
    if k != 0 {
      NoBitOfZero(k - 1);
    }
  }

  lemma TwiceOfSum(d: Column, c: u8)
    requires XorOctets(XorOctets(d.r0, d.r1), XorOctets(d.r2, d.r3)) == 0
    ensures var e := TwiceColumn(d, c); XorOctets(XorOctets(e.r0, e.r1), XorOctets(e.r2, e.r3)) == 0
  {
    hide Xor, MulX;
    MulXLinear(8, d.r0, d.r1, c);
    MulXLinear(8, d.r2, d.r3, c);
    MulXLinear(8, Xor(d.r0, d.r1), Xor(d.r2, d.r3), c);
    XorSelf(0);
    MulXLinear(8, 0, 0, c);
    XorSelf(MulX(8, 0, c));
  }

  /** Only the zero column mixes to zero: its bytes add up to zero, so that opposite bytes are
      equal, then all are, and then each is zero. */
  lemma OnlyZeroVanishes(d: Column, c: u8)
    requires forall k: nat :: Vanishes(d, TwiceColumn(d, c), k)
    ensures d == Column(0, 0, 0, 0)
  {
    hide Xor, Twice, Bit;
    var e := TwiceColumn(d, c);
    forall k: nat ensures Bit(XorOctets(XorOctets(d.r0, d.r1), XorOctets(d.r2, d.r3)), k) == Bit(0, k) {
      assert Vanishes(d, e, k);
      NoBitOfZero(k);
      BitsOfXor(k);
    }
    SameBits(XorOctets(XorOctets(d.r0, d.r1), XorOctets(d.r2, d.r3)), 0);
    TwiceOfSum(d, c);
    forall k: nat
      ensures Bit(d.r0, k) == Bit(d.r2, k) && Bit(d.r1, k) == Bit(d.r3, k)
    {
      assert Vanishes(d, e, k);
      NoBitOfZero(k);
      BitsOfXor(k);
    }
    SameBits(d.r0, d.r2);
    SameBits(d.r1, d.r3);
    forall k: nat ensures Bit(d.r0, k) == Bit(d.r1, k) {
      assert Vanishes(d, e, k);
    }
    SameBits(d.r0, d.r1);
    forall k: nat ensures Bit(d.r0, k) == Bit(0, k) {
      assert Vanishes(d, e, k);
      NoBitOfZero(k);
    }
    SameBits(d.r0, 0);
  }

  lemma MixedIsInjective(a: Column, b: Column, c: u8)
    ensures Mixed(a, c) == Mixed(b, c) <==> a == b
  {
    if Mixed(a, c) == Mixed(b, c) {
      forall k: nat ensures Vanishes(XorColumns(a, b), TwiceColumn(XorColumns(a, b), c), k) {
        DifferenceVanishes(a, b, c, k);
      }
      OnlyZeroVanishes(XorColumns(a, b), c);
      XorIsZero(a.r0, b.r0);
      XorIsZero(a.r1, b.r1);
      XorIsZero(a.r2, b.r2);
      XorIsZero(a.r3, b.r3);
    }
  }

  lemma XorIsZero(a: nat, b: nat)
    ensures Xor(a, b) == 0 ==> a == b
  {
    XorCancel(a, b);
    XorComm(0, b);
    XorZero(b);
  }

  // ----- nor do the boxes

  lemma JoinedIsInjective(a: Column, b: Column)
    ensures Joined(a) == Joined(b) <==> a == b
  {
    hide Or, Shl;
    OrBytes4(a.r0, a.r1, a.r2, a.r3);
    OrBytes4(b.r0, b.r1, b.r2, b.r3);
  }

  lemma OctetDivides(w: nat)
    ensures LowOctet(w) == w % 0x100 && Shr(w, 8) == w / 0x100
  {
    hide Shr, And, Low;
    WidthFacts();
    AndLowMask(w, 8);
    ShrLowIsDivMod(w, 8);
  }

  lemma OctetsJoin(w: u32)
    ensures Joined(OctetsOf(w)) == w
  {
    hide Or, Shl, Shr, LowOctet;
    var a := OctetsOf(w);
    OrBytes4(a.r0, a.r1, a.r2, a.r3);
    ShrAdd(w, 8, 8);
    ShrAdd(w, 16, 8);
    OctetDivides(w);
    OctetDivides(Shr(w, 8));
    OctetDivides(Shr(w, 16));
    OctetDivides(Shr(w, 24));
  }

  lemma SRColumnIsInjective(a: Column, b: Column)
    ensures SRColumn(a) == SRColumn(b) <==> a == b
  {
    hide SR;
    SRIsInjective(a.r0, b.r0);
    SRIsInjective(a.r1, b.r1);
    SRIsInjective(a.r2, b.r2);
    SRIsInjective(a.r3, b.r3);
  }

  lemma SQColumnIsInjective(a: Column, b: Column)
    ensures SQColumn(a) == SQColumn(b) <==> a == b
  {
    hide SQ;
    SQIsInjective(a.r0, b.r0);
    SQIsInjective(a.r1, b.r1);
    SQIsInjective(a.r2, b.r2);
    SQIsInjective(a.r3, b.r3);
  }

  /** Neither box sends two words to one. */
  lemma BoxesAreInjective(v: u32, w: u32)
    ensures S1(v) == S1(w) <==> v == w
    ensures S2(v) == S2(w) <==> v == w
  {
    hide OctetsOf, SRColumn, SQColumn, Mixed, Joined;
    var a, b := OctetsOf(v), OctetsOf(w);
    OctetsJoin(v);
    OctetsJoin(w);
    SRColumnIsInjective(a, b);
    MixedIsInjective(SRColumn(a), SRColumn(b), 0x1b);
    JoinedIsInjective(Mixed(SRColumn(a), 0x1b), Mixed(SRColumn(b), 0x1b));
    SQColumnIsInjective(a, b);
    MixedIsInjective(SQColumn(a), SQColumn(b), 0x69);
    JoinedIsInjective(Mixed(SQColumn(a), 0x69), Mixed(SQColumn(b), 0x69));
  }
}
