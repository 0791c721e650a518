/** The tables `S0` and `S1` of ZUC. */
module ZucBoxes {
  import opened Words
  import opened ByteField

  /** The table `S0`. */
  function S0Entry(i: int): int {
    var j := i % 16;
    match i / 16
    case 0 => Pick(j, 0x3e, 0x72, 0x5b, 0x47, 0xca, 0xe0, 0x00, 0x33, 0x04, 0xd1, 0x54, 0x98, 0x09, 0xb9, 0x6d, 0xcb)
    case 1 => Pick(j, 0x7b, 0x1b, 0xf9, 0x32, 0xaf, 0x9d, 0x6a, 0xa5, 0xb8, 0x2d, 0xfc, 0x1d, 0x08, 0x53, 0x03, 0x90)
    case 2 => Pick(j, 0x4d, 0x4e, 0x84, 0x99, 0xe4, 0xce, 0xd9, 0x91, 0xdd, 0xb6, 0x85, 0x48, 0x8b, 0x29, 0x6e, 0xac)
    case 3 => Pick(j, 0xcd, 0xc1, 0xf8, 0x1e, 0x73, 0x43, 0x69, 0xc6, 0xb5, 0xbd, 0xfd, 0x39, 0x63, 0x20, 0xd4, 0x38)
    case 4 => Pick(j, 0x76, 0x7d, 0xb2, 0xa7, 0xcf, 0xed, 0x57, 0xc5, 0xf3, 0x2c, 0xbb, 0x14, 0x21, 0x06, 0x55, 0x9b)
    case 5 => Pick(j, 0xe3, 0xef, 0x5e, 0x31, 0x4f, 0x7f, 0x5a, 0xa4, 0x0d, 0x82, 0x51, 0x49, 0x5f, 0xba, 0x58, 0x1c)
    case 6 => Pick(j, 0x4a, 0x16, 0xd5, 0x17, 0xa8, 0x92, 0x24, 0x1f, 0x8c, 0xff, 0xd8, 0xae, 0x2e, 0x01, 0xd3, 0xad)
    case 7 => Pick(j, 0x3b, 0x4b, 0xda, 0x46, 0xeb, 0xc9, 0xde, 0x9a, 0x8f, 0x87, 0xd7, 0x3a, 0x80, 0x6f, 0x2f, 0xc8)
    case 8 => Pick(j, 0xb1, 0xb4, 0x37, 0xf7, 0x0a, 0x22, 0x13, 0x28, 0x7c, 0xcc, 0x3c, 0x89, 0xc7, 0xc3, 0x96, 0x56)
    case 9 => Pick(j, 0x07, 0xbf, 0x7e, 0xf0, 0x0b, 0x2b, 0x97, 0x52, 0x35, 0x41, 0x79, 0x61, 0xa6, 0x4c, 0x10, 0xfe)
    case 10 => Pick(j, 0xbc, 0x26, 0x95, 0x88, 0x8a, 0xb0, 0xa3, 0xfb, 0xc0, 0x18, 0x94, 0xf2, 0xe1, 0xe5, 0xe9, 0x5d)
    case 11 => Pick(j, 0xd0, 0xdc, 0x11, 0x66, 0x64, 0x5c, 0xec, 0x59, 0x42, 0x75, 0x12, 0xf5, 0x74, 0x9c, 0xaa, 0x23)
    case 12 => Pick(j, 0x0e, 0x86, 0xab, 0xbe, 0x2a, 0x02, 0xe7, 0x67, 0xe6, 0x44, 0xa2, 0x6c, 0xc2, 0x93, 0x9f, 0xf1)
    case 13 => Pick(j, 0xf6, 0xfa, 0x36, 0xd2, 0x50, 0x68, 0x9e, 0x62, 0x71, 0x15, 0x3d, 0xd6, 0x40, 0xc4, 0xe2, 0x0f)
    case 14 => Pick(j, 0x8e, 0x83, 0x77, 0x6b, 0x25, 0x05, 0x3f, 0x0c, 0x30, 0xea, 0x70, 0xb7, 0xa1, 0xe8, 0xa9, 0x65)
    case _ => Pick(j, 0x8d, 0x27, 0x1a, 0xdb, 0x81, 0xb3, 0xa0, 0xf4, 0x45, 0x7a, 0x19, 0xdf, 0xee, 0x78, 0x34, 0x60)
  }

  /** The table that undoes `S0`. */
  function S0Inverse(i: int): int {
    var j := i % 16;
    match i / 16
    case 0 => Pick(j, 0x06, 0x6d, 0xc5, 0x1e, 0x08, 0xe5, 0x4d, 0x90, 0x1c, 0x0c, 0x84, 0x94, 0xe7, 0x58, 0xc0, 0xdf)
    case 1 => Pick(j, 0x9e, 0xb2, 0xba, 0x86, 0x4b, 0xd9, 0x61, 0x63, 0xa9, 0xfa, 0xf2, 0x11, 0x5f, 0x1b, 0x33, 0x67)
    case 2 => Pick(j, 0x3d, 0x4c, 0x85, 0xbf, 0x66, 0xe4, 0xa1, 0xf1, 0x87, 0x2d, 0xc4, 0x95, 0x49, 0x19, 0x6c, 0x7e)
    case 3 => Pick(j, 0xe8, 0x53, 0x13, 0x07, 0xfe, 0x98, 0xd2, 0x82, 0x3f, 0x3b, 0x7b, 0x70, 0x8a, 0xda, 0x00, 0xe6)
    case 4 => Pick(j, 0xdc, 0x99, 0xb8, 0x35, 0xc9, 0xf8, 0x73, 0x03, 0x2b, 0x5b, 0x60, 0x71, 0x9d, 0x20, 0x21, 0x54)
    case 5 => Pick(j, 0xd4, 0x5a, 0x97, 0x1d, 0x0a, 0x4e, 0x8f, 0x46, 0x5e, 0xb7, 0x56, 0x02, 0xb5, 0xaf, 0x52, 0x5c)
    case 6 => Pick(j, 0xff, 0x9b, 0xd7, 0x3c, 0xb4, 0xef, 0xb3, 0xc7, 0xd5, 0x36, 0x16, 0xe3, 0xcb, 0x0e, 0x2e, 0x7d)
    case 7 => Pick(j, 0xea, 0xd8, 0x01, 0x34, 0xbc, 0xb9, 0x40, 0xe2, 0xfd, 0x9a, 0xf9, 0x10, 0x88, 0x41, 0x92, 0x55)
    case 8 => Pick(j, 0x7c, 0xf4, 0x59, 0xe1, 0x22, 0x2a, 0xc1, 0x79, 0xa3, 0x8b, 0xa4, 0x2c, 0x68, 0xf0, 0xe0, 0x78)
    case 9 => Pick(j, 0x1f, 0x27, 0x65, 0xcd, 0xaa, 0xa2, 0x8e, 0x96, 0x0b, 0x23, 0x77, 0x4f, 0xbd, 0x15, 0xd6, 0xce)
    case 10 => Pick(j, 0xf6, 0xec, 0xca, 0xa6, 0x57, 0x17, 0x9c, 0x43, 0x64, 0xee, 0xbe, 0xc2, 0x2f, 0x6f, 0x6b, 0x14)
    case 11 => Pick(j, 0xa5, 0x80, 0x42, 0xf5, 0x81, 0x38, 0x29, 0xeb, 0x18, 0x0d, 0x5d, 0x4a, 0xa0, 0x39, 0xc3, 0x91)
    case 12 => Pick(j, 0xa8, 0x31, 0xcc, 0x8d, 0xdd, 0x47, 0x37, 0x8c, 0x7f, 0x75, 0x04, 0x0f, 0x89, 0x30, 0x25, 0x44)
    case 13 => Pick(j, 0xb0, 0x09, 0xd3, 0x6e, 0x3e, 0x62, 0xdb, 0x7a, 0x6a, 0x26, 0x72, 0xf3, 0xb1, 0x28, 0x76, 0xfb)
    case 14 => Pick(j, 0x05, 0xac, 0xde, 0x50, 0x24, 0xad, 0xc8, 0xc6, 0xed, 0xae, 0xe9, 0x74, 0xb6, 0x45, 0xfc, 0x51)
    case _ => Pick(j, 0x93, 0xcf, 0xab, 0x48, 0xf7, 0xbb, 0xd0, 0x83, 0x32, 0x12, 0xd1, 0xa7, 0x1a, 0x3a, 0x9f, 0x69)
  }

  /** The table `S1`. */
  function S1Entry(i: int): int {
    var j := i % 16;
    match i / 16
    case 0 => Pick(j, 0x55, 0xc2, 0x63, 0x71, 0x3b, 0xc8, 0x47, 0x86, 0x9f, 0x3c, 0xda, 0x5b, 0x29, 0xaa, 0xfd, 0x77)
    case 1 => Pick(j, 0x8c, 0xc5, 0x94, 0x0c, 0xa6, 0x1a, 0x13, 0x00, 0xe3, 0xa8, 0x16, 0x72, 0x40, 0xf9, 0xf8, 0x42)
    case 2 => Pick(j, 0x44, 0x26, 0x68, 0x96, 0x81, 0xd9, 0x45, 0x3e, 0x10, 0x76, 0xc6, 0xa7, 0x8b, 0x39, 0x43, 0xe1)
    case 3 => Pick(j, 0x3a, 0xb5, 0x56, 0x2a, 0xc0, 0x6d, 0xb3, 0x05, 0x22, 0x66, 0xbf, 0xdc, 0x0b, 0xfa, 0x62, 0x48)
    case 4 => Pick(j, 0xdd, 0x20, 0x11, 0x06, 0x36, 0xc9, 0xc1, 0xcf, 0xf6, 0x27, 0x52, 0xbb, 0x69, 0xf5, 0xd4, 0x87)
    case 5 => Pick(j, 0x7f, 0x84, 0x4c, 0xd2, 0x9c, 0x57, 0xa4, 0xbc, 0x4f, 0x9a, 0xdf, 0xfe, 0xd6, 0x8d, 0x7a, 0xeb)
    case 6 => Pick(j, 0x2b, 0x53, 0xd8, 0x5c, 0xa1, 0x14, 0x17, 0xfb, 0x23, 0xd5, 0x7d, 0x30, 0x67, 0x73, 0x08, 0x09)
    case 7 => Pick(j, 0xee, 0xb7, 0x70, 0x3f, 0x61, 0xb2, 0x19, 0x8e, 0x4e, 0xe5, 0x4b, 0x93, 0x8f, 0x5d, 0xdb, 0xa9)
    case 8 => Pick(j, 0xad, 0xf1, 0xae, 0x2e, 0xcb, 0x0d, 0xfc, 0xf4, 0x2d, 0x46, 0x6e, 0x1d, 0x97, 0xe8, 0xd1, 0xe9)
    case 9 => Pick(j, 0x4d, 0x37, 0xa5, 0x75, 0x5e, 0x83, 0x9e, 0xab, 0x82, 0x9d, 0xb9, 0x1c, 0xe0, 0xcd, 0x49, 0x89)
    case 10 => Pick(j, 0x01, 0xb6, 0xbd, 0x58, 0x24, 0xa2, 0x5f, 0x38, 0x78, 0x99, 0x15, 0x90, 0x50, 0xb8, 0x95, 0xe4)
    case 11 => Pick(j, 0xd0, 0x91, 0xc7, 0xce, 0xed, 0x0f, 0xb4, 0x6f, 0xa0, 0xcc, 0xf0, 0x02, 0x4a, 0x79, 0xc3, 0xde)
    case 12 => Pick(j, 0xa3, 0xef, 0xea, 0x51, 0xe6, 0x6b, 0x18, 0xec, 0x1b, 0x2c, 0x80, 0xf7, 0x74, 0xe7, 0xff, 0x21)
    case 13 => Pick(j, 0x5a, 0x6a, 0x54, 0x1e, 0x41, 0x31, 0x92, 0x35, 0xc4, 0x33, 0x07, 0x0a, 0xba, 0x7e, 0x0e, 0x34)
    case 14 => Pick(j, 0x88, 0xb1, 0x98, 0x7c, 0xf3, 0x3d, 0x60, 0x6c, 0x7b, 0xca, 0xd3, 0x1f, 0x32, 0x65, 0x04, 0x28)
    case _ => Pick(j, 0x64, 0xbe, 0x85, 0x9b, 0x2f, 0x59, 0x8a, 0xd7, 0xb0, 0x25, 0xac, 0xaf, 0x12, 0x03, 0xe2, 0xf2)
  }

  /** The table that undoes `S1`. */
  function S1Inverse(i: int): int {
    var j := i % 16;
    match i / 16
    case 0 => Pick(j, 0x17, 0xa0, 0xbb, 0xfd, 0xee, 0x37, 0x43, 0xda, 0x6e, 0x6f, 0xdb, 0x3c, 0x13, 0x85, 0xde, 0xb5)
    case 1 => Pick(j, 0x28, 0x42, 0xfc, 0x16, 0x65, 0xaa, 0x1a, 0x66, 0xc6, 0x76, 0x15, 0xc8, 0x9b, 0x8b, 0xd3, 0xeb)
    case 2 => Pick(j, 0x41, 0xcf, 0x38, 0x68, 0xa4, 0xf9, 0x21, 0x49, 0xef, 0x0c, 0x33, 0x60, 0xc9, 0x88, 0x83, 0xf4)
    case 3 => Pick(j, 0x6b, 0xd5, 0xec, 0xd9, 0xdf, 0xd7, 0x44, 0x91, 0xa7, 0x2d, 0x30, 0x04, 0x09, 0xe5, 0x27, 0x73)
    case 4 => Pick(j, 0x1c, 0xd4, 0x1f, 0x2e, 0x20, 0x26, 0x89, 0x06, 0x3f, 0x9e, 0xbc, 0x7a, 0x52, 0x90, 0x78, 0x58)
    case 5 => Pick(j, 0xac, 0xc3, 0x4a, 0x61, 0xd2, 0x00, 0x32, 0x55, 0xa3, 0xf5, 0xd0, 0x0b, 0x63, 0x7d, 0x94, 0xa6)
    case 6 => Pick(j, 0xe6, 0x74, 0x3e, 0x02, 0xf0, 0xed, 0x39, 0x6c, 0x22, 0x4c, 0xd1, 0xc5, 0xe7, 0x35, 0x8a, 0xb7)
    case 7 => Pick(j, 0x72, 0x03, 0x1b, 0x6d, 0xcc, 0x93, 0x29, 0x0f, 0xa8, 0xbd, 0x5e, 0xe8, 0xe3, 0x6a, 0xdd, 0x50)
    case 8 => Pick(j, 0xca, 0x24, 0x98, 0x95, 0x51, 0xf2, 0x07, 0x4f, 0xe0, 0x9f, 0xf6, 0x2c, 0x10, 0x5d, 0x77, 0x7c)
    case 9 => Pick(j, 0xab, 0xb1, 0xd6, 0x7b, 0x12, 0xae, 0x23, 0x8c, 0xe2, 0xa9, 0x59, 0xf3, 0x54, 0x99, 0x96, 0x08)
    case 10 => Pick(j, 0xb8, 0x64, 0xa5, 0xc0, 0x56, 0x92, 0x14, 0x2b, 0x19, 0x7f, 0x0d, 0x97, 0xfa, 0x80, 0x82, 0xfb)
    case 11 => Pick(j, 0xf8, 0xe1, 0x75, 0x36, 0xb6, 0x31, 0xa1, 0x71, 0xad, 0x9a, 0xdc, 0x4b, 0x57, 0xa2, 0xf1, 0x3a)
    case 12 => Pick(j, 0x34, 0x46, 0x01, 0xbe, 0xd8, 0x11, 0x2a, 0xb2, 0x05, 0x45, 0xe9, 0x84, 0xb9, 0x9d, 0xb3, 0x47)
    case 13 => Pick(j, 0xb0, 0x8e, 0x53, 0xea, 0x4e, 0x69, 0x5c, 0xf7, 0x62, 0x25, 0x0a, 0x7e, 0x3b, 0x40, 0xbf, 0x5a)
    case 14 => Pick(j, 0x9c, 0x2f, 0xfe, 0x18, 0xaf, 0x79, 0xc4, 0xcd, 0x8d, 0x8f, 0xc2, 0x5f, 0xc7, 0xb4, 0x70, 0xc1)
    case _ => Pick(j, 0xba, 0x81, 0xff, 0xe4, 0x87, 0x4d, 0x48, 0xcb, 0x1e, 0x1d, 0x3d, 0x67, 0x86, 0x0e, 0x5b, 0xce)
  }

  // ----- what the tables are

  function Nibble(j: bv8, x0: bv8, x1: bv8, x2: bv8, x3: bv8, x4: bv8, x5: bv8, x6: bv8, x7: bv8, x8: bv8,
                  x9: bv8, x10: bv8, x11: bv8, x12: bv8, x13: bv8, x14: bv8, x15: bv8): bv8 {
    if j == 0 then x0
    else if j == 1 then x1
    else if j == 2 then x2
    else if j == 3 then x3
    else if j == 4 then x4
    else if j == 5 then x5
    else if j == 6 then x6
    else if j == 7 then x7
    else if j == 8 then x8
    else if j == 9 then x9
    else if j == 10 then x10
    else if j == 11 then x11
    else if j == 12 then x12
    else if j == 13 then x13
    else if j == 14 then x14
    else x15
  }

  // The three tables of four bits in the design of `S0`.
  function P1(j: bv8): bv8 { Nibble(j, 9, 15, 0, 14, 15, 15, 2, 10, 0, 4, 0, 12, 7, 5, 3, 9) }
  function P2(j: bv8): bv8 { Nibble(j, 8, 13, 6, 5, 7, 0, 12, 4, 11, 1, 14, 10, 15, 3, 9, 2) }
  function P3(j: bv8): bv8 { Nibble(j, 2, 6, 10, 6, 0, 13, 10, 15, 3, 3, 13, 5, 0, 9, 12, 13) }

  /** Three rounds on the halves of a byte, turned by five bits. */
  function ThreeRounds(x: bv8): bv8 {
    var l := (x >> 4) ^ P1(x & 0x0f);
    var r := (x & 0x0f) ^ P2(l);
    var m := l ^ P3(r);
    var y := (m << 4) | r;
    (y << 5) | (y >> 3)
  }

  /** The inverse modulo x^8 + x^7 + x^3 + x + 1 and an affine map. */
  function AffineInverse(x: bv8): bv8 {
    var w := Power254(x, 0x8b);
    (if w & 0x01 != 0 then 0x97 else 0) ^ (if w & 0x02 != 0 then 0x3e else 0) ^
    (if w & 0x04 != 0 then 0x6d else 0) ^ (if w & 0x08 != 0 then 0xcb else 0) ^
    (if w & 0x10 != 0 then 0xee else 0) ^ (if w & 0x20 != 0 then 0xdd else 0) ^
    (if w & 0x40 != 0 then 0xbb else 0) ^ (if w & 0x80 != 0 then 0x77 else 0) ^ 0x55
  }

  // Some entries at a time.
  lemma S0Undone0(x: bv8)
    requires x <= 0x3f
    ensures S0Inverse(S0Entry(x as int)) == x as int
  {}

  lemma S0Undone1(x: bv8)
    requires 0x40 <= x <= 0x7f
    ensures S0Inverse(S0Entry(x as int)) == x as int
  {}

  lemma S0Undone2(x: bv8)
    requires 0x80 <= x <= 0xbf
    ensures S0Inverse(S0Entry(x as int)) == x as int
  {}

  lemma S0Undone3(x: bv8)
    requires 0xc0 <= x <= 0xdf
    ensures S0Inverse(S0Entry(x as int)) == x as int
  {}

  lemma S0Undone4(x: bv8)
    requires 0xe0 <= x
    ensures S0Inverse(S0Entry(x as int)) == x as int
  {}

  lemma S1Undone0(x: bv8)
    requires x <= 0x3f
    ensures S1Inverse(S1Entry(x as int)) == x as int
  {}

  lemma S1Undone1(x: bv8)
    requires 0x40 <= x <= 0x7f
    ensures S1Inverse(S1Entry(x as int)) == x as int
  {}

  lemma S1Undone2(x: bv8)
    requires 0x80 <= x <= 0xbf
    ensures S1Inverse(S1Entry(x as int)) == x as int
  {}

  lemma S1Undone3(x: bv8)
    requires 0xc0 <= x
    ensures S1Inverse(S1Entry(x as int)) == x as int
  {}

  lemma S0Law0(x: bv8)
    requires x <= 0x03
    ensures S0Entry(x as int) == ThreeRounds(x) as int
  {}

  lemma S0Law1(x: bv8)
    requires 0x04 <= x <= 0x07
    ensures S0Entry(x as int) == ThreeRounds(x) as int
  {}

  lemma S0Law2(x: bv8)
    requires 0x08 <= x <= 0x0b
    ensures S0Entry(x as int) == ThreeRounds(x) as int
  {}

  lemma S0Law3(x: bv8)
    requires 0x0c <= x <= 0x0f
    ensures S0Entry(x as int) == ThreeRounds(x) as int
  {}

  lemma S0Law4(x: bv8)
    requires 0x10 <= x <= 0x3f
    ensures S0Entry(x as int) == ThreeRounds(x) as int
  {}

  lemma S0Law5(x: bv8)
    requires 0x40 <= x <= 0x7f
    ensures S0Entry(x as int) == ThreeRounds(x) as int
  {}

  lemma S0Law6(x: bv8)
    requires 0x80 <= x <= 0xbf
    ensures S0Entry(x as int) == ThreeRounds(x) as int
  {}

  lemma S0Law7(x: bv8)
    requires 0xc0 <= x
    ensures S0Entry(x as int) == ThreeRounds(x) as int
  {}

  lemma S1Law0(x: bv8)
    requires x <= 0x3f
    ensures S1Entry(x as int) == AffineInverse(x) as int
  {}

  lemma S1Law1(x: bv8)
    requires 0x40 <= x <= 0x7f
    ensures S1Entry(x as int) == AffineInverse(x) as int
  {}

  lemma S1Law2(x: bv8)
    requires 0x80 <= x <= 0xbf
    ensures S1Entry(x as int) == AffineInverse(x) as int
  {}

  lemma S1Law3(x: bv8)
    requires 0xc0 <= x
    ensures S1Entry(x as int) == AffineInverse(x) as int
  {}

  lemma S0UndoneAt(x: bv8)
    ensures S0Inverse(S0Entry(x as int)) == x as int
  {
    hide S0Entry, S0Inverse;
    if x <= 0x3f {
      S0Undone0(x);
    } else if x <= 0x7f {
      S0Undone1(x);
    } else if x <= 0xbf {
      S0Undone2(x);
    } else if x <= 0xdf {
      S0Undone3(x);
    } else {
      S0Undone4(x);
    }
  }

  lemma S1UndoneAt(x: bv8)
    ensures S1Inverse(S1Entry(x as int)) == x as int
  {
    hide S1Entry, S1Inverse;
    if x <= 0x3f {
      S1Undone0(x);
    } else if x <= 0x7f {
      S1Undone1(x);
    } else if x <= 0xbf {
      S1Undone2(x);
    } else {
      S1Undone3(x);
    }
  }

  lemma S0LawAt(x: bv8)
    ensures S0Entry(x as int) == ThreeRounds(x) as int
  {
    hide S0Entry, ThreeRounds;
    if x <= 0x03 {
      S0Law0(x);
    } else if x <= 0x07 {
      S0Law1(x);
    } else if x <= 0x0b {
      S0Law2(x);
    } else if x <= 0x0f {
      S0Law3(x);
    } else if x <= 0x3f {
      S0Law4(x);
    } else if x <= 0x7f {
      S0Law5(x);
    } else if x <= 0xbf {
      S0Law6(x);
    } else {
      S0Law7(x);
    }
  }

  lemma S1LawAt(x: bv8)
    ensures S1Entry(x as int) == AffineInverse(x) as int
  {
    hide S1Entry, AffineInverse;
    if x <= 0x3f {
      S1Law0(x);
    } else if x <= 0x7f {
      S1Law1(x);
    } else if x <= 0xbf {
      S1Law2(x);
    } else {
      S1Law3(x);
    }
  }

  /** `S0` is undone by its inverse table. */
  lemma S0Undone(i: u8)
    ensures S0Inverse(S0Entry(i)) == i
  {
    hide S0Entry, S0Inverse;
    var x := ByteVector(i);
    S0UndoneAt(x);
  }

  /** `S1` is undone by its inverse table. */
  lemma S1Undone(i: u8)
    ensures S1Inverse(S1Entry(i)) == i
  {
    hide S1Entry, S1Inverse;
    var x := ByteVector(i);
    S1UndoneAt(x);
  }

  /** `S0` is three rounds on halves. */
  lemma S0Law(i: u8)
    ensures S0Entry(i) == ThreeRounds(i as bv8) as int
  {
    hide S0Entry, ThreeRounds;
    var x := ByteVector(i);
    S0LawAt(x);
  }

  /** `S1` is an affine map of the inverse. */
  lemma S1Law(i: u8)
    ensures S1Entry(i) == AffineInverse(i as bv8) as int
  {
    hide S1Entry, AffineInverse;
    var x := ByteVector(i);
    S1LawAt(x);
  }

  lemma S0HoldsOctets(i: int)
    ensures 0 <= S0Entry(i) < 0x100
  {}

  lemma S1HoldsOctets(i: int)
    ensures 0 <= S1Entry(i) < 0x100
  {}

  function S0(b: u8): u8 {
    S0HoldsOctets(b);
    S0Entry(b)
  }

  function S1(b: u8): u8 {
    S1HoldsOctets(b);
    S1Entry(b)
  }

  /** Neither table holds an octet twice. */
  lemma TablesAreInjective(a: u8, b: u8)
    ensures S0(a) == S0(b) <==> a == b
    ensures S1(a) == S1(b) <==> a == b
  {
    hide S0Entry, S1Entry, S0Inverse, S1Inverse;
    S0Undone(a);
    S0Undone(b);
    S1Undone(a);
    S1Undone(b);
  }
}
