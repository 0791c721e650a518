/** The fields of 256 elements behind the S-box tables, on bytes as bit vectors: `c` holds the
    lower terms of the polynomial of degree 8. */
module ByteField {
  import opened Words

  /** Multiplication by x. */
  function XTime(v: bv8, c: bv8): bv8 {
    if v & 0x80 != 0 then (v << 1) ^ c else v << 1
  }

  function Times(a: bv8, b: bv8, c: bv8): bv8 {
    var a1 := XTime(a, c);
    var a2 := XTime(a1, c);
    var a3 := XTime(a2, c);
    var a4 := XTime(a3, c);
    var a5 := XTime(a4, c);
    var a6 := XTime(a5, c);
    var a7 := XTime(a6, c);
    (if b & 0x01 != 0 then a else 0) ^ (if b & 0x02 != 0 then a1 else 0) ^
    (if b & 0x04 != 0 then a2 else 0) ^ (if b & 0x08 != 0 then a3 else 0) ^
    (if b & 0x10 != 0 then a4 else 0) ^ (if b & 0x20 != 0 then a5 else 0) ^
    (if b & 0x40 != 0 then a6 else 0) ^ (if b & 0x80 != 0 then a7 else 0)
  }

  /** The square, which spreads the bits: x^8 is `c`. */
  function Square(a: bv8, c: bv8): bv8 {
    var c2 := XTime(XTime(c, c), c);
    var c4 := XTime(XTime(c2, c), c);
    var c6 := XTime(XTime(c4, c), c);
    (if a & 0x01 != 0 then 0x01 else 0) ^ (if a & 0x02 != 0 then 0x04 else 0) ^
    (if a & 0x04 != 0 then 0x10 else 0) ^ (if a & 0x08 != 0 then 0x40 else 0) ^
    (if a & 0x10 != 0 then c else 0) ^ (if a & 0x20 != 0 then c2 else 0) ^
    (if a & 0x40 != 0 then c4 else 0) ^ (if a & 0x80 != 0 then c6 else 0)
  }

  lemma SquareIsProduct1b(a: bv8)
    ensures Square(a, 0x1b) == Times(a, a, 0x1b)
  {}

  lemma SquareIsProduct69(a: bv8)
    ensures Square(a, 0x69) == Times(a, a, 0x69)
  {}

  lemma SquareIsProduct8b(a: bv8)
    ensures Square(a, 0x8b) == Times(a, a, 0x8b)
  {}

  /** The 254th power, which is the inverse and takes 0 to 0. */
  function Power254(a: bv8, c: bv8): bv8 {
    var a2 := Square(a, c);
    var a3 := Times(a2, a, c);
    var a12 := Square(Square(a3, c), c);
    var a15 := Times(a12, a3, c);
    var a240 := Square(Square(Square(Square(a15, c), c), c), c);
    Times(Times(a240, a12, c), a2, c)
  }

  // ----- bytes as bit vectors

  lemma Doubled(y: bv8)
    requires y < 0x80
    ensures (y << 1) as int == 2 * (y as int) && ((y << 1) | 1) as int == 2 * (y as int) + 1
  {}

  lemma Small(y: bv8, v: nat)
    requires y as int == v < 128
    ensures y < 0x80
  {}

  lemma Converted(x: bv8, v: nat)
    requires x as int == v
    ensures v < 0x100 && v as bv8 == x
  {}

  lemma {:induction false} FindVector(v: nat) returns (x: bv8)
    requires v < 0x100
    ensures x as int == v
  {
    if v == 0 {
      x := 0;
    } else {
      var y := FindVector(v / 2);
      Small(y, v / 2);
      Doubled(y);
      x := if v % 2 == 0 then y << 1 else (y << 1) | 1;
    }
  }

  /** A byte as a bit vector. */
  lemma ByteVector(v: u8) returns (x: bv8)
    ensures x == v as bv8 && x as int == v
  {
    x := FindVector(v);
    Converted(x, v);
  }
}
