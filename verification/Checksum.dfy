/** The Internet checksum (RFC 1071) as the three checksum files compute it: the IPv4
    header and ICMP in little-endian 16-bit words, TCP and UDP in big-endian ones. */
module Checksum {
  import opened Words

  // ----- one's complement sums

  /** The weight of byte `k` in its 16-bit word. */
  function Weight(k: nat, bigEndian: bool): nat {
    if (k % 2 == 0) == bigEndian then 0x100 else 1
  }

  /** The sum of the 16-bit words in the first `n` bytes; an odd last byte is zero-padded. */
  function WordSum(d: seq<u8>, n: nat, bigEndian: bool): nat
    requires n <= |d|
  {
    if n == 0 then 0 else WordSum(d, n - 1, bigEndian) + Weight(n - 1, bigEndian) * d[n - 1]
  }

  /** The one's complement sum: the representative of `n` modulo 65535 that is 0 only for 0. */
  function Folded(n: nat): (f: nat)
    ensures f <= 0xffff
  {
    if n == 0 then 0 else if n % 0xffff == 0 then 0xffff else n % 0xffff
  }

  /** What a receiver checks: the sum over the covered words folds to all ones. */
  ghost predicate Verifies(sum: nat) {
    Folded(sum) == 0xffff
  }

  lemma FoldStep(n: nat)
    ensures Folded(n % 0x1_0000 + n / 0x1_0000) == Folded(n)
    ensures n > 0xffff ==> n % 0x1_0000 + n / 0x1_0000 < n
  {
    var h, l := n / 0x1_0000, n % 0x1_0000;
    assert n == (l + h) + 0xffff * h;
    ModShift(l + h, h);
  }

  lemma FoldedSmall(n: nat)
    requires n <= 0xffff
    ensures Folded(n) == n
  {}

  /** Adding the complement of the folded sum makes any sum verify; adding it twice, only
      when the sum verified before. */
  lemma ComplementVerifies(sum: nat)
    ensures Verifies(sum + (0xffff - Folded(sum)))
    ensures sum > 0 ==> (Verifies(sum + 2 * (0xffff - Folded(sum))) <==> Verifies(sum))
  {}

  lemma {:induction false} WordSumBound(d: seq<u8>, n: nat, bigEndian: bool)
    requires n <= |d|
    ensures WordSum(d, n, bigEndian) <= 0xffff * ((n + 1) / 2)
    ensures n % 2 == 1 ==> WordSum(d, n, bigEndian) <= 0xffff * (n / 2) + 0xff * Weight(n - 1, bigEndian)
  {
    if n != 0 {
      WordSumBound(d, n - 1, bigEndian);
    }
  }

  // ----- byte order

  function Swapped(w: u16): u16 {
    w % 0x100 * 0x100 + w / 0x100
  }

  /** The sum of the bytes at odd offsets. */
  function OddBytes(d: seq<u8>, n: nat): nat
    requires n <= |d|
  {
    if n == 0 then 0 else OddBytes(d, n - 1) + (if n % 2 == 0 then d[n - 1] else 0)
  }

  lemma {:induction false} SumsAreShifted(d: seq<u8>, n: nat)
    requires n <= |d|
    ensures 0x100 * WordSum(d, n, false) == WordSum(d, n, true) + 0xffff * OddBytes(d, n)
    ensures WordSum(d, n, false) == 0 <==> WordSum(d, n, true) == 0
  {
    if n != 0 {
      SumsAreShifted(d, n - 1);
    }
  }

  lemma FoldedQuotient(n: nat) returns (q: nat)
    ensures n == Folded(n) + 0xffff * q
  {
    q := if n > 0 && n % 0xffff == 0 then n / 0xffff - 1 else n / 0xffff;
  }

  lemma FoldedUnique(n: nat, r: nat, q: int)
    requires r <= 0xffff && (n == 0 <==> r == 0) && n == r + 0xffff * q
    ensures Folded(n) == r
  {
    if r < 0xffff {
      assert n % 0xffff == r;
    } else {
      assert n == 0xffff * (q + 1);
    }
  }

  lemma SwappedFold(a: nat, b: nat, t: nat)
    requires 0x100 * a == b + 0xffff * t && (a == 0 <==> b == 0)
    ensures Folded(b) == Swapped(Folded(a))
  {
    hide Folded;
    var f: nat := Folded(a);
    var q := FoldedQuotient(a);
    var h, l := f / 0x100, f % 0x100;
    assert f == 0x100 * h + l;
    assert 0x100 * f == l * 0x100 + h + 0xffff * h;
    if a == 0 {
      assert Folded(0) == 0 by {
        FoldedSmall(0);
      }
    } else {
      FoldedPositive(a);
    }
    FoldedUnique(b, l * 0x100 + h, 0x100 * q - t + h);
  }

  lemma FoldedPositive(n: nat)
    ensures Folded(n) == 0 <==> n == 0
  {}

  /** The two byte orders fold to each other's byte swap, so the bytes stored from the
      complement are the same: low byte first of the one, high byte first of the other. */
  lemma ByteOrderIndependent(d: seq<u8>, n: nat)
    requires n <= |d|
    ensures var l, b := 0xffff - Folded(WordSum(d, n, false)), 0xffff - Folded(WordSum(d, n, true));
      l % 0x100 == b / 0x100 && l / 0x100 == b % 0x100
  {
    hide Folded, WordSum;
    SumsAreShifted(d, n);
    SwappedFold(WordSum(d, n, false), WordSum(d, n, true), OddBytes(d, n));
    SwappedComplement(Folded(WordSum(d, n, false)));
  }

  lemma SwappedComplement(f: u16)
    ensures (0xffff - f) % 0x100 == (0xffff - Swapped(f)) / 0x100
    ensures (0xffff - f) / 0x100 == (0xffff - Swapped(f)) % 0x100
  {
    var h, l := f / 0x100, f % 0x100;
    DivModUnique(0xffff - f, 0x100, 0xff - h, 0xff - l);
    DivModUnique(0xffff - Swapped(f), 0x100, 0xff - l, 0xff - h);
  }

  // ----- storing a checksum into the summed data

  lemma {:induction false} StoredWord(d: seq<u8>, e: seq<u8>, p: nat, n: nat, bigEndian: bool)
    requires n <= |d| == |e| && p % 2 == 0 && p + 1 < |d|
    requires d[p] == 0 && d[p + 1] == 0
    requires forall i :: 0 <= i < |d| && i != p && i != p + 1 ==> e[i] == d[i]
    requires n <= p || p + 2 <= n
    ensures WordSum(e, n, bigEndian) == WordSum(d, n, bigEndian)
      + (if n <= p then 0 else Weight(p, bigEndian) * e[p] + Weight(p + 1, bigEndian) * e[p + 1])
  {
    if n == p + 2 {
      StoredWord(d, e, p, p, bigEndian);
      assert WordSum(e, p + 2, bigEndian) == WordSum(e, p + 1, bigEndian) + Weight(p + 1, bigEndian) * e[p + 1];
      assert WordSum(d, p + 2, bigEndian) == WordSum(d, p + 1, bigEndian) + Weight(p + 1, bigEndian) * d[p + 1];
    } else if n != 0 {
      StoredWord(d, e, p, n - 1, bigEndian);
    }
  }

  lemma NothingSummed(d: seq<u8>)
    ensures WordSum(d, 0, false) == 0
  {}

  lemma NextWord(d: seq<u8>, at: nat)
    requires at % 2 == 0 && at + 2 <= |d|
    ensures WordSum(d, at + 2, false) == WordSum(d, at, false) + (d[at] as nat + 0x100 * d[at + 1] as nat)
  {
    assert WordSum(d, at + 2, false) == WordSum(d, at + 1, false) + 0x100 * d[at + 1] as nat;
  }

  lemma LastByte(d: seq<u8>, at: nat)
    requires at % 2 == 0 && at + 1 <= |d|
    ensures WordSum(d, at + 1, false) == WordSum(d, at, false) + d[at] as nat
  {}

  lemma AddWraps(x: nat, w: u32)
    ensures Add32(x % TWO_32, w) == (x + w) % TWO_32
  {}

  // ----- ip_checksum.cpp

  method IpChecksumAdd(current: u32, data: array<u8>, len: nat) returns (checksum: u32)
    requires len <= data.Length
    ensures checksum == (current + WordSum(data[..], len, false)) % TWO_32
  {
    hide WordSum, Add32;
    ghost var d := data[..];
    NothingSummed(d);
    checksum := current;
    var left := len;
    var at := 0;
    while left > 1
      invariant at + left == len && at % 2 == 0
      invariant checksum == (current + WordSum(d, at, false)) % TWO_32
    {
      NextWord(d, at);
      AddWraps(current + WordSum(d, at, false), d[at] as nat + 0x100 * d[at + 1] as nat);
      checksum := Add32(checksum, data[at] as nat + 0x100 * data[at + 1] as nat);
      at := at + 2;
      left := left - 2;
    }
    if left != 0 {
      LastByte(d, at);
      AddWraps(current + WordSum(d, at, false), d[at]);
      checksum := Add32(checksum, data[at]);
    }
  }

  method IpChecksumFold(sum: u32) returns (f: u16)
    ensures f == Folded(sum)
  {
    var tempSum: nat := sum;
    while tempSum > 0xffff
      invariant Folded(tempSum) == Folded(sum)
    {
      FoldStep(tempSum);
      tempSum := tempSum / 0x1_0000 + tempSum % 0x1_0000;
    }
    FoldedSmall(tempSum);
    f := tempSum;
  }

  /** The header of `d` with a zeroed checksum field. */
  function IpZeroed(d: seq<u8>): (z: seq<u8>)
    requires |d| >= 12
    ensures |z| == |d|
  {
    d[10 := 0][11 := 0]
  }

  function HeaderLength(d: seq<u8>): nat
    requires |d| > 0
  {
    d[0] % 0x10 * 4
  }

  function IpAssigned(d: seq<u8>): (e: seq<u8>)
    requires |d| >= 12 && |d| >= HeaderLength(d)
    ensures |e| == |d|
  {
    var csum := 0xffff - Folded(WordSum(IpZeroed(d), HeaderLength(d), false));
    d[10 := csum % 0x100][11 := csum / 0x100]
  }

  method IpChecksumAssign(ipData: array<u8>)
    requires ipData.Length >= 12 && ipData.Length >= HeaderLength(ipData[..])
    modifies ipData
    ensures ipData[..] == IpAssigned(old(ipData[..]))
  {
    ipData[10] := 0;
    ipData[11] := 0;
    assert ipData[..] == IpZeroed(old(ipData[..]));
    var headerLen := ipData[0] % 0x10 * 4;
    WordSumBound(ipData[..], headerLen, false);
    var sum := IpChecksumAdd(0, ipData, headerLen);
    var f := IpChecksumFold(sum);
    var csum := 0xffff - f;
    ipData[10] := csum % 0x100;
    ipData[11] := csum / 0x100;
  }

  /** After assignment the header sums to all ones whenever the checksum field lies inside
      it; a header length below twelve bytes verifies only if it did before. */
  lemma IpHeaderVerifies(d: seq<u8>, bigEndian: bool)
    requires |d| >= 12 && |d| >= HeaderLength(d)
    ensures Verifies(WordSum(IpAssigned(d), HeaderLength(IpAssigned(d)), bigEndian))
       <==> d[0] % 0x10 >= 3 || Verifies(WordSum(d, HeaderLength(d), bigEndian))
  {
    hide Folded;
    var n, z, e := HeaderLength(d), IpZeroed(d), IpAssigned(d);
    assert HeaderLength(e) == n;
    if n < 12 {
      SameBytes(d, e, n, bigEndian);
    } else {
      StoredWord(z, e, 10, n, false);
      ComplementVerifies(WordSum(z, n, false));
      VerifiesInBothOrders(e, n, bigEndian);
    }
  }

  lemma {:induction false} SameBytes(d: seq<u8>, e: seq<u8>, n: nat, bigEndian: bool)
    requires n <= |d| && n <= |e| && d[..n] == e[..n]
    ensures WordSum(d, n, bigEndian) == WordSum(e, n, bigEndian)
  {
    if n != 0 {
      assert d[n - 1] == d[..n][n - 1] == e[n - 1];
      assert d[..n - 1] == d[..n][..n - 1] && e[..n - 1] == e[..n][..n - 1];
      SameBytes(d, e, n - 1, bigEndian);
    }
  }

  lemma VerifiesInBothOrders(d: seq<u8>, n: nat, bigEndian: bool)
    requires n <= |d| && Verifies(WordSum(d, n, false))
    ensures Verifies(WordSum(d, n, bigEndian))
  {
    SumsAreShifted(d, n);
    SwappedFold(WordSum(d, n, false), WordSum(d, n, true), OddBytes(d, n));
  }

  // ----- icmp_checksum.cpp

  method IcmpChecksum(icmph: array<u8>, size: nat) returns (ret: u16)
    requires size % 2 == 0 && size <= icmph.Length
    ensures ret == 0xffff - Folded(WordSum(icmph[..], size, false) % TWO_32)
  {
    hide WordSum, Add32, Folded;
    ghost var d := icmph[..];
    NothingSummed(d);
    var sum: u32 := 0;
    var len := size;
    var at := 0;
    while len > 1
      invariant at + len == size && at % 2 == 0
      invariant sum == WordSum(d, at, false) % TWO_32
    {
      NextWord(d, at);
      AddWraps(WordSum(d, at, false), d[at] as nat + 0x100 * d[at + 1] as nat);
      sum := Add32(sum, icmph[at] as nat + 0x100 * icmph[at + 1] as nat);
      at := at + 2;
      len := len - 2;
    }
    ret := TwoStepFold(sum);
  }

  /** Two additions of the high half replace the loop: the low half is the folded sum. */
  method TwoStepFold(total: u32) returns (ret: u16)
    ensures ret == 0xffff - Folded(total)
  {
    var sum: nat := total / 0x1_0000 + total % 0x1_0000;
    FoldStep(total);
    FoldStep(sum);
    FoldedSmall(sum % 0x1_0000 + sum / 0x1_0000);
    sum := sum + sum / 0x1_0000;
    assert sum % 0x1_0000 == Folded(total);
    ret := 0xffff - sum % 0x1_0000;
  }

  function IcmpZeroed(d: seq<u8>): (z: seq<u8>)
    requires |d| >= 4
    ensures |z| == |d|
  {
    d[2 := 0][3 := 0]
  }

  function IcmpAssigned(d: seq<u8>, size: nat): (e: seq<u8>)
    requires 4 <= |d| && size <= |d|
    ensures |e| == |d|
  {
    var csum := 0xffff - Folded(WordSum(IcmpZeroed(d), size, false) % TWO_32);
    d[2 := csum % 0x100][3 := csum / 0x100]
  }

  method IcmpChecksumAssign(data: array<u8>, size: nat)
    requires size % 2 == 0 && 4 <= data.Length && size <= data.Length
    modifies data
    ensures data[..] == IcmpAssigned(old(data[..]), size)
  {
    data[2] := 0;
    data[3] := 0;
    assert data[..] == IcmpZeroed(old(data[..]));
    var csum := IcmpChecksum(data, size);
    data[2] := csum % 0x100;
    data[3] := csum / 0x100;
  }

  /** After assignment the message sums to all ones exactly when the 32-bit accumulator did
      not lose a carry that matters, which no message of up to 131076 bytes can make it do: its
      word for the checksum adds nothing. */
  lemma IcmpMessageVerifies(d: seq<u8>, size: nat)
    requires size % 2 == 0 && 4 <= size <= |d|
    ensures Verifies(WordSum(IcmpAssigned(d, size), size, false))
       <==> WordSum(IcmpZeroed(d), size, false) / TWO_32 % 0xffff == 0
    ensures size <= 131076 ==> Verifies(WordSum(IcmpAssigned(d, size), size, false))
  {
    hide Folded, WordSum, Verifies;
    var z, e := IcmpZeroed(d), IcmpAssigned(d, size);
    var sum := WordSum(z, size, false);
    StoredWord(z, e, 2, size, false);
    LostCarries(sum);
    WordSumWithout(z, size);
  }

  /** The sum without the word at bytes 2 and 3. */
  lemma {:induction false} WordSumWithout(z: seq<u8>, n: nat)
    requires 4 <= n <= |z| && n % 2 == 0 && z[2] == 0 && z[3] == 0
    ensures WordSum(z, n, false) <= 0xffff * (n / 2 - 1)
  {
    hide WordSum;
    if n == 4 {
      WordSumBound(z, 2, false);
      NextWord(z, 2);
    } else {
      WordSumWithout(z, n - 2);
      NextWord(z, n - 2);
    }
  }

  /** Two more bytes are too many, if every bit is set. */
  lemma LongMessageFails(d: seq<u8>)
    requires |d| == 131078 && forall i :: 0 <= i < |d| ==> d[i] == 0xff
    ensures !Verifies(WordSum(IcmpAssigned(d, |d|), |d|, false))
  {
    hide Folded, WordSum, Verifies, IcmpAssigned;
    var n := |d|;
    SumOfOnes(IcmpZeroed(d), n);
    IcmpMessageVerifies(d, n);
  }

  lemma {:induction false} SumOfOnes(z: seq<u8>, n: nat)
    requires 4 <= n <= |z| && n % 2 == 0 && z[2] == 0 && z[3] == 0
    requires forall i :: 0 <= i < |z| && i != 2 && i != 3 ==> z[i] == 0xff
    ensures WordSum(z, n, false) == 0xffff * (n / 2 - 1)
  {
    hide WordSum;
    if n == 4 {
      NothingSummed(z);
      NextWord(z, 0);
      NextWord(z, 2);
    } else {
      SumOfOnes(z, n - 2);
      NextWord(z, n - 2);
    }
  }

  lemma LostCarries(sum: nat)
    ensures Verifies(sum + (0xffff - Folded(sum % TWO_32))) <==> sum / TWO_32 % 0xffff == 0
  {
    hide Folded;
    var k, l := sum / TWO_32, sum % TWO_32;
    var q := FoldedQuotient(l);
    var m := 0x1_0001 * k + q + 1;
    assert sum + (0xffff - Folded(l)) == k + 0xffff * m;
    VerifiesIff(k + 0xffff * m);
    ModShift(k, m);
  }

  lemma VerifiesIff(n: nat)
    ensures Verifies(n) <==> n > 0 && n % 0xffff == 0
  {}

  lemma ModShift(k: nat, m: nat)
    ensures (k + 0xffff * m) % 0xffff == k % 0xffff
  {}

  // ----- tcp_checksum.cpp

  const PROTO_TCP: nat := 6
  const PROTO_UDP: nat := 17

  method NetChecksumAdd(len: nat, buf: array<u8>, start: nat) returns (sum: u32)
    requires start + len <= buf.Length
    ensures sum == WordSum(buf[start..start + len], len, true) % TWO_32
  {
    hide WordSum, Add32, Weight;
    ghost var d := buf[start..start + len];
    assert WordSum(d, 0, true) == 0 by {
      NextByte(d, 0);
    }
    sum := 0;
    for i := 0 to len
      invariant sum == WordSum(d, i, true) % TWO_32
    {
      assert d[i] == buf[start + i];
      NextByte(d, i);
      AddWraps(WordSum(d, i, true), if i % 2 == 1 then d[i] else 0x100 * d[i] as nat);
      if i % 2 == 1 {
        sum := Add32(sum, buf[start + i]);
      } else {
        sum := Add32(sum, 0x100 * buf[start + i] as nat);
      }
    }
  }

  lemma NextByte(d: seq<u8>, i: nat)
    requires i <= |d|
    ensures WordSum(d, 0, true) == 0
    ensures i < |d| ==>
      WordSum(d, i + 1, true) == WordSum(d, i, true) + (if i % 2 == 1 then d[i] else 0x100 * d[i] as nat)
  {}

  method NetChecksumFinish(total: u32) returns (r: u16)
    ensures r == 0xffff - Folded(total)
  {
    var f := IpChecksumFold(total);
    r := 0xffff - f;
  }

  function ChecksumOffset(proto: nat): nat {
    if proto == PROTO_TCP then 16 else 6
  }

  function TotalLength(d: seq<u8>): nat
    requires |d| >= 4
  {
    d[2] as nat * 0x100 + d[3] as nat
  }

  /** Whether the code writes at all: IPv4, TCP or UDP, and room for the checksum field. */
  predicate Assigns(d: seq<u8>)
    requires |d| >= 20
  {
    && d[0] / 0x10 == 4
    && (d[9] == PROTO_TCP || d[9] == PROTO_UDP)
    && TotalLength(d) >= HeaderLength(d) + ChecksumOffset(d[9]) + 2
  }

  /** The words a receiver sums: the segment, the addresses, the protocol and the length. */
  function PseudoSum(d: seq<u8>): nat
    requires |d| >= 20 && HeaderLength(d) <= TotalLength(d) <= |d|
  {
    var h, n := HeaderLength(d), TotalLength(d) - HeaderLength(d);
    WordSum(d[h..h + n], n, true) + WordSum(d[12..20], 8, true) + d[9] as nat + n
  }

  function FieldAt(d: seq<u8>): nat
    requires |d| >= 20
  {
    HeaderLength(d) + ChecksumOffset(d[9])
  }

  function SegmentZeroed(d: seq<u8>): (z: seq<u8>)
    requires |d| >= 20 && Assigns(d) && TotalLength(d) <= |d|
    ensures |z| == |d|
  {
    d[FieldAt(d) := 0][FieldAt(d) + 1 := 0]
  }

  function SegmentAssigned(d: seq<u8>): (e: seq<u8>)
    requires |d| >= 20 && TotalLength(d) <= |d|
    ensures |e| == |d|
  {
    if !Assigns(d) then d
    else
      var z := SegmentZeroed(d);
      FieldElsewhere(d, z);
      var csum := 0xffff - Folded(PseudoSum(z));
      d[FieldAt(d) := csum / 0x100][FieldAt(d) + 1 := csum % 0x100]
  }

  /** The checksum field never overlaps the header bytes that say where it is. */
  lemma FieldElsewhere(d: seq<u8>, z: seq<u8>)
    requires |d| >= 20 && Assigns(d) && TotalLength(d) <= |d| == |z|
    requires forall i :: 0 <= i < |d| && i != FieldAt(d) && i != FieldAt(d) + 1 ==> z[i] == d[i]
    ensures z[0] == d[0] && z[2] == d[2] && z[3] == d[3] && z[9] == d[9]
    ensures FieldAt(d) % 2 == 0 && FieldAt(z) == FieldAt(d) && Assigns(z)
    ensures HeaderLength(z) == HeaderLength(d) && TotalLength(z) == TotalLength(d)
  {}

  method NetChecksumTcpUdp(length: u16, proto: u16, data: array<u8>, addrs: nat, buf: nat) returns (r: u16)
    requires addrs + 8 <= data.Length && buf + length <= data.Length
    ensures r == 0xffff - Folded(WordSum(data[buf..buf + length], length, true)
                                 + WordSum(data[addrs..addrs + 8], 8, true) + proto as nat + length as nat)
  {
    hide Folded, WordSum, Add32;
    ghost var x := WordSum(data[buf..buf + length], length, true);
    ghost var y := WordSum(data[addrs..addrs + 8], 8, true);
    WordSumBound(data[buf..buf + length], length, true);
    WordSumBound(data[addrs..addrs + 8], 8, true);
    NothingWraps(x, y, proto, length);
    var sum := NetChecksumAdd(length, data, buf);
    var addresses := NetChecksumAdd(8, data, addrs);
    sum := Add32(sum, addresses);
    sum := Add32(sum, proto as nat + length as nat);
    r := NetChecksumFinish(sum);
  }

  lemma NothingWraps(x: nat, y: nat, proto: u16, length: u16)
    requires x <= 0xffff * 0x8000 && y <= 0xffff * 4
    ensures x % TWO_32 == x && y % TWO_32 == y
    ensures Add32(Add32(x, y), proto as nat + length as nat) == x + y + proto as nat + length as nat
  {}

  method TcpUdpChecksumAssign(ipData: array<u8>)
    requires ipData.Length >= 20 && TotalLength(ipData[..]) <= ipData.Length
    modifies ipData
    ensures ipData[..] == SegmentAssigned(old(ipData[..]))
  {
    hide Folded, WordSum, PseudoSum;
    ghost var d := ipData[..];
    if ipData[0] / 0x10 != 4 {
      return;
    }
    var hlen: nat := ipData[0] % 0x10 * 4;
    var plen: int := (ipData[2] as nat * 0x100 + ipData[3] as nat) - hlen;
    var proto := ipData[9];
    if proto != PROTO_TCP && proto != PROTO_UDP {
      return;
    }
    var csumOffset := if proto == PROTO_TCP then 16 else 6;
    if plen < csumOffset + 2 {
      return;
    }
    StoreChecksum(ipData, hlen, plen, proto, csumOffset);
  }

  // The field zeroed, the checksum computed, and stored.
  method StoreChecksum(ipData: array<u8>, hlen: nat, plen: nat, proto: nat, csumOffset: nat)
    requires ipData.Length >= 20 && TotalLength(ipData[..]) <= ipData.Length && Assigns(ipData[..])
    requires hlen == HeaderLength(ipData[..]) && plen == TotalLength(ipData[..]) - hlen
    requires proto == ipData[9] && csumOffset == ChecksumOffset(proto)
    modifies ipData
    ensures ipData[..] == SegmentAssigned(old(ipData[..]))
  {
    hide Folded, WordSum, PseudoSum, SegmentAssigned;
    ghost var d := ipData[..];
    ipData[hlen + csumOffset] := 0;
    ipData[hlen + csumOffset + 1] := 0;
    assert ipData[..] == SegmentZeroed(d);
    FieldElsewhere(d, SegmentZeroed(d));
    PseudoSumOfParts(ipData[..], ipData[hlen..hlen + plen], ipData[12..20]);
    var csum := NetChecksumTcpUdp(plen, proto, ipData, 12, hlen);
    ipData[hlen + csumOffset] := csum / 0x100;
    ipData[hlen + csumOffset + 1] := csum % 0x100;
    AssignedIs(d);
    assert ipData[..] == SegmentAssigned(d);
  }

  lemma AssignedIs(d: seq<u8>)
    requires |d| >= 20 && Assigns(d) && TotalLength(d) <= |d|
    ensures var z := SegmentZeroed(d);
      && HeaderLength(z) <= TotalLength(z) <= |z|
      && var csum := 0xffff - Folded(PseudoSum(z));
        SegmentAssigned(d) == d[FieldAt(d) := csum / 0x100][FieldAt(d) + 1 := csum % 0x100]
  {
    hide Folded, WordSum, PseudoSum;
    FieldElsewhere(d, SegmentZeroed(d));
  }

  lemma PseudoSumOfParts(d: seq<u8>, payload: seq<u8>, addresses: seq<u8>)
    requires |d| >= 20 && HeaderLength(d) <= TotalLength(d) <= |d|
    requires payload == d[HeaderLength(d)..TotalLength(d)] && addresses == d[12..20]
    ensures PseudoSum(d) == WordSum(payload, |payload|, true) + WordSum(addresses, 8, true) + d[9] as nat + |payload|
  {}

  /** After assignment the segment with its pseudo-header sums to all ones exactly when the
      checksum field is not itself one of the address words, as it is only in headers of
      length 0, 8 or 12, or the sum was right with a zero field. */
  lemma SegmentVerifies(d: seq<u8>)
    requires |d| >= 20 && TotalLength(d) <= |d| && Assigns(d)
    ensures var e := SegmentAssigned(d);
      && HeaderLength(e) <= TotalLength(e)
      && HeaderLength(SegmentZeroed(d)) <= TotalLength(SegmentZeroed(d))
      && (Verifies(PseudoSum(e)) <==> !(12 <= FieldAt(d) < 20) || Verifies(PseudoSum(SegmentZeroed(d))))
    ensures HeaderLength(d) >= 20 ==> Verifies(PseudoSum(SegmentAssigned(d)))
  {
    hide Folded, PseudoSum, Verifies;
    AssignedSum(d);
    ComplementVerifies(PseudoSum(SegmentZeroed(d)));
  }

  /** What storing the checksum adds to the sum. */
  lemma AssignedSum(d: seq<u8>)
    requires |d| >= 20 && TotalLength(d) <= |d| && Assigns(d)
    ensures var z, e := SegmentZeroed(d), SegmentAssigned(d);
      && HeaderLength(e) <= TotalLength(e) && HeaderLength(z) <= TotalLength(z)
      && PseudoSum(z) > 0
      && var csum := 0xffff - Folded(PseudoSum(z));
        PseudoSum(e) == PseudoSum(z) + (if 12 <= FieldAt(d) < 20 then 2 * csum else csum)
  {
    hide Folded, WordSum, PseudoSum, SegmentAssigned;
    var z := SegmentZeroed(d);
    AssignedIs(d);
    FieldElsewhere(d, z);
    StoredSum(d, z, 0xffff - Folded(PseudoSum(z)));
  }

  lemma FieldInside(d: seq<u8>)
    requires |d| >= 20 && Assigns(d)
    ensures var p, h := FieldAt(d), HeaderLength(d);
      p % 2 == 0 && h % 2 == 0 && h <= p && p + 2 <= TotalLength(d) && d[9] > 0
  {}

  lemma WholeWord(w: u16)
    ensures 0x100 * (w / 0x100) + w % 0x100 == w
  {}

  lemma StoredSum(d: seq<u8>, z: seq<u8>, csum: u16)
    requires |d| >= 20 && TotalLength(d) <= |d| && Assigns(d) && z == SegmentZeroed(d)
    ensures var e := d[FieldAt(d) := csum / 0x100][FieldAt(d) + 1 := csum % 0x100];
      && HeaderLength(e) <= TotalLength(e) <= |e| && HeaderLength(z) <= TotalLength(z) <= |z| && PseudoSum(z) > 0
      && PseudoSum(e) == PseudoSum(z) + (if 12 <= FieldAt(d) < 20 then 2 * csum else csum)
  {
    hide WordSum;
    var p := FieldAt(d);
    var e := d[p := csum / 0x100][p + 1 := csum % 0x100];
    FieldElsewhere(d, z);
    FieldElsewhere(d, e);
    FieldInside(d);
    StoredWords(z, e, HeaderLength(d), TotalLength(d) - HeaderLength(d), p, csum);
  }

  lemma StoredWords(z: seq<u8>, e: seq<u8>, h: nat, n: nat, p: nat, csum: u16)
    requires |z| == |e| >= 20 && p % 2 == 0 && h % 2 == 0 && h <= p && p + 2 <= h + n <= |z|
    requires z[p] == 0 && z[p + 1] == 0 && e[p] == csum / 0x100 && e[p + 1] == csum % 0x100
    requires forall i :: 0 <= i < |z| && i != p && i != p + 1 ==> e[i] == z[i]
    ensures WordSum(e[h..h + n], n, true) + WordSum(e[12..20], 8, true)
         == WordSum(z[h..h + n], n, true) + WordSum(z[12..20], 8, true) + (if 12 <= p < 20 then 2 * csum else csum)
  {
    hide WordSum;
    WholeWord(csum);
    StoredPayload(z, e, h, n, p);
    StoredAddress(z, e, p);
  }

  lemma StoredPayload(z: seq<u8>, e: seq<u8>, h: nat, n: nat, p: nat)
    requires |z| == |e| && p % 2 == 0 && h % 2 == 0 && h <= p && p + 2 <= h + n <= |z|
    requires z[p] == 0 && z[p + 1] == 0
    requires forall i :: 0 <= i < |z| && i != p && i != p + 1 ==> e[i] == z[i]
    ensures WordSum(e[h..h + n], n, true) == WordSum(z[h..h + n], n, true) + 0x100 * e[p] as nat + e[p + 1] as nat
  {
    StoredWord(z[h..h + n], e[h..h + n], p - h, n, true);
  }

  lemma StoredAddress(z: seq<u8>, e: seq<u8>, p: nat)
    requires |z| == |e| >= 20 && p % 2 == 0 && p + 1 < |z|
    requires z[p] == 0 && z[p + 1] == 0
    requires forall i :: 0 <= i < |z| && i != p && i != p + 1 ==> e[i] == z[i]
    ensures WordSum(e[12..20], 8, true) == WordSum(z[12..20], 8, true)
      + (if 12 <= p < 20 then 0x100 * e[p] as nat + e[p + 1] as nat else 0)
  {
    if 12 <= p < 20 {
      StoredWord(z[12..20], e[12..20], p - 12, 8, true);
    } else {
      assert e[12..20] == z[12..20];
    }
  }

  /** The stored checksum is 0, which UDP reads as none at all (RFC 768), if and only if the
      segment sums to all ones with a zero field. */
  lemma ZeroIsStored(d: seq<u8>)
    requires |d| >= 20 && TotalLength(d) <= |d| && Assigns(d)
    ensures var z, e := SegmentZeroed(d), SegmentAssigned(d);
      && HeaderLength(z) <= TotalLength(z)
      && (e[FieldAt(d)] == 0 && e[FieldAt(d) + 1] == 0 <==> Folded(PseudoSum(z)) == 0xffff)
  {
    hide Folded, PseudoSum;
    AssignedIs(d);
  }

  /** An empty UDP datagram whose addresses add up to 0xffe6. */
  lemma ZeroChecksumExists(d: seq<u8>)
    requires |d| == 28 && d[0] == 0x45 && d[3] == 28 && d[9] == PROTO_UDP && d[12] == 0xff && d[13] == 0xe6
    requires forall i :: 0 <= i < 28 && i !in {0, 3, 9, 12, 13} ==> d[i] == 0
    ensures Assigns(d) && SegmentAssigned(d)[26] == 0 && SegmentAssigned(d)[27] == 0
  {
    hide Folded, WordSum;
    var z := SegmentZeroed(d);
    assert z == d;
    ZeroSum(z[20..28], 8);
    OneWord(z[12..20]);
    ZeroIsStored(d);
    FoldedSmall(0xffff);
  }

  lemma {:induction false} ZeroSum(d: seq<u8>, n: nat)
    requires n <= |d| && forall i :: 0 <= i < n ==> d[i] == 0
    ensures WordSum(d, n, true) == 0
  {
    if n != 0 {
      ZeroSum(d, n - 1);
    }
  }

  lemma OneWord(d: seq<u8>)
    requires |d| == 8 && forall i :: 2 <= i < 8 ==> d[i] == 0
    ensures WordSum(d, 8, true) == 0x100 * d[0] as nat + d[1] as nat
  {
    hide WordSum;
    NextByte(d, 0);
    NextByte(d, 1);
    NextByte(d, 2);
    NextByte(d, 3);
    NextByte(d, 4);
    NextByte(d, 5);
    NextByte(d, 6);
    NextByte(d, 7);
  }

  // ----- the length parameter of tcp_checksum.cpp, which the code never looks at

  predicate Agree(d: seq<u8>, e: seq<u8>, i: nat, j: nat) {
    |d| == |e| && j <= |d| && forall k :: i <= k < j ==> d[k] == e[k]
  }

  /** What follows the first `length` bytes of `d` stays as it is, and does not matter to them. */
  ghost predicate Confined(d: seq<u8>, length: nat)
    requires 20 <= length <= |d| && TotalLength(d) <= |d|
  {
    forall e: seq<u8> :: Agree(d, e, 0, length) ==>
      (Agree(SegmentAssigned(d), SegmentAssigned(e), 0, length) && Agree(e, SegmentAssigned(e), length, |d|))
  }

  /** That is so if and only if nothing is written or the total length of the header does not
      exceed the parameter. */
  lemma ConfinedIff(d: seq<u8>, length: nat)
    requires 20 <= length <= |d| && TotalLength(d) <= |d|
    ensures Confined(d, length) <==> !Assigns(d) || TotalLength(d) <= length
  {
    hide SegmentAssigned, PseudoSum;
    if !Assigns(d) || TotalLength(d) <= length {
      forall e: seq<u8> | Agree(d, e, 0, length)
        ensures Agree(SegmentAssigned(d), SegmentAssigned(e), 0, length) && Agree(e, SegmentAssigned(e), length, |d|)
      {
        StaysInside(d, e, length);
      }
    } else if FieldAt(d) + 1 >= length {
      var e := WritesBeyond(d, length);
    } else {
      var e := ReadsBeyond(d, length);
    }
  }

  lemma StaysInside(d: seq<u8>, e: seq<u8>, length: nat)
    requires 20 <= length <= |d| && TotalLength(d) <= |d| && Agree(d, e, 0, length)
    requires !Assigns(d) || TotalLength(d) <= length
    ensures Agree(SegmentAssigned(d), SegmentAssigned(e), 0, length) && Agree(e, SegmentAssigned(e), length, |d|)
  {
    hide PseudoSum, SegmentAssigned;
    if !Assigns(d) {
      NothingAssigned(d);
      NothingAssigned(e);
    } else {
      SameHeader(d, e);
      FieldInside(d);
      AssignedIs(d);
      AssignedIs(e);
      SameSum(d, e);
    }
  }

  lemma SameSum(d: seq<u8>, e: seq<u8>)
    requires |d| >= 20 && Assigns(d) && TotalLength(d) <= |d|
    requires Agree(d, e, 0, 20) && Agree(d, e, 0, TotalLength(d))
    requires Assigns(e) && TotalLength(e) == TotalLength(d)
    ensures var y, z := SegmentZeroed(d), SegmentZeroed(e);
      && HeaderLength(y) <= TotalLength(y) <= |y| && HeaderLength(z) <= TotalLength(z) <= |z|
      && PseudoSum(y) == PseudoSum(z)
  {
    hide PseudoSum, WordSum;
    SameHeader(d, e);
    FieldInside(d);
    var h, n := HeaderLength(d), TotalLength(d);
    var y, z := SegmentZeroed(d), SegmentZeroed(e);
    FieldElsewhere(d, y);
    FieldElsewhere(e, z);
    assert y[h..n] == z[h..n] && y[12..20] == z[12..20];
    PseudoSumOfParts(y, y[h..n], y[12..20]);
    PseudoSumOfParts(z, z[h..n], z[12..20]);
  }

  lemma NothingAssigned(d: seq<u8>)
    requires |d| >= 20 && TotalLength(d) <= |d| && !Assigns(d)
    ensures SegmentAssigned(d) == d
  {}

  /** A field that does not lie inside is overwritten, whatever it held. */
  lemma WritesBeyond(d: seq<u8>, length: nat) returns (e: seq<u8>)
    requires 20 <= length <= |d| && TotalLength(d) <= |d| && Assigns(d) && FieldAt(d) + 1 >= length
    ensures Agree(d, e, 0, length) && TotalLength(e) == TotalLength(d)
    ensures !Agree(e, SegmentAssigned(e), length, |d|)
  {
    hide PseudoSum, SegmentAssigned, Folded;
    FieldInside(d);
    var q := FieldAt(d) + 1;
    var csum := 0xffff - Folded(PseudoSum(SegmentZeroed(d)));
    e := d[q := if csum % 0x100 == 0 then 1 else 0];
    FieldElsewhere(d, e);
    assert SegmentZeroed(e) == SegmentZeroed(d);
    AssignedIs(e);
    assert SegmentAssigned(e)[q] == csum % 0x100 != e[q];
  }

  /** The last byte of the segment counts, wherever it lies. */
  lemma ReadsBeyond(d: seq<u8>, length: nat) returns (e: seq<u8>)
    requires 20 <= length <= |d| && length < TotalLength(d) <= |d| && Assigns(d) && FieldAt(d) + 1 < length
    ensures Agree(d, e, 0, length) && TotalLength(e) == TotalLength(d)
    ensures !Agree(SegmentAssigned(d), SegmentAssigned(e), 0, length)
  {
    hide PseudoSum, SegmentAssigned, Folded;
    FieldInside(d);
    var p, last := FieldAt(d), TotalLength(d) - 1;
    e := d[last := (d[last] as nat + 1) % 0x100];
    SameHeader(d, e);
    FieldElsewhere(d, SegmentZeroed(d));
    FieldElsewhere(e, SegmentZeroed(e));
    AssignedIs(d);
    AssignedIs(e);
    LastByteCounts(SegmentZeroed(d), SegmentZeroed(e));
    var a, b := PseudoSum(SegmentZeroed(d)), PseudoSum(SegmentZeroed(e));
    NearSumsDiffer(a, b);
    WholeWord(0xffff - Folded(a));
    WholeWord(0xffff - Folded(b));
    assert SegmentAssigned(d)[p] != SegmentAssigned(e)[p] || SegmentAssigned(d)[p + 1] != SegmentAssigned(e)[p + 1];
  }

  lemma SameHeader(d: seq<u8>, e: seq<u8>)
    requires |d| >= 20 && Agree(d, e, 0, 20)
    ensures Assigns(e) == Assigns(d) && TotalLength(e) == TotalLength(d)
    ensures HeaderLength(e) == HeaderLength(d) && FieldAt(e) == FieldAt(d)
  {
    assert e[0] == d[0] && e[2] == d[2] && e[3] == d[3] && e[9] == d[9];
  }

  lemma LastByteCounts(y: seq<u8>, z: seq<u8>)
    requires |y| == |z| >= 20 && HeaderLength(y) < TotalLength(y) <= |y| && TotalLength(y) > 20
    requires z == y[TotalLength(y) - 1 := (y[TotalLength(y) - 1] as nat + 1) % 0x100]
    ensures HeaderLength(z) <= TotalLength(z) <= |z|
    ensures PseudoSum(y) < PseudoSum(z) < PseudoSum(y) + 0xffff || PseudoSum(z) < PseudoSum(y) < PseudoSum(z) + 0xffff
  {
    hide WordSum;
    var h, n := HeaderLength(y), TotalLength(y);
    var s, t := y[h..n], z[h..n];
    assert y[12..20] == z[12..20];
    PseudoSumOfParts(y, s, y[12..20]);
    PseudoSumOfParts(z, t, z[12..20]);
    SameBytes(s, t, n - h - 1, true);
    NextByte(s, n - h - 1);
    NextByte(t, n - h - 1);
  }

  lemma NearSumsDiffer(a: nat, b: nat)
    requires a < b < a + 0xffff || b < a < b + 0xffff
    ensures Folded(a) != Folded(b)
  {
    hide Folded;
    var x: int, y: int, f: int, g: int := a, b, Folded(a), Folded(b);
    var q: int := FoldedQuotient(a);
    var r: int := FoldedQuotient(b);
    assert x - y == f - g + 0xffff * (q - r);
  }

  // ----- the covered bytes as one number

  lemma OneMoreWord(d: seq<u8>, n: nat)
    requires n + 2 <= |d| && n % 2 == 0
    ensures WordSum(d, n + 2, true) == WordSum(d, n, true) + (0x100 * d[n] as nat + d[n + 1] as nat)
    ensures BytesValue(d, 0, n + 2) == 0x1_0000 * BytesValue(d, 0, n) + (0x100 * d[n] as nat + d[n + 1] as nat)
  {
    assert WordSum(d, n + 2, true) == WordSum(d, n + 1, true) + d[n + 1] as nat;
    assert BytesValue(d, 0, n + 2) == BytesValue(d, 0, n + 1) * 0x100 + d[n + 1] as nat;
  }

  /** The sum of the words leaves the same remainder as the bytes read as one number. */
  lemma {:induction false} SumIsValue(d: seq<u8>, n: nat)
    requires n <= |d| && n % 2 == 0
    ensures WordSum(d, n, true) <= BytesValue(d, 0, n) && (BytesValue(d, 0, n) - WordSum(d, n, true)) % 0xffff == 0
  {
    hide BytesValue, WordSum;
    if n == 0 {
      NoValue(d);
    } else {
      var m := n - 2;
      SumIsValue(d, m);
      OneMoreWord(d, m);
      var x, y := BytesValue(d, 0, m), WordSum(d, m, true);
      assert BytesValue(d, 0, n) - WordSum(d, n, true) == 0xffff * x + (x - y);
      ModShift(x - y, x);
    }
  }

  lemma NoValue(d: seq<u8>)
    ensures WordSum(d, 0, true) == 0 && BytesValue(d, 0, 0) == 0
  {}

  lemma MultipleIfVerifies(d: seq<u8>, n: nat)
    requires n <= |d| && n % 2 == 0 && Verifies(WordSum(d, n, true))
    ensures BytesValue(d, 0, n) % 0xffff == 0
  {
    hide BytesValue, WordSum;
    SumIsValue(d, n);
    VerifiesIff(WordSum(d, n, true));
    var x, y := BytesValue(d, 0, n), WordSum(d, n, true);
    assert x == (x - y) + 0xffff * (y / 0xffff);
    ModShift(x - y, y / 0xffff);
  }

  /** Bytes 10 and 11 of the header make it, as one number, a multiple of 65535, and they are
      never both 255. */
  lemma IpHeaderIsMultiple(d: seq<u8>)
    requires |d| >= 12 && |d| >= 4 * (d[0] % 16) && d[0] % 16 >= 3
    ensures var e := IpAssigned(d);
      && (forall i :: 0 <= i < |d| && i != 10 && i != 11 ==> e[i] == d[i])
      && BytesValue(e, 0, 4 * (d[0] % 16)) % 0xffff == 0
      && !(e[10] == 0xff && e[11] == 0xff)
  {
    hide BytesValue, Verifies, Folded;
    IpHeaderVerifies(d, true);
    MultipleIfVerifies(IpAssigned(d), 4 * (d[0] % 16));
    FirstByteCounts(IpZeroed(d), 4 * (d[0] % 16));
    FoldedPositive(WordSum(IpZeroed(d), HeaderLength(d), false));
  }

  lemma {:induction false} FirstByteCounts(d: seq<u8>, n: nat)
    requires 1 <= n <= |d| && d[0] > 0
    ensures WordSum(d, n, false) > 0
  {
    if n > 1 {
      FirstByteCounts(d, n - 1);
    } else {
      assert WordSum(d, 1, false) == WordSum(d, 0, false) + d[0] as nat;
    }
  }

  /** Bytes 2 and 3 of a message do the same. */
  lemma IcmpMessageIsMultiple(d: seq<u8>, size: nat)
    requires size % 2 == 0 && 4 <= size <= |d| && size <= 131076
    ensures var e := IcmpAssigned(d, size);
      && (forall i :: 0 <= i < |d| && i != 2 && i != 3 ==> e[i] == d[i])
      && BytesValue(e, 0, size) % 0xffff == 0
  {
    hide BytesValue, Verifies, Folded, WordSum;
    IcmpMessageVerifies(d, size);
    VerifiesInBothOrders(IcmpAssigned(d, size), size, true);
    MultipleIfVerifies(IcmpAssigned(d, size), size);
  }

  lemma {:induction false} SumOfParts(a: seq<u8>, b: seq<u8>, n: nat)
    requires |a| % 2 == 0 && n <= |b|
    ensures WordSum(a + b, |a| + n, true) == WordSum(a, |a|, true) + WordSum(b, n, true)
  {
    if n == 0 {
      SameBytes(a, a + b, |a|, true);
    } else {
      SumOfParts(a, b, n - 1);
      assert |a| + n - 1 == |a| + (n - 1);
    }
  }

  /** The pseudo-header of RFC 768 and RFC 793: addresses, a zero, protocol and length. */
  function PseudoHeader(d: seq<u8>, length: u16): seq<u8>
    requires |d| >= 20
  {
    d[12..20] + [0, d[9], length / 0x100, length % 0x100]
  }

  /** Segment and pseudo-header, an odd last byte followed by a zero. */
  function Covered(d: seq<u8>, h: nat, n: nat): seq<u8>
    requires |d| >= 20 && h <= n <= |d| && n < 0x1_0000
  {
    PseudoHeader(d, n - h) + d[h..n] + (if (n - h) % 2 == 1 then [0] else [])
  }

  lemma CoveredSum(d: seq<u8>)
    requires |d| >= 20 && HeaderLength(d) <= TotalLength(d) <= |d|
    ensures var c := Covered(d, HeaderLength(d), TotalLength(d));
      |c| % 2 == 0 && WordSum(c, |c|, true) == PseudoSum(d)
  {
    hide WordSum, Weight;
    var h, n := HeaderLength(d), TotalLength(d);
    var p, s, z := PseudoHeader(d, n - h), d[h..n], if (n - h) % 2 == 1 then [0] else [];
    SumOfParts(p, s + z, |s + z|);
    assert p + (s + z) == p + s + z;
    HeaderSum(d[12..20], d[9], n - h);
    if (n - h) % 2 == 1 {
      NextByte(s + z, |s|);
    }
    SameBytes(s, s + z, |s|, true);
  }

  lemma HeaderSum(a: seq<u8>, proto: u8, length: u16)
    requires |a| == 8
    ensures var p := a + [0, proto, length / 0x100, length % 0x100];
      WordSum(p, 12, true) == WordSum(a, 8, true) + proto as nat + length as nat
  {
    hide WordSum, Weight;
    var b: seq<u8> := [0, proto, length / 0x100, length % 0x100];
    SumOfParts(a, b, 4);
    NextByte(b, 0);
    NextByte(b, 1);
    NextByte(b, 2);
    NextByte(b, 3);
    WholeWord(length);
  }

  /** Bytes 16 and 17 of a TCP segment, and bytes 6 and 7 of a UDP one, make it with its
      pseudo-header a multiple of 65535. */
  lemma SegmentIsMultiple(d: seq<u8>)
    requires |d| >= 20 && d[0] / 16 == 4 && d[0] % 16 >= 5 && (d[9] == 6 || d[9] == 17)
    requires var h, n := 4 * (d[0] % 16), 0x100 * d[2] as nat + d[3] as nat;
      h + (if d[9] == 6 then 18 else 8) <= n <= |d|
    ensures var h, n := 4 * (d[0] % 16), 0x100 * d[2] as nat + d[3] as nat;
      var e, p := SegmentAssigned(d), h + (if d[9] == 6 then 16 else 6);
      && (forall i :: 0 <= i < |d| && i != p && i != p + 1 ==> e[i] == d[i])
      && BytesValue(Covered(e, h, n), 0, |Covered(e, h, n)|) % 0xffff == 0
  {
    hide BytesValue, Verifies, Folded, WordSum, PseudoSum, Covered, SegmentAssigned;
    assert Assigns(d);
    SegmentVerifies(d);
    AssignedIs(d);
    var e := SegmentAssigned(d);
    FieldElsewhere(d, e);
    CoveredSum(e);
    var c := Covered(e, HeaderLength(e), TotalLength(e));
    MultipleIfVerifies(c, |c|);
  }

  /** Any other packet is left alone. */
  lemma OthersAreLeftAlone(d: seq<u8>)
    requires |d| >= 20 && TotalLength(d) <= |d|
    requires var h, n := 4 * (d[0] % 16), 0x100 * d[2] as nat + d[3] as nat;
      d[0] / 16 != 4 || (d[9] != 6 && d[9] != 17) || n < h + (if d[9] == 6 then 18 else 8)
    ensures SegmentAssigned(d) == d
  {}
}
