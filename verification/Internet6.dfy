/** The 64-to-16-bit folding sums of common/checksum.h and common/ping_body.c against the
    Internet checksum of section 1 of RFC 1071 and section 8.1 of RFC 8200. */
module Internet6 {
  import opened Words
  import opened Checksum

  const ICMPV6 := 58

  // ---------------------------------------------------------------- the standard

  /** The big-endian words of a byte string, an odd last byte padded with zero. */
  function BeWords(b: seq<u8>): seq<u16> {
    if |b| == 0 then []
    else if |b| == 1 then [Pair(b[0], 0)]
    else [Pair(b[0], b[1])] + BeWords(b[2..])
  }

  /** The pseudo header of an ICMPv6 packet: addresses, 32-bit length, zeros, next header. */
  function PseudoHeader(src: seq<u8>, dst: seq<u8>, plen: u16): seq<u8> {
    src + dst + [0, 0, plen / 0x100, plen % 0x100] + [0, 0, 0, ICMPV6]
  }

  /** The receiver accepts the checksum of an ICMPv6 packet. */
  predicate Icmp6Verifies(src: seq<u8>, dst: seq<u8>, plen: u16, payload: seq<u8>) {
    Verifies(BeWords(PseudoHeader(src, dst, plen) + payload))
  }

  // ---------------------------------------------------------------- the code

  function Swap16(x: u16): u16 {
    Pair(x % 0x100, x / 0x100)
  }

  /** The sum of the words get_w loads, an odd last byte standing alone. */
  function LeSum(b: seq<u8>): nat {
    if |b| == 0 then 0
    else if |b| == 1 then b[0]
    else LoadLe(b, 0) + LeSum(b[2..])
  }

  lemma {:induction false} LeSumBound(b: seq<u8>)
    ensures 2 * LeSum(b) <= 0xffff * (|b| + 1)
  {
    if |b| >= 2 {
      LeSumBound(b[2..]);
    }
  }

  lemma {:induction false} LeSumPrefix(b: seq<u8>, i: nat)
    requires 2 * i + 1 < |b|
    ensures LeSum(b[..2 * i + 2]) == LeSum(b[..2 * i]) + LoadLe(b, 2 * i)
  {
    if i > 0 {
      assert b[..2 * i + 2][2..] == b[2..][..2 * i];
      assert b[..2 * i][2..] == b[2..][..2 * i - 2];
      LeSumPrefix(b[2..], i - 1);
    }
  }

  /** soft_checksum: word by word into a 32-bit sum, then the odd byte. */
  method SoftChecksum(buf: seq<u8>) returns (sum: u32)
    requires |buf| <= 0xffff
    ensures sum == LeSum(buf)
  {
    sum := 0;
    for cnt := 0 to |buf| / 2
      invariant sum == LeSum(buf[..2 * cnt]) <= 0xffff * cnt
    {
      LeSumPrefix(buf, cnt);
      sum := sum + LoadLe(buf, 2 * cnt);
    }
    if |buf| % 2 != 0 {
      LeSumLast(buf);
      sum := sum + buf[|buf| - 1];
    } else {
      assert buf[..2 * (|buf| / 2)] == buf;
    }
  }

  lemma {:induction false} LeSumLast(b: seq<u8>)
    requires |b| % 2 == 1
    ensures LeSum(b) == LeSum(b[..|b| - 1]) + b[|b| - 1]
  {
    if |b| > 1 {
      assert b[..|b| - 1][2..] == b[2..][..|b| - 3];
      LeSumLast(b[2..]);
    }
  }

  /** One 32-bit load. */
  function Load32(b: seq<u8>, at: nat): u32
    requires at + 4 <= |b|
  {
    Checksum.Join(LoadLe(b, at + 2), LoadLe(b, at))
  }

  /** pseudo_sum_v6: eight 32-bit words, the raw length field and `IPPROTO_ICMPV6 << 8`. */
  function PseudoSum(src: seq<u8>, dst: seq<u8>, plen: u16): nat
    requires |src| == |dst| == 16
  {
    Load32(src, 0) + Load32(src, 4) + Load32(src, 8) + Load32(src, 12) +
    Load32(dst, 0) + Load32(dst, 4) + Load32(dst, 8) + Load32(dst, 12) +
    Swap16(plen) + 0x100 * ICMPV6
  }

  type u64 = x: nat | x < 0x1_0000_0000_0000_0000

  /** The folding of icmpv6_sum: the four halves of a 64-bit sum, the two halves of that, and
      ADDCARRY. */
  function Fold(q: u64): u16 {
    var s0, s1 := q % 0x1_0000, q / 0x1_0000 % 0x1_0000;
    var s2, s3 := q / 0x1_0000_0000 % 0x1_0000, q / 0x1_0000_0000_0000;
    var l: u32 := s0 + s1 + s2 + s3;
    AddCarry(Lo(l) + Hi(l))
  }

  method Icmpv6Sum(buf: seq<u8>, base: u64) returns (sum: u16)
    requires |buf| <= 0xffff && base < 0x100_0000_0000
    ensures sum == Norm(LeSum(buf) + base)
  {
    var q: u64 := SoftChecksum(buf);
    q := q + base;
    FoldIsNorm(q);
    sum := Fold(q);
  }

  /** get_chksum of the ping code: one fold and a conditional subtraction, complemented.  By
      LeIsSwapped this is the complement of the Internet sum in the byte order of the host. */
  method GetChksum(buf: seq<u8>) returns (r: u16)
    requires |buf| <= 0xffff
    ensures r == 0xffff - Norm(LeSum(buf))
  {
    var sum := SoftChecksum(buf);
    ghost var folded := FoldTwo(sum);
    sum := Lo(sum) + Hi(sum);
    if sum > 0xffff {
      sum := sum - 0xffff;
    }
    LowHalf(folded);
    r := 0xffff - Lo(sum);
  }

  lemma LowHalf(x: u16)
    ensures Lo(x) == x
  {}

  // ---------------------------------------------------------------- residues

  /** Folding 32 bits by adding the halves and subtracting a carry. */
  lemma FoldTwo(n: u32) returns (r: u16)
    ensures r == AddCarry(Lo(n) + Hi(n)) == Norm(n)
  {
    r := AddCarry(Lo(n) + Hi(n));
    assert n == Hi(n) * 0x1_0000 + Lo(n);
    NormBy(n, r, Hi(n) + if Lo(n) + Hi(n) > 65535 then 1 else 0);
  }

  lemma Quarters(q: nat, a: nat, b: nat)
    requires a == q / 0x1_0000 && b == a / 0x1_0000
    ensures q == q % 0x1_0000 + 0x1_0000 * a && a == a % 0x1_0000 + 0x1_0000 * b
    ensures q / 0x1_0000_0000 == b && q / 0x1_0000_0000_0000 == b / 0x1_0000
  {}

  lemma FoldIsNorm(q: u64)
    ensures Fold(q) == Norm(q)
  {
    var a := q / 0x1_0000;
    var b := a / 0x1_0000;
    Quarters(q, a, b);
    QuarterSum(q, q % 0x1_0000, a % 0x1_0000, b % 0x1_0000, b / 0x1_0000);
  }

  lemma QuarterSum(q: nat, s0: u16, s1: u16, s2: u16, s3: u16)
    requires q == s0 + 0x1_0000 * (s1 + 0x1_0000 * (s2 + 0x1_0000 * s3))
    ensures var l: u32 := s0 + s1 + s2 + s3;
            AddCarry(Lo(l) + Hi(l)) == Norm(q)
  {
    var l: u32 := s0 + s1 + s2 + s3;
    var r := FoldTwo(l);
    NormAgrees(q, l, s1 + 0x1_0001 * s2 + 0x1_0001_0001 * s3);
  }

  lemma SwapExact(r: u16)
    ensures var n: nat := r; 0x100 * n == Swap16(r) + (n / 0x100) * 0xffff
    ensures Swap16(r) == 0 <==> r == 0
  {}

  lemma SwapOfNorm(n: nat)
    ensures Swap16(Norm(n)) == Norm(0x100 * n)
  {
    var r := Norm(n);
    var k := NormExact(n);
    SwapExact(r);
    NormBy(0x100 * n, Swap16(r), r / 0x100 + 0x100 * k);
  }

  lemma {:induction false} LeAgainstBe(b: seq<u8>) returns (k: int)
    ensures 0x100 * Sum(BeWords(b)) == LeSum(b) + k * 0xffff
    ensures Sum(BeWords(b)) == 0 <==> LeSum(b) == 0
  {
    if |b| == 0 {
      k := 0;
    } else if |b| == 1 {
      assert BeWords(b)[1..] == [];
      k := b[0];
    } else {
      var j := LeAgainstBe(b[2..]);
      assert BeWords(b)[1..] == BeWords(b[2..]);
      k := j + b[0];
    }
  }

  /** Byte-order independence (section 2 of RFC 1071): folding little-endian words gives the
      byte-swapped Internet sum, whatever the length. */
  lemma LeIsSwapped(b: seq<u8>)
    ensures Norm(LeSum(b)) == Swap16(OnesSum(BeWords(b)))
  {
    OnesSumIsNorm(BeWords(b));
    SwapOfNorm(Sum(BeWords(b)));
    var k := LeAgainstBe(b);
    NormAgrees(0x100 * Sum(BeWords(b)), LeSum(b), k);
  }

  lemma {:induction false} LeSumAppend(a: seq<u8>, b: seq<u8>)
    requires |a| % 2 == 0
    ensures LeSum(a + b) == LeSum(a) + LeSum(b)
  {
    if a == [] {
      assert a + b == b;
    } else {
      assert (a + b)[2..] == a[2..] + b;
      LeSumAppend(a[2..], b);
    }
  }

  lemma LeSumStep(b: seq<u8>, i: nat)
    requires i + 4 <= |b|
    ensures LeSum(b[i..]) == LoadLe(b, i) + LoadLe(b, i + 2) + LeSum(b[i + 4..])
  {}

  lemma AddressSum(b: seq<u8>) returns (k: nat)
    requires |b| == 16
    ensures Load32(b, 0) + Load32(b, 4) + Load32(b, 8) + Load32(b, 12) == LeSum(b) + k * 0xffff
  {
    LeSumStep(b, 0);
    LeSumStep(b, 4);
    LeSumStep(b, 8);
    LeSumStep(b, 12);
    assert b[0..] == b && b[16..] == [];
    k := LoadLe(b, 2) + LoadLe(b, 6) + LoadLe(b, 10) + LoadLe(b, 14);
  }

  lemma TailSum(plen: u16)
    ensures LeSum([0, 0, plen / 0x100, plen % 0x100]) == Swap16(plen)
    ensures LeSum([0, 0, 0, ICMPV6]) == 0x100 * ICMPV6
  {
    LeSumStep([0, 0, plen / 0x100, plen % 0x100], 0);
    LeSumStep([0, 0, 0, ICMPV6], 0);
  }

  lemma PseudoHeaderSum(src: seq<u8>, dst: seq<u8>, plen: u16) returns (k: nat)
    requires |src| == |dst| == 16
    ensures PseudoSum(src, dst, plen) == LeSum(PseudoHeader(src, dst, plen)) + k * 0xffff
    ensures LeSum(PseudoHeader(src, dst, plen)) > 0 && |PseudoHeader(src, dst, plen)| == 40
  {
    var len, next: seq<u8> := [0, 0, plen / 0x100, plen % 0x100], [0, 0, 0, ICMPV6];
    LeSumAppend(src + dst + len, next);
    LeSumAppend(src + dst, len);
    LeSumAppend(src, dst);
    TailSum(plen);
    var i := AddressSum(src);
    var j := AddressSum(dst);
    k := i + j;
  }

  // ---------------------------------------------------------------- main results

  lemma PseudoSumBound(src: seq<u8>, dst: seq<u8>, plen: u16)
    requires |src| == |dst| == 16
    ensures PseudoSum(src, dst, plen) < 0x100_0000_0000
  {}

  /** The sum check_valid_ns computes is the byte-swapped Internet sum over pseudo header and
      payload, for every payload length, odd ones included, with no overflow on the way. */
  lemma Icmp6SumIsInternetSum(src: seq<u8>, dst: seq<u8>, plen: u16, payload: seq<u8>, base: nat)
    requires |src| == |dst| == 16 && |payload| <= 0xffff
    requires base == PseudoSum(src, dst, plen)
    ensures base < 0x100_0000_0000 && LeSum(payload) < 0x1_0000_0000
    ensures Norm(LeSum(payload) + base)
         == Swap16(OnesSum(BeWords(PseudoHeader(src, dst, plen) + payload)))
  {
    PseudoSumBound(src, dst, plen);
    var k := PseudoHeaderSum(src, dst, plen);
    SumOverBoth(PseudoHeader(src, dst, plen), base, k, payload);
  }

  lemma SumOverBoth(pseudo: seq<u8>, base: nat, k: nat, payload: seq<u8>)
    requires |pseudo| == 40 && LeSum(pseudo) > 0 && base == LeSum(pseudo) + k * 0xffff
    requires base < 0x100_0000_0000 && |payload| <= 0xffff
    ensures LeSum(payload) < 0x1_0000_0000
    ensures Norm(LeSum(payload) + base) == Swap16(OnesSum(BeWords(pseudo + payload)))
  {
    LeSumBound(payload);
    LeSumAppend(pseudo, payload);
    NormAgrees(LeSum(payload) + base, LeSum(pseudo + payload), k);
    LeIsSwapped(pseudo + payload);
  }

  /** The test `sum != 0xffff` of check_valid_ns is verification by section 8.1 of RFC 8200. */
  lemma Icmp6TestIsVerification(src: seq<u8>, dst: seq<u8>, plen: u16, payload: seq<u8>, base: nat)
    requires |src| == |dst| == 16 && |payload| <= 0xffff
    requires base == PseudoSum(src, dst, plen)
    ensures base < 0x100_0000_0000
    ensures Norm(LeSum(payload) + base) == 0xffff <==> Icmp6Verifies(src, dst, plen, payload)
  {
    Icmp6SumIsInternetSum(src, dst, plen, payload, base);
    SwapOfOnes(OnesSum(BeWords(PseudoHeader(src, dst, plen) + payload)));
  }

  lemma SwapOfOnes(s: u16)
    ensures Swap16(s) == 0xffff <==> s == 0xffff
  {}

  /** Storing the complement of the sum into a zero checksum field makes a sender's packet
      verify. */
  lemma ComplementVerifies(q: nat)
    ensures Norm(q + (0xffff - Norm(q))) == 0xffff
  {
    var k := NormExact(q);
    NormBy(q + (0xffff - Norm(q)), 0xffff, k);
  }

  /** Verification in plain arithmetic: the 16-bit words of both addresses and of the payload, the
      payload length and 58 sum to a multiple of 0xffff. */
  lemma VerifiesByWords(src: seq<u8>, dst: seq<u8>, plen: u16, payload: seq<u8>)
    requires |src| == |dst| == 16
    ensures Icmp6Verifies(src, dst, plen, payload) <==>
              IsMultiple(Sum(BeWords(src)) + Sum(BeWords(dst)) + plen + 58 + Sum(BeWords(payload)))
  {
    var len, next: seq<u8> := [0, 0, plen / 0x100, plen % 0x100], [0, 0, 0, ICMPV6];
    BeAppend(src + dst + len + next, payload, 20);
    BeAppend(src + dst + len, next, 18);
    BeAppend(src + dst, len, 16);
    BeAppend(src, dst, 8);
    TailWords(plen);
    var ws := BeWords(PseudoHeader(src, dst, plen) + payload);
    VerifiesIff(ws);
    MultipleIsModulo(Sum(ws));
  }

  lemma TailWords(plen: u16)
    ensures Sum(BeWords([0, 0, plen / 0x100, plen % 0x100])) == plen
    ensures Sum(BeWords([0, 0, 0, ICMPV6])) == 58
  {
    TwoWords(0, 0, plen / 0x100, plen % 0x100);
    TwoWords(0, 0, 0, 58);
  }

  lemma TwoWords(a: u8, b: u8, c: u8, d: u8)
    ensures Sum(BeWords([a, b, c, d])) == 0x100 * a + b + (0x100 * c + d)
  {
    assert [a, b, c, d][2..] == [c, d];
    assert BeWords([c, d]) == [Pair(c, d)] + BeWords([]);
    assert BeWords([a, b, c, d]) == [Pair(a, b), Pair(c, d)];
    SumOfTwo(Pair(a, b), Pair(c, d));
  }

  lemma SumOfTwo(x: nat, y: nat)
    ensures Sum([x, y]) == x + y
  {
    var both, last: seq<nat> := [x, y], [y];
    assert both[1..] == last && last[1..] == [];
    assert Sum(last) == y;
  }

  lemma BeFirst(a: seq<u8>, b: seq<u8>)
    requires |a| >= 2
    ensures BeWords(a + b) == [Pair(a[0], a[1])] + BeWords(a[2..] + b)
    ensures BeWords(a) == [Pair(a[0], a[1])] + BeWords(a[2..])
  {
    assert (a + b)[2..] == a[2..] + b;
  }

  lemma {:induction false} BeConcat(a: seq<u8>, b: seq<u8>, k: nat)
    requires |a| == 2 * k
    ensures BeWords(a + b) == BeWords(a) + BeWords(b)
  {
    if k == 0 {
      assert a + b == b;
    } else {
      BeConcat(a[2..], b, k - 1);
      BeFirst(a, b);
    }
  }

  lemma BeAppend(a: seq<u8>, b: seq<u8>, k: nat)
    requires |a| == 2 * k
    ensures Sum(BeWords(a + b)) == Sum(BeWords(a)) + Sum(BeWords(b))
  {
    BeConcat(a, b, k);
    SumAppend(BeWords(a), BeWords(b));
  }
}
