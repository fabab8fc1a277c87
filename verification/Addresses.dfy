/** What the front asks of an address, once for IPv4 and once for IPv6 (common/util_inline.h,
    common/checksum.h).  Words are those a little-endian host loads from network order. */
module Addresses {
  import opened Words
  import opened Bits
  import Checksum

  const DIVISOR := 4096

  const MASK := DIVISOR - 1

  /** The operations the policy engine needs; `delta` is the checksum delta from the virtual
      address to a backend address. */
  datatype Family<!A> = Family(hash: A -> nat, masked: (A, A) -> A, zero: A, delta: A -> u16)

  ghost predicate HashesBelow<A(!new)>(f: Family<A>, divisor: nat) {
    forall a: A :: f.hash(a) < divisor
  }

  // ---------------------------------------------------------------- IPv4

  datatype Ip4 = Ip4(w: u32)

  function IpHashCode4(addr: Ip4, mask: nat): (h: nat)
    ensures h <= mask
  {
    var tmp1 := Byte(addr.w, 0) + Byte(addr.w, 3);
    var tmp2 := Byte(addr.w, 1) + Byte(addr.w, 2);
    And(0x100 * tmp2 + tmp1, mask)
  }

  function Hash4(a: Ip4): (h: nat)
    ensures h < DIVISOR
  {
    IpHashCode4(a, MASK)
  }

  function Masked4(a: Ip4, m: Ip4): Ip4 {
    Ip4(And(a.w, m.w))
  }

  /** calc_chksum_delta; ntohl brings the addresses to host order. */
  function Delta4(old4: Ip4, new4: Ip4): u16 {
    Checksum.Delta(Swap32(old4.w), Swap32(new4.w))
  }

  function Family4(vip: Ip4): Family<Ip4> {
    Family(Hash4,
           Masked4,
           Ip4(0),
           (a: Ip4) => Delta4(vip, a))
  }

  // ---------------------------------------------------------------- IPv6

  datatype Ip6 = Ip6(w0: u32, w1: u32, w2: u32, w3: u32)

  function IpHashCode6(addr: Ip6, mask: nat): (h: nat)
    ensures h <= mask
  {
    var hash: u32 := (addr.w0 + addr.w1 + addr.w2 + addr.w3) % 0x1_0000_0000;
    And((hash + hash / 0x1_0000 + hash / 0x100_0000) % 0x1_0000_0000, mask)
  }

  function MaskIpv6(ip: Ip6, mask: Ip6): Ip6 {
    Ip6(And(ip.w0, mask.w0), And(ip.w1, mask.w1), And(ip.w2, mask.w2), And(ip.w3, mask.w3))
  }

  function Hash6(a: Ip6): (h: nat)
    ensures h < DIVISOR
  {
    IpHashCode6(a, MASK)
  }

  /** IPv6 headers carry no checksum, so there is no delta. */
  function Family6(): Family<Ip6> {
    Family(Hash6,
           MaskIpv6,
           Ip6(0, 0, 0, 0),
           (a: Ip6) => 0)
  }

  lemma Hashes4(vip: Ip4)
    ensures HashesBelow(Family4(vip), DIVISOR)
  {}

  lemma Hashes6()
    ensures HashesBelow(Family6(), DIVISOR)
  {}

  /** A rule configured with an address and a mask stores the masked address; it matches a
      source exactly when the two agree on every bit of the mask, contiguous or not. */
  lemma RuleMatches4(vip: Ip4, source: Ip4, configured: Ip4, mask: Ip4)
    ensures var f := Family4(vip);
            f.masked(source, mask) == f.masked(configured, mask) <==>
            AgreeOn(source.w, configured.w, mask.w)
  {
    MaskSelects(source.w, configured.w, mask.w);
  }

  lemma RuleMatches6(source: Ip6, configured: Ip6, mask: Ip6)
    ensures var f := Family6();
            f.masked(source, mask) == f.masked(configured, mask) <==>
            (AgreeOn(source.w0, configured.w0, mask.w0) &&
             AgreeOn(source.w1, configured.w1, mask.w1) &&
             AgreeOn(source.w2, configured.w2, mask.w2) &&
             AgreeOn(source.w3, configured.w3, mask.w3))
  {
    MaskSelects(source.w0, configured.w0, mask.w0);
    MaskSelects(source.w1, configured.w1, mask.w1);
    MaskSelects(source.w2, configured.w2, mask.w2);
    MaskSelects(source.w3, configured.w3, mask.w3);
  }

  /** The hashes with their arithmetic written out: byte sums modulo 4096, and for IPv6 the word
      sum folded by its upper half and its top byte. */
  lemma Hash4Exact(a: Ip4)
    ensures Family4(Ip4(0)).hash(a)
         == (0x100 * (Byte(a.w, 1) + Byte(a.w, 2)) + Byte(a.w, 0) + Byte(a.w, 3)) % 4096
  {
    MaskIsModulo(0x100 * (Byte(a.w, 1) + Byte(a.w, 2)) + (Byte(a.w, 0) + Byte(a.w, 3)));
  }

  lemma Hash6Exact(a: Ip6)
    ensures var sum := (a.w0 + a.w1 + a.w2 + a.w3) % 0x1_0000_0000;
            Family6().hash(a) == (sum + sum / 0x1_0000 + sum / 0x100_0000) % 0x1_0000_0000 % 4096
  {
    var sum: u32 := (a.w0 + a.w1 + a.w2 + a.w3) % 0x1_0000_0000;
    MaskIsModulo((sum + sum / 0x1_0000 + sum / 0x100_0000) % 0x1_0000_0000);
  }

  lemma MaskIsModulo(x: nat)
    ensures And(x, MASK) == x % 4096
  {
    assert Pow2(6) == 64;
    assert Pow2(12) == 64 * Pow2(6) by {
      assert Pow2(9) == 8 * Pow2(6);
    }
    var q := LowBits(x, 12, 4096);
  }
}
