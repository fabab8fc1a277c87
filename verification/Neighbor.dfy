/** Neighbor Discovery of the translators: validation of solicitations (common/arp_proc.c
    check_valid_ns) and construction of advertisements (send_icmp6_na, and send_na_body of
    back/mac_resolution.c). */
module Neighbor {
  import opened Words
  import opened Checksum
  import opened Internet6

  // ---------------------------------------------------------------- options

  function Octets(units: u8): nat {
    var n: nat := units;
    8 * n
  }

  /** One option of section 4.6 of RFC 4861: its second byte counts its 8-octet units. */
  ghost predicate IsOption(o: seq<u8>) {
    |o| >= 8 && |o| == Octets(o[1])
  }

  function Concat(parts: seq<seq<u8>>): seq<u8> {
    if parts == [] then [] else parts[0] + Concat(parts[1..])
  }

  ghost predicate Splits(area: seq<u8>, parts: seq<seq<u8>>) {
    Concat(parts) == area && forall i :: 0 <= i < |parts| ==> IsOption(parts[i])
  }

  /** The area is options from end to end, none of length zero (section 7.1.1 of RFC 4861). */
  ghost predicate WellFormedOptions(area: seq<u8>) {
    exists parts :: Splits(area, parts)
  }

  lemma NoOptions()
    ensures WellFormedOptions([])
  {
    assert Splits([], []);
  }

  /** A non-empty area is well formed exactly when its first option is there in full and what
      follows it is well formed. */
  lemma FirstOption(area: seq<u8>)
    requires area != []
    ensures WellFormedOptions(area) <==>
              (|area| >= 8 && 0 < Octets(area[1]) <= |area| && WellFormedOptions(area[Octets(area[1])..]))
  {
    if WellFormedOptions(area) {
      var parts :| Splits(area, parts);
      assert parts != [] && IsOption(parts[0]) && area == parts[0] + Concat(parts[1..]);
      assert area[1] == parts[0][1] && area[Octets(area[1])..] == Concat(parts[1..]);
      assert Splits(area[Octets(area[1])..], parts[1..]);
    }
    if |area| >= 8 && 0 < Octets(area[1]) <= |area| && WellFormedOptions(area[Octets(area[1])..]) {
      var n := Octets(area[1]);
      var rest :| Splits(area[n..], rest);
      var parts := [area[..n]] + rest;
      assert parts[1..] == rest && area == area[..n] + area[n..];
      assert IsOption(area[..n]);
      assert Splits(area, parts);
    }
  }

  /** The option walk of check_valid_ns. */
  method WalkOptions(area: seq<u8>) returns (ok: bool)
    ensures ok <==> WellFormedOptions(area)
  {
    var opt := 0;
    var optlen := |area|;
    while optlen != 0
      invariant optlen == |area| - opt >= 0
      invariant WellFormedOptions(area) <==> WellFormedOptions(area[opt..])
      decreases optlen
    {
      FirstOption(area[opt..]);
      if optlen < 8 || area[opt + 1] == 0 {
        return false;
      }
      var len := Octets(area[opt + 1]);
      if len > optlen {
        return false;
      }
      assert area[opt..][len..] == area[opt + len..];
      opt := opt + len;
      optlen := optlen - len;
    }
    NoOptions();
    assert area[opt..] == [];
    ok := true;
  }

  // ---------------------------------------------------------------- solicitations

  const ND_NEIGHBOR_ADVERT: u8 := 136

  /** Length of a solicitation or advertisement without options. */
  const ND_SIZE := 24

  predicate AllZero(b: seq<u8>) {
    forall i :: 0 <= i < |b| ==> b[i] == 0
  }

  /** The fields of an IPv6 header at their places. */
  function PlenOf(ip6: seq<u8>): u16
    requires |ip6| == 40
  {
    Pair(ip6[4], ip6[5])
  }

  /** What a solicitation must be to be answered: checks of section 7.1.1 of RFC 4861, and a
      unicast target that is ours unless we proxy for others. */
  ghost predicate ValidNs(ip6: seq<u8>, icmp: seq<u8>, optlen: nat, ours: seq<u8>, proxy: bool)
    requires |ip6| == 40 && |icmp| >= ND_SIZE + optlen && PlenOf(ip6) <= |icmp|
  {
    && !AllZero(ip6[8..24])
    && ip6[7] == 255 && icmp[1] == 0
    && Icmp6Verifies(ip6[8..24], ip6[24..40], PlenOf(ip6), icmp[..PlenOf(ip6)])
    && icmp[8] != 0xff && (proxy || icmp[8..24] == ours)
    && WellFormedOptions(icmp[ND_SIZE..ND_SIZE + optlen])
  }

  /** The checksum check of check_valid_ns. */
  method ChecksumOk(src: seq<u8>, dst: seq<u8>, plen: u16, payload: seq<u8>) returns (ok: bool)
    requires |src| == |dst| == 16 && |payload| <= 0xffff
    ensures ok <==> Icmp6Verifies(src, dst, plen, payload)
  {
    var base := PseudoSum(src, dst, plen);
    Icmp6TestIsVerification(src, dst, plen, payload, base);
    var sum := Icmpv6Sum(payload, base);
    ok := sum == 0xffff;
  }

  lemma StoredChecksumVerifies(src: seq<u8>, dst: seq<u8>, plen: u16, zeroed: nat, p: seq<u8>,
                               cksum: u16, base: nat)
    requires |src| == |dst| == 16 && |p| <= 0xffff
    requires base == PseudoSum(src, dst, plen) && cksum == 0xffff - Norm(zeroed + base)
    requires LeSum(p) == zeroed + cksum
    ensures Icmp6Verifies(src, dst, plen, p)
  {
    ComplementVerifies(zeroed + base);
    Icmp6TestIsVerification(src, dst, plen, p, base);
  }

  /** check_valid_ns: `icmp` is the memory behind the IPv6 header, `optlen` the length of the
      frame behind the fixed part of the solicitation.  The payload length may pass the frame;
      the checksum then covers what lies there. */
  method CheckValidNs(ip6: seq<u8>, icmp: seq<u8>, optlen: nat, ours: seq<u8>, proxy: bool)
    returns (r: int)
    requires |ip6| == 40 && |icmp| >= ND_SIZE + optlen && PlenOf(ip6) <= |icmp|
    ensures r == 0 || r == -1
    ensures r == 0 <==> ValidNs(ip6, icmp, optlen, ours, proxy)
  {
    if AllZero(ip6[8..24]) {
      return -1;
    }
    if ip6[7] != 255 || icmp[1] != 0 {
      return -1;
    }
    var plen := PlenOf(ip6);
    var verified := ChecksumOk(ip6[8..24], ip6[24..40], plen, icmp[..plen]);
    if !verified {
      return -1;
    }
    if icmp[8] == 0xff || (!proxy && icmp[8..24] != ours) {
      return -1;
    }
    var ok := WalkOptions(icmp[ND_SIZE..ND_SIZE + optlen]);
    r := if ok then 0 else -1;
  }

  // ---------------------------------------------------------------- advertisements

  function Ip6Header(src: seq<u8>, dst: seq<u8>, plen: u8): seq<u8> {
    [0x60, 0, 0, 0] + [0, plen, ICMPV6, 255] + src + dst
  }

  /** The advertisement with the checksum field as given: solicited, overriding and carrying
      the link address when the solicitation came by multicast. */
  function Advert(cksum: u16, target: seq<u8>, mac: seq<u8>, mcast: bool): seq<u8> {
    [ND_NEIGHBOR_ADVERT, 0, cksum % 0x100, cksum / 0x100, if mcast then 0x60 else 0x40, 0, 0, 0] +
    target + if mcast then [2, 1] + mac else []
  }

  lemma ChecksumFieldAdds(cksum: u16, target: seq<u8>, mac: seq<u8>, mcast: bool)
    ensures LeSum(Advert(cksum, target, mac, mcast)) == LeSum(Advert(0, target, mac, mcast)) + cksum
  {
    var a, z := Advert(cksum, target, mac, mcast), Advert(0, target, mac, mcast);
    LeSumStep(a, 0);
    LeSumStep(z, 0);
    assert a[0..] == a && z[0..] == z && a[4..] == z[4..];
  }

  lemma AdvertOptions(cksum: u16, target: seq<u8>, mac: seq<u8>, mcast: bool)
    requires |target| == 16 && |mac| == 6
    ensures WellFormedOptions(Advert(cksum, target, mac, mcast)[ND_SIZE..])
  {
    NoOptions();
    var area := Advert(cksum, target, mac, mcast)[ND_SIZE..];
    if mcast {
      assert area == [2, 1] + mac;
      FirstOption(area);
      assert area[8..] == [];
    } else {
      assert area == [];
    }
  }

  /** An advertisement that verifies passes every check of check_valid_ns made for the address
      it advertises, unless that address is unspecified or multicast. */
  lemma AdvertIsValid(ip6: seq<u8>, icmp: seq<u8>, cksum: u16, source: seq<u8>, asker: seq<u8>,
                      mac: seq<u8>, mcast: bool)
    requires |mac| == 6 && |source| == |asker| == 16
    requires icmp == Advert(cksum, source, mac, mcast)
    requires ip6 == Ip6Header(source, asker, if mcast then 32 else 24)
    requires Icmp6Verifies(source, asker, |icmp|, icmp)
    ensures |ip6| == 40 && |icmp| == PlenOf(ip6) >= ND_SIZE
    ensures ValidNs(ip6, icmp, |icmp| - ND_SIZE, source, false) <==> !AllZero(source) && source[0] != 0xff
  {
    AdvertOptions(cksum, source, mac, mcast);
    assert ip6[8..24] == source && ip6[24..40] == asker && icmp[8..24] == source;
    assert icmp[..|icmp|] == icmp;
    assert icmp[ND_SIZE..ND_SIZE + (|icmp| - ND_SIZE)] == icmp[ND_SIZE..];
  }

  /** memcpy into a frame. */
  method Copy(frame: array<u8>, at: nat, bytes: seq<u8>)
    requires at + |bytes| <= frame.Length
    modifies frame
    ensures frame[at..at + |bytes|] == bytes
    ensures forall a, b :: (0 <= a <= b <= at || at + |bytes| <= a <= b <= frame.Length) ==>
              frame[a..b] == old(frame[a..b])
  {
    for i := 0 to |bytes|
      invariant frame[at..at + i] == bytes[..i]
      invariant frame[..at] == old(frame[..at])
      invariant frame[at + i..] == old(frame[at + i..])
    {
      frame[at + i] := bytes[i];
    }
  }

  /** The checksum of an advertisement whose checksum field is still zero. */
  method AdvertChecksum(src: seq<u8>, dst: seq<u8>, zeroed: seq<u8>, mac: seq<u8>, mcast: bool)
    returns (cksum: u16)
    requires |mac| == 6 && |src| == |dst| == 16 && zeroed == Advert(0, src, mac, mcast)
    ensures Icmp6Verifies(src, dst, |zeroed|, Advert(cksum, src, mac, mcast))
  {
    var base := PseudoSum(src, dst, |zeroed|);
    PseudoSumBound(src, dst, |zeroed|);
    var sum := Icmpv6Sum(zeroed, base);
    cksum := 0xffff - sum;
    ChecksumFieldAdds(cksum, src, mac, mcast);
    StoredChecksumVerifies(src, dst, |zeroed|, LeSum(zeroed), Advert(cksum, src, mac, mcast), cksum, base);
  }

  function Headers(to: seq<u8>, mac: seq<u8>, source: seq<u8>, asker: seq<u8>, plen: u8): seq<u8> {
    to + mac + [0x86, 0xdd] + Ip6Header(source, asker, plen)
  }

  method WriteHeaders(frame: array<u8>, to: seq<u8>, mac: seq<u8>, source: seq<u8>, asker: seq<u8>,
                      plen: u8)
    requires |to| == |mac| == 6 && |source| == |asker| == 16 && frame.Length >= 54
    modifies frame
    ensures frame[0..54] == Headers(to, mac, source, asker, plen)
  {
    Copy(frame, 0, to);
    Copy(frame, 6, mac);
    Copy(frame, 12, [0x86, 0xdd]);
    Copy(frame, 14, Ip6Header(source, asker, plen));
    assert frame[0..54] == frame[0..6] + frame[6..12] + frame[12..14] + frame[14..54];
  }

  /** The frame both senders build, for the address `source` and the node `asker` that asked;
      `len` bytes of it go to the network. */
  method BuildAdvert(to: seq<u8>, mac: seq<u8>, source: seq<u8>, asker: seq<u8>, mcast: bool)
    returns (frame: array<u8>, len: nat, cksum: u16)
    requires |to| == |mac| == 6 && |source| == |asker| == 16
    ensures fresh(frame) && frame.Length == 86 && len == if mcast then 86 else 78
    ensures frame[0..54] == Headers(to, mac, source, asker, if mcast then 32 else 24)
    ensures frame[54..len] == Advert(cksum, source, mac, mcast)
    ensures Icmp6Verifies(source, asker, len - 54, frame[54..len])
  {
    frame := new u8[86](_ => 0);
    var plen: u8 := if mcast then 32 else 24;
    len := if mcast then 86 else 78;
    WriteHeaders(frame, to, mac, source, asker, plen);
    Copy(frame, 54, Advert(0, source, mac, mcast));
    ghost var zeroed := Advert(0, source, mac, mcast);
    assert frame[54..len] == zeroed;
    assert frame[54..56] == zeroed[0..2] && frame[58..len] == zeroed[4..];
    cksum := AdvertChecksum(source, asker, frame[54..len], mac, mcast);
    Copy(frame, 56, [cksum % 0x100, cksum / 0x100]);
    FieldInPlace(frame[54..len], frame[54..56], frame[56..58], frame[58..len],
                 cksum, source, mac, mcast);
  }

  lemma FieldInPlace(b: seq<u8>, head: seq<u8>, field: seq<u8>, tail: seq<u8>,
                     cksum: u16, target: seq<u8>, mac: seq<u8>, mcast: bool)
    requires b == head + field + tail
    requires head == Advert(0, target, mac, mcast)[0..2]
    requires field == [cksum % 0x100, cksum / 0x100]
    requires tail == Advert(0, target, mac, mcast)[4..]
    ensures b == Advert(cksum, target, mac, mcast)
  {}

  /** send_icmp6_na: the answer advertises our own virtual address. */
  method SendIcmp6Na(to: seq<u8>, mac: seq<u8>, vip6: seq<u8>, asker: seq<u8>, mcast: bool)
    returns (sent: seq<u8>)
    requires |to| == |mac| == 6 && |vip6| == |asker| == 16
    ensures |sent| == (if mcast then 86 else 78) && PlenOf(sent[14..54]) == |sent| - 54
    ensures sent[..54] == Headers(to, mac, vip6, asker, if mcast then 32 else 24)
    ensures exists c: u16 :: sent[54..] == Advert(c, vip6, mac, mcast)
    ensures Icmp6Verifies(vip6, asker, |sent| - 54, sent[54..])
    ensures WellFormedOptions(sent[54 + ND_SIZE..])
    ensures ValidNs(sent[14..54], sent[54..], |sent| - 54 - ND_SIZE, vip6, false) <==>
              !AllZero(vip6) && vip6[0] != 0xff
  {
    var frame, len, cksum := BuildAdvert(to, mac, vip6, asker, mcast);
    sent := frame[..len];
    assert sent[..54] == frame[0..54] && sent[54..] == frame[54..len];
    assert sent[14..54] == sent[..54][14..] == Ip6Header(vip6, asker, if mcast then 32 else 24);
    AdvertIsValid(sent[14..54], sent[54..], cksum, vip6, asker, mac, mcast);
    AdvertOptions(cksum, vip6, mac, mcast);
    assert sent[54..][ND_SIZE..] == sent[54 + ND_SIZE..];
  }

  /** send_na_body: the answer advertises the target itself; a multicast solicitation is
      answered only when the last three bytes of its Ethernet group match those of the target. */
  method SendNaBody(group: seq<u8>, to: seq<u8>, mac: seq<u8>, target: seq<u8>, asker: seq<u8>,
                    mcast: bool)
    returns (sent: Option<seq<u8>>)
    requires |group| == |to| == |mac| == 6 && |target| == |asker| == 16
    ensures sent.None? <==> mcast && group[3..] != target[13..]
    ensures sent.Some? ==>
              && |sent.value| == (if mcast then 86 else 78)
              && PlenOf(sent.value[14..54]) == |sent.value| - 54
              && sent.value[..54] == Headers(to, mac, target, asker, if mcast then 32 else 24)
              && (exists c: u16 :: sent.value[54..] == Advert(c, target, mac, mcast))
              && Icmp6Verifies(target, asker, |sent.value| - 54, sent.value[54..])
              && WellFormedOptions(sent.value[54 + ND_SIZE..])
              && (ValidNs(sent.value[14..54], sent.value[54..], |sent.value| - 54 - ND_SIZE, target, false) <==>
                   !AllZero(target) && target[0] != 0xff)
  {
    if mcast && (group[3] != target[13] || group[4] != target[14] || group[5] != target[15]) {
      return None;
    }
    var frame := SendIcmp6Na(to, mac, target, asker, mcast);
    sent := Some(frame);
  }

  // ---------------------------------------------------------------- octet by octet

  /** What goes on the wire, octet by octet: to the asker's hardware address from ours, IPv6 with
      an ICMPv6 payload of 24 or 32 octets and hop limit 255, from the advertised address to the
      asker; an advertisement (136, code 0), solicited and for a multicast question overriding
      too, of the advertised address, with our hardware address as an option of one unit. */
  lemma FrameOctets(sent: seq<u8>, to: seq<u8>, mac: seq<u8>, source: seq<u8>, asker: seq<u8>,
                    mcast: bool, c: u16)
    requires |to| == |mac| == 6 && |source| == |asker| == 16
    requires |sent| == if mcast then 86 else 78
    requires sent[..54] == Headers(to, mac, source, asker, if mcast then 32 else 24)
    requires sent[54..] == Advert(c, source, mac, mcast)
    ensures sent[0..6] == to && sent[6..12] == mac && sent[12] == 0x86 && sent[13] == 0xdd
    ensures sent[14] == 0x60 && sent[15] == 0 && sent[16] == 0 && sent[17] == 0
    ensures sent[18] == 0 && sent[19] == (if mcast then 32 else 24) && sent[20] == 58 && sent[21] == 255
    ensures sent[22..38] == source && sent[38..54] == asker
    ensures sent[54] == 136 && sent[55] == 0 && sent[58] == (if mcast then 0x60 else 0x40)
    ensures sent[59] == 0 && sent[60] == 0 && sent[61] == 0 && sent[62..78] == source
    ensures mcast ==> sent[78] == 2 && sent[79] == 1 && sent[80..86] == mac
  {
    var head, tail := sent[..54], sent[54..];
    assert forall i :: 0 <= i < 54 ==> sent[i] == head[i];
    assert forall i :: 0 <= i < |sent| - 54 ==> sent[54 + i] == tail[i];
    assert sent[0..6] == head[0..6] == to && sent[6..12] == head[6..12] == mac;
    assert sent[22..38] == head[22..38] == source && sent[38..54] == head[38..54] == asker;
    assert sent[62..78] == tail[8..24] == source;
    if mcast {
      assert sent[80..86] == tail[26..32] == mac;
    }
  }

  /** What a solicitation is checked for, octet by octet of IPv6 header and message: a source that
      is not unspecified, hop limit 255, code 0, a checksum that verifies over the stated payload
      length, a target that is not multicast, and ours unless we proxy, and good options. */
  lemma SolicitationOctets(ip6: seq<u8>, icmp: seq<u8>, optlen: nat, ours: seq<u8>, proxy: bool, plen: u16)
    requires |ip6| == 40 && |icmp| >= 24 + optlen && plen <= |icmp|
    requires ip6[4] == plen / 0x100 && ip6[5] == plen % 0x100
    ensures PlenOf(ip6) == plen
    ensures ValidNs(ip6, icmp, optlen, ours, proxy) <==>
              && (exists i :: 8 <= i < 24 && ip6[i] != 0) && ip6[7] == 255 && icmp[1] == 0
              && Icmp6Verifies(ip6[8..24], ip6[24..40], plen, icmp[..plen])
              && icmp[8] != 255 && (!proxy ==> icmp[8..24] == ours)
              && WellFormedOptions(icmp[24..24 + optlen])
  {
    assert Pair(plen / 0x100, plen % 0x100) == plen;
    var s := ip6[8..24];
    assert forall i :: 0 <= i < 16 ==> s[i] == ip6[8 + i];
    if exists i :: 8 <= i < 24 && ip6[i] != 0 {
      var i :| 8 <= i < 24 && ip6[i] != 0;
      assert s[i - 8] != 0;
    }
    if !AllZero(s) {
      var j :| 0 <= j < |s| && s[j] != 0;
      assert ip6[8 + j] != 0;
    }
  }
}
