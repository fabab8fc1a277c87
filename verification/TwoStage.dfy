/** A packet on its way through both translators: front.c proc_v4 with the policy engine, then
    backend.c proc_v4_in.  Headers are in host order; engine addresses in network order. */
module TwoStage {
  import opened Words
  import opened Bits
  import opened Addresses
  import opened Checksum
  import opened Reference
  import opened PolicyCache
  import opened PolicyTable
  import opened Engine

  const SRC := 6

  function Source(h: seq<u16>): Ip4
    requires Header(h)
  {
    Ip4(Swap32(Join(h[SRC], h[SRC + 1])))
  }

  /** What the front owes a packet `h` when a scan of its tables decides `o`: no header that
      verifies is spoilt, since a rule for the zero address drops its packets. */
  ghost predicate Translated(h: seq<u16>, h': seq<u16>, o: Outcome<Ip4>, sent: Option<Mac>)
    requires Header(h)
  {
    match o
    case Forward(dst, mac, delta) =>
      && sent == Some(mac)
      && h' == Rewritten(h, Swap32(dst.w), delta)
      && delta == Delta(Dst(h), Swap32(dst.w))
      && Dst(h') == Swap32(dst.w) != 0
      && (Verifies(h) ==> Verifies(h'))
    case NoRoute => sent == None && h' == h
    case DropRule => sent == None && h' == h
  }

  /** From front state `v` and header `h` to `v'` and `h'`: a packet for another address
      touches nothing; any other is translated as the uncached rule scan demands. */
  ghost predicate FrontDid(f: Family<Ip4>, vip: Ip4, answers: Replies, v: Front<Ip4>, h: seq<u16>,
                           v': Front<Ip4>, h': seq<u16>, sent: Option<Mac>)
    requires Inv(f, v) && Header(h)
  {
    if Dst(h) != Swap32(vip.w) then sent == None && h' == h && v' == v
    else
      && v' == GetPol(f, v, Source(h), answers).v
      && Translated(h, h', Scan(f, v.t, Source(h), answers).outcome, sent)
  }

  /** proc_v4 on a frame already known to be IPv4.  The header still verifies, although the
      delta may come from an entry cached long ago. */
  method ProcV4(engine: PolicyEngine<Ip4>, vip: Ip4, hdr: array<u16>, answers: Replies)
    returns (sent: Option<Mac>)
    requires engine.Valid() && engine.f == Family4(vip) && hdr.Length >= 10
    modifies engine, engine.cells, engine.buckets, hdr
    ensures engine.Valid()
    ensures FrontDid(engine.f, vip, answers, old(engine.View()), old(hdr[..]),
                     engine.View(), hdr[..], sent)
  {
    ghost var h, t := hdr[..], engine.Tabs();
    if Join(hdr[DST], hdr[DST + 1]) != Swap32(vip.w) {
      return None;
    }
    var source := Ip4(Swap32(Join(hdr[SRC], hdr[SRC + 1])));
    ghost var o := Scan(engine.f, t, source, answers).outcome;
    ForwardCarriesDelta(engine.f, t, source, answers);
    ScanBinds(engine.f, t, source, answers);
    var seen := engine.ProcV4(source, answers);
    assert hdr[..] == h;
    match seen
    case Dropped =>
      sent := None;
    case Sent(dst, mac, delta) =>
      RewriteDestination(hdr, Swap32(dst.w), delta);
      RewrittenDst(h, Swap32(dst.w), delta);
      SwapOfZero(dst.w);
      if Verifies(h) {
        RewriteKeepsVerifying(h, Swap32(dst.w));
      }
      sent := Some(mac);
  }

  lemma ForwardCarriesDelta<A(!new)>(f: Family<A>, t: Tables<A>, source: A, answers: Replies)
    requires TablesOk(f, t)
    ensures var o := Scan(f, t, source, answers).outcome;
            o.Forward? ==> o.delta == f.delta(o.dst)
  {}

  /** The delta a backend keeps: none while no IPv4 server is configured. */
  function ServerDelta(vip: u32, v4: bool, ip: u32): u16 {
    if v4 then Delta(vip, ip) else 0
  }

  /** When the backend keeps a header that verifies so.  With an IPv4 server configured: unless
      that is 0.0.0.0 and the header holds nothing but the backend's address.  Without one the
      packet goes to 0.0.0.0 under the old sum: only if the backend's address counts as zero and
      is not all the header holds. */
  predicate Spared(vip: u32, v4: bool, ip: u32, h: seq<u16>) {
    if v4 then !(ip == 0 && OnlyDst(h) && vip != 0xffff_ffff) else CountsAsZero(vip) && !OnlyDst(h)
  }

  /** What the backend makes of a packet for its address. */
  ghost predicate Delivered(vip: u32, v4: bool, ip: u32, delta: u16, h: seq<u16>, h': seq<u16>)
    requires Header(h)
  {
    && Dst(h) == vip
    && h' == Rewritten(h, ip, delta)
    && Dst(h') == ip
    && (Verifies(h) ==> (Verifies(h') <==> Spared(vip, v4, ip, h)))
  }

  lemma ConfiguredSpares(h: seq<u16>, ip: u32, delta: u16)
    requires Header(h) && Verifies(h) && delta == Delta(Dst(h), ip)
    ensures Verifies(Rewritten(h, ip, delta)) <==> Spared(Dst(h), true, ip, h)
  {
    RewriteKeepsVerifying(h, ip);
  }

  lemma UnconfiguredSpares(h: seq<u16>)
    requires Header(h) && Verifies(h)
    ensures Verifies(Rewritten(h, 0, 0)) <==> Spared(Dst(h), false, 0, h)
  {
    ClearedDestination(h);
  }

  lemma RewriteSpares(vip: u32, v4: bool, ip: u32, h: seq<u16>, delta: u16)
    requires Header(h) && Dst(h) == vip && (!v4 ==> ip == 0) && delta == ServerDelta(vip, v4, ip)
    ensures Verifies(h) ==> (Verifies(Rewritten(h, ip, delta)) <==> Spared(vip, v4, ip, h))
  {
    if Verifies(h) {
      if v4 {
        ConfiguredSpares(h, ip, delta);
      } else {
        UnconfiguredSpares(h);
      }
    }
  }

  /** The failing case exists: backend 10.0.245.255, server 0.0.0.0, and a header of zeros but
      for its destination. */
  lemma ZeroServerSpoils(h: seq<u16>, h': seq<u16>, delta: u16)
    requires h == [0, 0, 0, 0, 0, 0, 0, 0, 0x0a00, 0xf5ff]
    requires delta == Delta(0x0a00_f5ff, 0) && h' == Rewritten(h, 0, delta)
    ensures Delivered(0x0a00_f5ff, true, 0, delta, h, h') && Verifies(h) && !Verifies(h')
  {
    OnlyDstSum(h, h[DST := 0][DST + 1 := 0]);
    VerifiesIff(h);
    RewriteSpares(0x0a00_f5ff, true, 0, h, delta);
    RewrittenDst(h, 0, delta);
  }

  /** And so does the other: a backend 10.0.0.2 with no IPv4 server spoils the header of an
      ordinary packet from 10.0.0.1. */
  lemma NoServerSpoils(h: seq<u16>, h': seq<u16>)
    requires h == [0x4500, 0x0028, 0, 0, 0x4006, 0x66ce, 0x0a00, 0x0001, 0x0a00, 0x0002]
    requires h' == Rewritten(h, 0, 0)
    ensures Delivered(0x0a00_0002, false, 0, 0, h, h') && Verifies(h) && !OnlyDst(h) && !Verifies(h')
  {
    CornerReached(h);
    CornerDelta();
    assert h[0] != 0;
    OddAddress();
    RewriteSpares(0x0a00_0002, false, 0, h, 0);
    RewrittenDst(h, 0, 0);
  }

  lemma OddAddress()
    ensures !CountsAsZero(0x0a00_0002)
  {}

  lemma TranslatedRewrote(h: seq<u16>, h1: seq<u16>, o: Outcome<Ip4>, sent: Option<Mac>)
    requires Header(h) && Translated(h, h1, o, sent) && sent.Some?
    ensures Header(h1) && Dst(h1) != 0 && h1 == Rewritten(h, Dst(h1), Delta(Dst(h), Dst(h1)))
  {}

  /** A packet through both translators, the second being the one the first chose: its header
      verifies at the server, and is the one a direct rewrite would give, but for the two zeros
      in the sum field. */
  lemma ThroughBothStages(f: Family<Ip4>, vip: Ip4, answers: Replies, v: Front<Ip4>, v': Front<Ip4>,
                          h: seq<u16>, h1: seq<u16>, h2: seq<u16>, sent: Option<Mac>,
                          backend: u32, server: u32, delta: u16)
    requires Inv(f, v) && Header(h) && Verifies(h)
    requires FrontDid(f, vip, answers, v, h, v', h1, sent) && sent.Some?
    requires |h1| == |h| && Delivered(backend, true, server, delta, h1, h2) && server != 0
    requires delta == Delta(backend, server)
    ensures Dst(h1) == backend && Verifies(h1) && Dst(h2) == server && Verifies(h2)
    ensures var direct := Rewritten(h, server, Delta(Dst(h), server));
            |h2| == |direct| && Same(h2[SUM], direct[SUM]) && h2[SUM := direct[SUM]] == direct
  {
    TranslatedRewrote(h, h1, Scan(f, v.t, Source(h), answers).outcome, sent);
    TwoStagesVerify(h, backend, server);
  }

  // ---------------------------------------------------------------- octets

  lemma WordOctets(hi: u16, lo: u16)
    ensures var w := Swap32(Join(hi, lo));
            && Byte(w, 0) == hi / 0x100 && Byte(w, 1) == hi % 0x100
            && Byte(w, 2) == lo / 0x100 && Byte(w, 3) == lo % 0x100
  {
    SwapBytes(Join(hi, lo));
    JoinBytes(hi, lo);
  }

  lemma JoinBytes(hi: u16, lo: u16)
    ensures var x := Join(hi, lo);
            && Byte(x, 3) == hi / 0x100 && Byte(x, 2) == hi % 0x100
            && Byte(x, 1) == lo / 0x100 && Byte(x, 0) == lo % 0x100
  {
    JoinIsBytes(hi, lo, hi / 0x100, hi % 0x100, lo / 0x100, lo % 0x100);
    BytesBack(hi / 0x100, hi % 0x100, lo / 0x100, lo % 0x100);
  }

  lemma JoinIsBytes(hi: u16, lo: u16, a: u8, b: u8, c: u8, d: u8)
    requires Push(a, b) == hi && Push(c, d) == lo
    ensures Join(hi, lo) == FromBytes(a, b, c, d)
  {
    assert FromBytes(a, b, c, d) == 0x1_0000 * Push(a, b) + Push(c, d);
  }

  /** The policy is looked up for octets 12 to 15 of the header, the source of the packet. */
  lemma SourceOctets(h: seq<u16>)
    requires Header(h)
    ensures Byte(Source(h).w, 0) == h[6] / 0x100 && Byte(Source(h).w, 1) == h[6] % 0x100
    ensures Byte(Source(h).w, 2) == h[7] / 0x100 && Byte(Source(h).w, 3) == h[7] % 0x100
  {
    WordOctets(h[6], h[7]);
  }

  /** The destination compared and written is octets 16 to 19. */
  lemma DestinationOctets(h: seq<u16>, a: Ip4)
    requires Header(h)
    ensures Dst(h) == Swap32(a.w) <==>
              && h[8] / 0x100 == Byte(a.w, 0) && h[8] % 0x100 == Byte(a.w, 1)
              && h[9] / 0x100 == Byte(a.w, 2) && h[9] % 0x100 == Byte(a.w, 3)
  {
    SwapBytes(a.w);
    JoinBytes(h[8], h[9]);
    WordIsBytes(Dst(h));
    WordIsBytes(Swap32(a.w));
  }

  /** A configured line matches a packet: its address and octets 12 to 15 of the header agree on
      every bit of its mask. */
  ghost predicate LineFits(l: Line<Ip4>, h: seq<u16>)
    requires Header(h)
  {
    && AgreeOn(h[6] / 0x100, Byte(l.addr.w, 0), Byte(l.mask.w, 0))
    && AgreeOn(h[6] % 0x100, Byte(l.addr.w, 1), Byte(l.mask.w, 1))
    && AgreeOn(h[7] / 0x100, Byte(l.addr.w, 2), Byte(l.mask.w, 2))
    && AgreeOn(h[7] % 0x100, Byte(l.addr.w, 3), Byte(l.mask.w, 3))
  }

  lemma LineFitsIsMatch(vip: Ip4, l: Line<Ip4>, h: seq<u16>)
    requires Header(h)
    ensures LineFits(l, h) <==> LineMatches(Family4(vip), l, Source(h))
  {
    RuleMatches4(vip, Source(h), l.addr, l.mask);
    AgreeByBytes(Source(h).w, l.addr.w, l.mask.w);
    SourceOctets(h);
  }

  ghost predicate FirstFitting(lines: seq<Line<Ip4>>, h: seq<u16>, k: nat)
    requires Header(h)
  {
    k < |lines| && LineFits(lines[k], h) && forall j :: 0 <= j < k ==> !LineFits(lines[j], h)
  }

  lemma FirstFittingIsFirst(vip: Ip4, lines: seq<Line<Ip4>>, h: seq<u16>, k: nat)
    requires Header(h) && FirstFitting(lines, h, k)
    ensures FirstLine(Family4(vip), lines, Source(h), k)
  {
    LineFitsIsMatch(vip, lines[k], h);
    forall j | 0 <= j < k
      ensures !LineMatches(Family4(vip), lines[j], Source(h))
    {
      LineFitsIsMatch(vip, lines[j], h);
    }
  }

  /** From a packet to its line: a packet for another address is left alone.  Any other is decided
      by the first line of the file that fits it: dropped if that names 0.0.0.0, sent nowhere but
      to the server named, and surely sent once that is up. */
  lemma FrontFollowsFile(f: Family<Ip4>, vip: Ip4, answers: Replies, v: Front<Ip4>, h: seq<u16>,
                         v': Front<Ip4>, h': seq<u16>, sent: Option<Mac>, lines: seq<Line<Ip4>>, k: nat)
    requires Inv(f, v) && f == Family4(vip) && Header(h) && FollowsFile(f, v.t, lines)
    requires FrontDid(f, vip, answers, v, h, v', h', sent)
    requires h[8] == 0x100 * Byte(vip.w, 0) + Byte(vip.w, 1) && h[9] == 0x100 * Byte(vip.w, 2) + Byte(vip.w, 3)
    requires FirstFitting(lines, h, k)
    ensures Header(h') && (sent.None? ==> h' == h)
    ensures lines[k].server.w == 0 ==> sent == None
    ensures sent.Some? ==>
              && h'[8] / 0x100 == Byte(lines[k].server.w, 0) && h'[8] % 0x100 == Byte(lines[k].server.w, 1)
              && h'[9] / 0x100 == Byte(lines[k].server.w, 2) && h'[9] % 0x100 == Byte(lines[k].server.w, 3)
    ensures var s := v.t.servers[v.t.rules[k].svr];
            && (s.status == Ok ==> sent == Some(s.mac))
            && (s.status == Init ==> (sent.Some? <==> FirstGood(answers, 0, 12) < 9))
  {
    PairBytes(Byte(vip.w, 0), Byte(vip.w, 1));
    PairBytes(Byte(vip.w, 2), Byte(vip.w, 3));
    DestinationOctets(h, vip);
    FirstFittingIsFirst(vip, lines, h, k);
    FirstLineDecides(f, v.t, lines, Source(h), answers, k);
    DecidedOctets(h, h', Scan(f, v.t, Source(h), answers).outcome, sent, lines[k].server);
  }

  lemma PairBytes(hi: u8, lo: u8)
    ensures (0x100 * hi + lo) / 0x100 == hi && (0x100 * hi + lo) % 0x100 == lo
  {}

  lemma DecidedOctets(h: seq<u16>, h': seq<u16>, o: Outcome<Ip4>, sent: Option<Mac>, server: Ip4)
    requires Header(h) && Translated(h, h', o, sent) && (o.Forward? ==> o.dst == server)
    ensures Header(h') && (sent.Some? <==> o.Forward?) && (o.Forward? ==> sent == Some(o.mac))
    ensures sent.None? ==> h' == h
    ensures sent.Some? ==>
              && h'[8] / 0x100 == Byte(server.w, 0) && h'[8] % 0x100 == Byte(server.w, 1)
              && h'[9] / 0x100 == Byte(server.w, 2) && h'[9] % 0x100 == Byte(server.w, 3)
  {
    if o.Forward? {
      DestinationOctets(h', server);
    }
  }

  /** A packet that no line of the file fits is not sent. */
  lemma NoLineFits(f: Family<Ip4>, vip: Ip4, answers: Replies, v: Front<Ip4>, h: seq<u16>,
                   v': Front<Ip4>, h': seq<u16>, sent: Option<Mac>, lines: seq<Line<Ip4>>)
    requires Inv(f, v) && f == Family4(vip) && Header(h) && FollowsFile(f, v.t, lines)
    requires FrontDid(f, vip, answers, v, h, v', h', sent)
    requires forall j :: 0 <= j < |lines| ==> !LineFits(lines[j], h)
    ensures sent == None && h' == h
  {
    forall j | 0 <= j < |lines|
      ensures !LineMatches(f, lines[j], Source(h))
    {
      LineFitsIsMatch(vip, lines[j], h);
    }
    NoLineDecides(f, v.t, lines, Source(h), answers);
  }

  /** A packet whose octets 16 to 19 are not the virtual address touches nothing. */
  lemma OthersPass(f: Family<Ip4>, vip: Ip4, answers: Replies, v: Front<Ip4>, h: seq<u16>,
                   v': Front<Ip4>, h': seq<u16>, sent: Option<Mac>)
    requires Inv(f, v) && Header(h) && FrontDid(f, vip, answers, v, h, v', h', sent)
    requires h[8] / 0x100 != Byte(vip.w, 0) || h[8] % 0x100 != Byte(vip.w, 1)
          || h[9] / 0x100 != Byte(vip.w, 2) || h[9] % 0x100 != Byte(vip.w, 3)
    ensures sent == None && h' == h && v' == v
  {
    DestinationOctets(h, vip);
  }

  // ---------------------------------------------------------------- the backend's server

  /** The first round of resolve_mac that succeeds, or 3. */
  function FirstAnswer(answers: Replies): (g: nat)
    ensures g <= 3
  {
    FirstGood(answers, 0, 3)
  }

  /** The real server behind a backend, with the delta computed once from the backend's own
      address; without an IPv4 address (`v4` false) address and delta stay zero. */
  class RealServer {
    const vip: u32
    const v4: bool
    const ip: u32
    const delta: u16
    /** stat is SVR_OK, for both address families. */
    var up: bool
    var mac: Mac

    predicate Valid()
      reads this
    {
      delta == ServerDelta(vip, v4, ip) && (!v4 ==> ip == 0) && (up ==> mac != 0)
    }

    /** get_svr_info: a first try to resolve the server, by its IPv6 address, if it has one,
        when it has no IPv4 address or that fails. */
    constructor (vip: u32, v4: bool, addr: u32, answers: Replies, v6: bool, answers6: Replies)
      ensures Valid() && this.vip == vip && this.v4 == v4 && ip == if v4 then addr else 0
      ensures var g, g6 := FirstAnswer(answers), FirstAnswer(answers6);
              && (v4 && g < 3 ==> up && mac == answers(g).mac)
              && (!(v4 && g < 3) && v6 && g6 < 3 ==> up && mac == answers6(g6).mac)
              && (!(v4 && g < 3) && !(v6 && g6 < 3) ==> !up)
    {
      this.vip, this.v4, ip := vip, v4, if v4 then addr else 0;
      delta := if v4 then Delta(vip, addr) else 0;
      up, mac := false, 0;
      new;
      if v4 {
        up := ResolveMac(answers);
      }
      if v6 && !up {
        up := ResolveMac(answers6);
      }
    }

    /** resolve_mac: the MAC of the first good answer of three; the field is overwritten even
        when all fail. */
    method ResolveMac(answers: Replies) returns (ok: bool)
      modifies this`mac
      ensures ok <==> FirstAnswer(answers) < 3
      ensures ok ==> mac == answers(FirstAnswer(answers)).mac != 0
    {
      for i := 0 to 3
        invariant FirstGood(answers, 0, 3) == FirstGood(answers, i, 3)
      {
        mac := answers(i).mac;
        if answers(i).ret >= 0 && mac != 0 {
          return true;
        }
      }
      ok := false;
    }

    /** What proc_v4_in and proc_v6_in do first: a server not yet up is resolved, by the address
        of the packet's family, and stays up for both. */
    method EnsureUp(answers: Replies)
      requires Valid()
      modifies this`up, this`mac
      ensures Valid() && (up <==> old(up) || FirstAnswer(answers) < 3)
      ensures old(up) ==> mac == old(mac)
      ensures !old(up) && up ==> mac == answers(FirstAnswer(answers)).mac
    {
      if !up {
        up := ResolveMac(answers);
      }
    }

    /** proc_v4_in; it is called whether or not an IPv4 server is configured. */
    method ProcV4In(hdr: array<u16>, answers: Replies) returns (sent: Option<Mac>)
      requires hdr.Length >= 10 && Valid()
      modifies this`up, this`mac, hdr
      ensures Valid()
      ensures old(up) ==> up && mac == old(mac)
      ensures sent.None? ==> hdr[..] == old(hdr[..])
      ensures sent.None? <==> Dst(old(hdr[..])) != vip || (!old(up) && FirstAnswer(answers) == 3)
      ensures sent.Some? ==>
                && up && sent == Some(mac) && mac != 0
                && mac == (if old(up) then old(mac) else answers(FirstAnswer(answers)).mac)
                && Delivered(vip, v4, ip, delta, old(hdr[..]), hdr[..])
    {
      ghost var h := hdr[..];
      if Join(hdr[DST], hdr[DST + 1]) != vip {
        return None;
      }
      EnsureUp(answers);
      if !up {
        return None;
      }
      RewriteDestination(hdr, ip, delta);
      RewriteSpares(vip, v4, ip, h, delta);
      RewrittenDst(h, ip, delta);
      sent := Some(mac);
    }
  }
}
