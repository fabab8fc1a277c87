/** The policy as configured: an ordered rule list scanned for every packet, with no cache.
    This is the meaning the cached engine has to keep (front/pol_lookup.c policy_lookup4,
    front/svr_tbl.c resolve_target_mac). */
module Reference {
  import opened Words
  import opened Addresses

  type Mac = m: nat | m < 0x1_0000_0000_0000

  /** SVR_INIT, SVR_OK and SVR_DROP; in a cache entry SVR_INIT (0) means unused. */
  datatype Status = Init | Ok | Drop

  datatype Server<A> = Server(ip: A, status: Status, mac: Mac, hit: u32)

  /** `svr` points into the server table. */
  datatype Rule<A> = Rule(addr: A, mask: A, svr: nat)

  /** The rule list in file order with the hit counter of each rule, and the server table in
      order of creation. */
  datatype Tables<A> = Tables(rules: seq<Rule<A>>, hits: seq<u32>, servers: seq<Server<A>>)

  /** One answer of get_target_mac: its return value and what it left in the MAC field. */
  datatype Reply = Reply(ret: int, mac: Mac)

  /** The answers a packet would meet, in order of the calls. */
  type Replies = nat -> Reply

  datatype Outcome<A> = NoRoute | DropRule | Forward(dst: A, mac: Mac, delta: u16)

  datatype Lookup<A> = Lookup(t: Tables<A>, outcome: Outcome<A>)

  ghost predicate TablesOk<A(!new)>(f: Family<A>, t: Tables<A>) {
    && |t.hits| == |t.rules|
    && (forall r :: 0 <= r < |t.rules| ==> t.rules[r].svr < |t.servers|)
    && (forall s :: 0 <= s < |t.servers| ==>
          && (t.servers[s].status == Drop <==> t.servers[s].ip == f.zero)
          && (t.servers[s].status == Ok ==> t.servers[s].mac != 0))
    && (forall s, s' :: 0 <= s < s' < |t.servers| ==> t.servers[s].ip != t.servers[s'].ip)
  }

  // ---------------------------------------------------------------- resolving a server

  /** One round of resolve_target_mac. */
  function Attempt<A>(s: Server<A>, r: Reply): Server<A> {
    s.(mac := r.mac, status := if r.ret >= 0 && r.mac != 0 then Ok else s.status)
  }

  /** resolve_target_mac from round `i` on: three rounds, stopping at the first success. */
  function Resolve<A>(s: Server<A>, answers: Replies, call: nat, i: nat): Server<A>
    requires i <= 3
    decreases 3 - i
  {
    if i == 3 then s
    else
      var s' := Attempt(s, answers(call + i));
      if answers(call + i).ret >= 0 && s'.mac != 0 then s' else Resolve(s', answers, call, i + 1)
  }

  /** The loop of policy_lookup4: check, then resolve, four times; no check follows the last. */
  function Ready<A>(s: Server<A>, answers: Replies, i: nat): (Server<A>, bool)
    requires i <= 4
    decreases 4 - i
  {
    if i == 4 then (s, false)
    else if s.status != Init then (s, true)
    else Ready(Resolve(s, answers, 3 * i, 0), answers, i + 1)
  }

  // ---------------------------------------------------------------- scanning the rules

  predicate Matches<A(==)>(f: Family<A>, r: Rule<A>, source: A) {
    f.masked(source, r.mask) == r.addr
  }

  /** The first rule from `i` on that matches, or the number of rules. */
  function FirstMatch<A(==)>(f: Family<A>, rules: seq<Rule<A>>, source: A, i: nat): (r: nat)
    requires i <= |rules|
    ensures i <= r <= |rules|
    ensures forall j :: i <= j < r ==> !Matches(f, rules[j], source)
    ensures r < |rules| ==> Matches(f, rules[r], source)
    decreases |rules| - i
  {
    if i == |rules| || Matches(f, rules[i], source) then i else FirstMatch(f, rules, source, i + 1)
  }

  /** policy_lookup4: the tables after resolving, and the rule found, if any. */
  function PolicyLookup<A(==)>(f: Family<A>, t: Tables<A>, source: A, answers: Replies)
    : (Tables<A>, Option<nat>)
    requires forall r :: 0 <= r < |t.rules| ==> t.rules[r].svr < |t.servers|
  {
    var r := FirstMatch(f, t.rules, source, 0);
    if r == |t.rules| then (t, None)
    else
      var svr := t.rules[r].svr;
      var (s, ok) := Ready(t.servers[svr], answers, 0);
      (t.(servers := t.servers[svr := s]), if ok then Some(r) else None)
  }

  /** `(*pol_hit)++; (*svr_hit)++;` */
  function CountHit<A>(t: Tables<A>, pol: nat, svr: nat): Tables<A>
    requires pol < |t.hits| && svr < |t.servers|
  {
    t.(hits := t.hits[pol := Inc(t.hits[pol])],
       servers := t.servers[svr := t.servers[svr].(hit := Inc(t.servers[svr].hit))])
  }

  /** The uncached front: scan, resolve, count, and say what happens to the packet. */
  ghost function Scan<A(!new)>(f: Family<A>, t: Tables<A>, source: A, answers: Replies): Lookup<A>
    requires TablesOk(f, t)
  {
    var (t1, found) := PolicyLookup(f, t, source, answers);
    match found
    case None => Lookup(t1, NoRoute)
    case Some(r) =>
      var svr := t.rules[r].svr;
      var s := t1.servers[svr];
      Lookup(CountHit(t1, r, svr),
             if s.status == Drop then DropRule else Forward(s.ip, s.mac, f.delta(s.ip)))
  }

  // ---------------------------------------------------------------- what a scan changes

  /** Nothing but counters moves, except that a server may leave Init. */
  ghost predicate Later<A>(t: Tables<A>, t': Tables<A>) {
    && t'.rules == t.rules
    && |t'.hits| == |t.hits|
    && |t'.servers| == |t.servers|
    && forall s :: 0 <= s < |t.servers| ==> Settled(t.servers[s], t'.servers[s])
  }

  ghost predicate Settled<A>(s: Server<A>, s': Server<A>) {
    && s'.ip == s.ip
    && (s.status != Init ==> s'.status == s.status && s'.mac == s.mac)
  }

  lemma {:induction false} ResolveKeeps<A>(s: Server<A>, answers: Replies, call: nat, i: nat)
    requires i <= 3 && s.status == Init
    ensures var r := Resolve(s, answers, call, i);
            && r.ip == s.ip && r.hit == s.hit && r.status != Drop
            && (r.status == Ok ==> r.mac != 0)
    decreases 3 - i
  {
    if i < 3 && !(answers(call + i).ret >= 0 && answers(call + i).mac != 0) {
      ResolveKeeps(Attempt(s, answers(call + i)), answers, call, i + 1);
    }
  }

  lemma {:induction false} ReadyKeeps<A>(s: Server<A>, answers: Replies, i: nat)
    requires i <= 4 && (s.status == Ok ==> s.mac != 0)
    ensures var (r, ok) := Ready(s, answers, i);
            && Settled(s, r) && r.hit == s.hit
            && (s.status != Init && i < 4 ==> r == s && ok)
            && (r.status == Drop <==> s.status == Drop)
            && (r.status == Ok ==> r.mac != 0)
            && (ok ==> r.status != Init)
    decreases 4 - i
  {
    if i < 4 && s.status == Init {
      ResolveKeeps(s, answers, 3 * i, 0);
      ReadyKeeps(Resolve(s, answers, 3 * i, 0), answers, i + 1);
    }
  }

  predicate Good(r: Reply) {
    r.ret >= 0 && r.mac != 0
  }

  /** The first good answer among calls `from` to `n`, or `n`. */
  function FirstGood(answers: Replies, from: nat, n: nat): (g: nat)
    requires from <= n
    ensures from <= g <= n
    decreases n - from
  {
    if from == n || Good(answers(from)) then from else FirstGood(answers, from + 1, n)
  }

  lemma {:induction false} FirstGoodIsFirst(answers: Replies, from: nat, n: nat)
    requires from <= n
    ensures var g := FirstGood(answers, from, n);
            && (forall j :: from <= j < g ==> answers(j).ret < 0 || answers(j).mac == 0)
            && (g < n ==> answers(g).ret >= 0 && answers(g).mac != 0)
    decreases n - from
  {
    if from < n && !Good(answers(from)) {
      FirstGoodIsFirst(answers, from + 1, n);
    }
  }

  lemma {:induction false} FirstGoodSplits(answers: Replies, from: nat, m: nat, n: nat)
    requires from <= m <= n
    ensures FirstGood(answers, from, n)
         == if FirstGood(answers, from, m) < m then FirstGood(answers, from, m) else FirstGood(answers, m, n)
    decreases m - from
  {
    if from < m && !Good(answers(from)) {
      FirstGoodSplits(answers, from + 1, m, n);
    }
  }

  lemma {:induction false} ResolveExact<A>(s: Server<A>, answers: Replies, call: nat, i: nat)
    requires i <= 3 && s.status == Init
    ensures var r, g := Resolve(s, answers, call, i), FirstGood(answers, call + i, call + 3);
            && r.status == (if g < call + 3 then Ok else Init)
            && (g < call + 3 ==> r.mac == answers(g).mac)
    decreases 3 - i
  {
    if i < 3 && !Good(answers(call + i)) {
      ResolveExact(Attempt(s, answers(call + i)), answers, call, i + 1);
    }
  }

  /** One round of the loop: the first good answer of three settles the server, and the lookup
      goes on to use it unless this was the last round. */
  lemma ReadyRound<A>(s: Server<A>, answers: Replies, i: nat, call: nat)
    requires i < 4 && call == 3 * i && s.status == Init
    ensures var g, s' := FirstGood(answers, call, call + 3), Resolve(s, answers, call, 0);
            if g < call + 3 then
              && s'.status == Ok && s'.mac == answers(g).mac
              && Ready(s, answers, i) == (s', i < 3)
            else s'.status == Init && Ready(s, answers, i) == Ready(s', answers, i + 1)
  {
    ResolveExact(s, answers, call, 0);
  }

  /** What a lookup makes of a server when `g` is its first good answer of `last`. */
  predicate ReadyBy<A>(result: (Server<A>, bool), answers: Replies, g: nat, last: nat) {
    && result.0.status == (if g < last then Ok else Init)
    && (g < last ==> result.0.mac == answers(g).mac)
    && (result.1 <==> g + 3 < last)
  }

  /** A lookup tries the resolver up to twelve times and takes the MAC of the first good answer,
      but uses the server only when that is among the first nine: a last round that brings the
      server up helps only the next packet. */
  lemma {:induction false} ReadyExact<A>(s: Server<A>, answers: Replies, i: nat, call: nat, last: nat,
                                         result: (Server<A>, bool), g: nat)
    requires i <= 4 && call == 3 * i && last == 12 && s.status == Init
    requires result == Ready(s, answers, i) && g == FirstGood(answers, call, last)
    ensures ReadyBy(result, answers, g, last)
    decreases 4 - i
  {
    if i < 4 {
      ReadyRound(s, answers, i, call);
      FirstGoodSplits(answers, call, call + 3, last);
      var s' := Resolve(s, answers, call, 0);
      if FirstGood(answers, call, call + 3) < call + 3 {
        ReadyEarly(s', answers, i, call, g);
      } else {
        ReadyExact(s', answers, i + 1, call + 3, last, result, g);
      }
    }
  }

  lemma ReadyEarly<A>(s: Server<A>, answers: Replies, i: nat, call: nat, g: nat)
    requires i < 4 && call == 3 * i <= g < call + 3
    requires s.status == Ok && s.mac == answers(g).mac
    ensures ReadyBy((s, i < 3), answers, g, 12)
  {}

  lemma PolicyLookupKeeps<A(!new)>(f: Family<A>, t: Tables<A>, source: A, answers: Replies)
    requires TablesOk(f, t)
    ensures var (t', found) := PolicyLookup(f, t, source, answers);
            && TablesOk(f, t') && Later(t, t') && t'.hits == t.hits
            && (found.Some? ==> && found.value == FirstMatch(f, t.rules, source, 0) < |t.rules|
                                && t'.servers[t.rules[found.value].svr].status != Init)
  {
    var r := FirstMatch(f, t.rules, source, 0);
    if r < |t.rules| {
      ReadyKeeps(t.servers[t.rules[r].svr], answers, 0);
    }
  }

  lemma CountHitKeeps<A(!new)>(f: Family<A>, t: Tables<A>, pol: nat, svr: nat)
    requires TablesOk(f, t) && pol < |t.hits| && svr < |t.servers|
    ensures TablesOk(f, CountHit(t, pol, svr)) && Later(t, CountHit(t, pol, svr))
  {}

  lemma ScanKeeps<A(!new)>(f: Family<A>, t: Tables<A>, source: A, answers: Replies)
    requires TablesOk(f, t)
    ensures var l := Scan(f, t, source, answers);
            TablesOk(f, l.t) && Later(t, l.t)
  {
    PolicyLookupKeeps(f, t, source, answers);
    var (t1, found) := PolicyLookup(f, t, source, answers);
    if found.Some? {
      CountHitKeeps(f, t1, found.value, t.rules[found.value].svr);
    }
  }

  /** Once the server of a source is up, a scan forwards to it whatever the resolver says. */
  lemma ScanOfSettled<A(!new)>(f: Family<A>, t: Tables<A>, source: A, answers: Replies)
    requires TablesOk(f, t)
    requires var r := FirstMatch(f, t.rules, source, 0);
             r < |t.rules| && t.servers[t.rules[r].svr].status != Init
    ensures var r := FirstMatch(f, t.rules, source, 0);
            var s := t.servers[t.rules[r].svr];
            Scan(f, t, source, answers) ==
              Lookup(CountHit(t, r, t.rules[r].svr),
                     if s.status == Drop then DropRule else Forward(s.ip, s.mac, f.delta(s.ip)))
  {}

  /** A scan whose server is not up yet asks the resolver for it.  A good answer among the first
      nine brings the server up and sends the packet there, counted once for its rule and once
      for its server; one among the last three brings it up for the next packet only; with none
      it stays down.  Nothing else changes. */
  lemma ScanOfInit<A(!new)>(f: Family<A>, t: Tables<A>, source: A, answers: Replies, r: nat, svr: nat, g: nat)
    requires TablesOk(f, t) && r == FirstMatch(f, t.rules, source, 0) < |t.rules|
    requires svr == t.rules[r].svr && t.servers[svr].status == Init && g == FirstGood(answers, 0, 12)
    ensures var l, s := Scan(f, t, source, answers), t.servers[svr];
            && l.outcome == (if g < 9 then Forward(s.ip, answers(g).mac, f.delta(s.ip)) else NoRoute)
            && l.t.rules == t.rules && |l.t.servers| == |t.servers|
            && (forall j :: 0 <= j < |t.servers| && j != svr ==> l.t.servers[j] == t.servers[j])
            && l.t.servers[svr].ip == s.ip
            && l.t.servers[svr].status == (if g < 12 then Ok else Init)
            && (g < 12 ==> l.t.servers[svr].mac == answers(g).mac)
            && l.t.hits == (if g < 9 then t.hits[r := Inc(t.hits[r])] else t.hits)
            && l.t.servers[svr].hit == (if g < 9 then Inc(s.hit) else s.hit)
  {
    var s := t.servers[svr];
    ReadyKeeps(s, answers, 0);
    ReadyExact(s, answers, 0, 0, 12, Ready(s, answers, 0), g);
  }

  /** Where no rule matches a scan changes nothing. */
  lemma ScanOfNoMatch<A(!new)>(f: Family<A>, t: Tables<A>, source: A, answers: Replies)
    requires TablesOk(f, t) && forall r :: 0 <= r < |t.rules| ==> !Matches(f, t.rules[r], source)
    ensures Scan(f, t, source, answers) == Lookup(t, NoRoute)
  {}

  // ---------------------------------------------------------------- runs

  datatype Packet<A> = Packet(source: A, answers: Replies)

  ghost function Outcomes<A(!new)>(f: Family<A>, t: Tables<A>, ps: seq<Packet<A>>): seq<Outcome<A>>
    requires TablesOk(f, t)
    decreases |ps|
  {
    if ps == [] then []
    else
      ScanKeeps(f, t, ps[0].source, ps[0].answers);
      var l := Scan(f, t, ps[0].source, ps[0].answers);
      [l.outcome] + Outcomes(f, l.t, ps[1..])
  }

  ghost function After<A(!new)>(f: Family<A>, t: Tables<A>, ps: seq<Packet<A>>): Tables<A>
    requires TablesOk(f, t)
    decreases |ps|
  {
    if ps == [] then t
    else
      ScanKeeps(f, t, ps[0].source, ps[0].answers);
      After(f, Scan(f, t, ps[0].source, ps[0].answers).t, ps[1..])
  }

  lemma {:induction false} RunKeeps<A(!new)>(f: Family<A>, t: Tables<A>, ps: seq<Packet<A>>)
    requires TablesOk(f, t)
    ensures TablesOk(f, After(f, t, ps)) && |Outcomes(f, t, ps)| == |ps|
    decreases |ps|
  {
    if ps != [] {
      ScanKeeps(f, t, ps[0].source, ps[0].answers);
      RunKeeps(f, Scan(f, t, ps[0].source, ps[0].answers).t, ps[1..]);
    }
  }

  // ---------------------------------------------------------------- affinity

  /** The backend of a source is up in t and is `o`. */
  ghost predicate Bound<A(!new)>(f: Family<A>, t: Tables<A>, source: A, o: Outcome<A>) {
    && TablesOk(f, t)
    && var r := FirstMatch(f, t.rules, source, 0);
    && r < |t.rules|
    && var s := t.servers[t.rules[r].svr];
    && s.status == Ok && o == Forward(s.ip, s.mac, f.delta(s.ip))
  }

  lemma ScanBinds<A(!new)>(f: Family<A>, t: Tables<A>, source: A, answers: Replies)
    requires TablesOk(f, t)
    ensures var l := Scan(f, t, source, answers);
            && (l.outcome.Forward? ==> Bound(f, l.t, source, l.outcome) && l.outcome.mac != 0
                                       && l.outcome.dst != f.zero)
            && forall x, o :: Bound(f, t, x, o) ==> Bound(f, l.t, x, o) && (x == source ==> l.outcome == o)
  {
    ScanKeeps(f, t, source, answers);
    PolicyLookupKeeps(f, t, source, answers);
    var l := Scan(f, t, source, answers);
    forall x, o | Bound(f, t, x, o)
      ensures Bound(f, l.t, x, o) && (x == source ==> l.outcome == o)
    {
      var r := FirstMatch(f, t.rules, x, 0);
      assert Settled(t.servers[t.rules[r].svr], l.t.servers[t.rules[r].svr]);
      if x == source {
        ScanOfSettled(f, t, source, answers);
      }
    }
  }

  /** A bound source gets the same outcome for ever. */
  lemma {:induction false} BoundForever<A(!new)>(f: Family<A>, t: Tables<A>, ps: seq<Packet<A>>,
                                                 source: A, o: Outcome<A>)
    requires Bound(f, t, source, o)
    ensures |Outcomes(f, t, ps)| == |ps|
    ensures forall j :: 0 <= j < |ps| && ps[j].source == source ==> Outcomes(f, t, ps)[j] == o
    decreases |ps|
  {
    if ps != [] {
      ScanBinds(f, t, ps[0].source, ps[0].answers);
      BoundForever(f, Scan(f, t, ps[0].source, ps[0].answers).t, ps[1..], source, o);
    }
  }

  /** Affinity: once a packet of a source is forwarded, every later packet of that source is
      forwarded, to the same backend address and MAC and with the same delta, whatever other
      packets and resolver answers come between. */
  lemma {:induction false} Affinity<A(!new)>(f: Family<A>, t: Tables<A>, ps: seq<Packet<A>>,
                                             i: nat, j: nat)
    requires TablesOk(f, t) && i <= j < |ps| && ps[i].source == ps[j].source
    ensures |Outcomes(f, t, ps)| == |ps|
    ensures Outcomes(f, t, ps)[i].Forward? ==>
              && Outcomes(f, t, ps)[j] == Outcomes(f, t, ps)[i]
              && Outcomes(f, t, ps)[i].mac != 0 && Outcomes(f, t, ps)[i].dst != f.zero
    decreases |ps|
  {
    RunKeeps(f, t, ps);
    ScanBinds(f, t, ps[0].source, ps[0].answers);
    var t1 := Scan(f, t, ps[0].source, ps[0].answers).t;
    ScanKeeps(f, t, ps[0].source, ps[0].answers);
    if i > 0 {
      Affinity(f, t1, ps[1..], i - 1, j - 1);
    } else if Outcomes(f, t, ps)[0].Forward? {
      BoundForever(f, t1, ps[1..], ps[0].source, Outcomes(f, t, ps)[0]);
    }
  }

  // ---------------------------------------------------------------- conservation of hits

  function Served<A>(rules: seq<Rule<A>>, hits: seq<u32>, svr: nat): nat
    requires |rules| == |hits|
  {
    if rules == [] then 0
    else (if rules[0].svr == svr then hits[0] else 0) + Served(rules[1..], hits[1..], svr)
  }

  /** The number of packets a rule decided. */
  function Decided<A>(os: seq<Outcome<A>>): nat {
    if os == [] then 0 else (if os[0].NoRoute? then 0 else 1) + Decided(os[1..])
  }

  /** Each server counts what the rules naming it count, modulo 32 bits. */
  ghost predicate Conserved<A>(t: Tables<A>) {
    && |t.rules| == |t.hits|
    && forall s :: 0 <= s < |t.servers| ==>
         Grown(Served(t.rules, t.hits, s), t.servers[s].hit, 0)
  }

  lemma {:induction false} ServedAfterHit<A>(rules: seq<Rule<A>>, hits: seq<u32>, r: nat, svr: nat)
    requires |rules| == |hits| && r < |hits|
    ensures Grown(Served(rules, hits[r := Inc(hits[r])], svr), Served(rules, hits, svr),
                  if rules[r].svr == svr then 1 else 0)
  {
    var hits': seq<u32> := hits[r := Inc(hits[r])];
    var rest := Served(rules[1..], hits[1..], svr);
    if r > 0 {
      ServedAfterHit(rules[1..], hits[1..], r - 1, svr);
      assert hits'[1..] == hits[1..][r - 1 := Inc(hits[r])];
      GrownShift(Served(rules[1..], hits'[1..], svr), rest, if rules[r].svr == svr then 1 else 0,
                 if rules[0].svr == svr then hits[0] else 0);
    } else {
      assert hits'[1..] == hits[1..];
      GrownInc(hits[0]);
      GrownShift(Inc(hits[0]), hits[0], 1, rest);
      GrownZero(rest);
    }
  }

  lemma CountHitConserves<A(!new)>(f: Family<A>, t: Tables<A>, r: nat)
    requires TablesOk(f, t) && Conserved(t) && r < |t.rules|
    ensures Conserved(CountHit(t, r, t.rules[r].svr))
    ensures Grown(Sum(CountHit(t, r, t.rules[r].svr).hits), Sum(t.hits), 1)
  {
    var svr := t.rules[r].svr;
    var t' := CountHit(t, r, svr);
    forall s | 0 <= s < |t'.servers|
      ensures Grown(Served(t'.rules, t'.hits, s), t'.servers[s].hit, 0)
    {
      ServedAfterHit(t.rules, t.hits, r, s);
      ServerCounts(Served(t'.rules, t'.hits, s), Served(t.rules, t.hits, s), t.servers[s].hit, s == svr);
    }
    SumUpdate(t.hits, r, Inc(t.hits[r]));
    assert Apart(Sum(t'.hits), Sum(t.hits), 1, if t.hits[r] == 0xffff_ffff then -1 else 0);
  }

  lemma ServerCounts(after: nat, before: nat, hit: u32, served: bool)
    requires Grown(before, hit, 0) && Grown(after, before, if served then 1 else 0)
    ensures Grown(after, if served then Inc(hit) else hit, 0)
  {
    var k :| Apart(before, hit, 0, k);
    var m :| Apart(after, before, if served then 1 else 0, m);
    if served {
      assert Apart(after, Inc(hit), 0, if hit == 0xffff_ffff then k + m + 1 else k + m);
    } else {
      assert Apart(after, hit, 0, k + m);
    }
  }

  lemma LookupConserves<A(!new)>(f: Family<A>, t: Tables<A>, source: A, answers: Replies)
    requires TablesOk(f, t) && Conserved(t)
    ensures Conserved(PolicyLookup(f, t, source, answers).0)
  {
    var r := FirstMatch(f, t.rules, source, 0);
    if r < |t.rules| {
      ReadyKeeps(t.servers[t.rules[r].svr], answers, 0);
    }
  }

  lemma ScanConserves<A(!new)>(f: Family<A>, t: Tables<A>, source: A, answers: Replies)
    requires TablesOk(f, t) && Conserved(t)
    ensures var l := Scan(f, t, source, answers);
            && TablesOk(f, l.t) && Conserved(l.t)
            && Grown(Sum(l.t.hits), Sum(t.hits), if l.outcome.NoRoute? then 0 else 1)
  {
    PolicyLookupKeeps(f, t, source, answers);
    ScanKeeps(f, t, source, answers);
    LookupConserves(f, t, source, answers);
    var (t1, found) := PolicyLookup(f, t, source, answers);
    if found.Some? {
      CountHitConserves(f, t1, found.value);
    } else {
      GrownZero(Sum(t.hits));
    }
  }

  /** Conservation over any run: every server's counter stays the sum of its rules' counters,
      and the rules together grow by exactly the packets that were forwarded or dropped by a
      drop rule; packets without a usable rule leave no trace. */
  lemma {:induction false} HitsConserved<A(!new)>(f: Family<A>, t: Tables<A>, ps: seq<Packet<A>>)
    requires TablesOk(f, t) && Conserved(t)
    ensures Conserved(After(f, t, ps))
    ensures Grown(Sum(After(f, t, ps).hits), Sum(t.hits), Decided(Outcomes(f, t, ps)))
    decreases |ps|
  {
    if ps == [] {
      GrownZero(Sum(t.hits));
    } else {
      ScanConserves(f, t, ps[0].source, ps[0].answers);
      var l := Scan(f, t, ps[0].source, ps[0].answers);
      HitsConserved(f, l.t, ps[1..]);
      RunNext(f, t, ps, l);
      HitsChain(Sum(After(f, t, ps).hits), Sum(l.t.hits), Sum(t.hits), Outcomes(f, t, ps));
    }
  }

  lemma RunNext<A(!new)>(f: Family<A>, t: Tables<A>, ps: seq<Packet<A>>, l: Lookup<A>)
    requires TablesOk(f, t) && ps != [] && l == Scan(f, t, ps[0].source, ps[0].answers)
    ensures TablesOk(f, l.t) && After(f, t, ps) == After(f, l.t, ps[1..])
    ensures Outcomes(f, t, ps) != [] && Outcomes(f, t, ps)[0] == l.outcome
    ensures Outcomes(f, t, ps)[1..] == Outcomes(f, l.t, ps[1..])
  {
    ScanKeeps(f, t, ps[0].source, ps[0].answers);
  }

  lemma HitsChain<A>(after: nat, next: nat, before: nat, os: seq<Outcome<A>>)
    requires os != [] && Grown(after, next, Decided(os[1..]))
    requires Grown(next, before, if os[0].NoRoute? then 0 else 1)
    ensures Grown(after, before, Decided(os))
  {
    GrownChain(after, next, before, if os[0].NoRoute? then 0 else 1, Decided(os[1..]));
  }

  /** Conservation as plain equations: each server's counter is the sum over the rules naming
      it, and from `t0` to `t` the rules together have counted n packets, modulo 2^32. */
  ghost predicate CountersAgree<A>(t0: Tables<A>, t: Tables<A>, n: nat) {
    && |t.rules| == |t.hits|
    && (forall s :: 0 <= s < |t.servers| ==>
          t.servers[s].hit == Served(t.rules, t.hits, s) % 0x1_0000_0000)
    && Sum(t.hits) % 0x1_0000_0000 == (Sum(t0.hits) + n) % 0x1_0000_0000
  }

  lemma ConservedModulo<A>(t0: Tables<A>, t: Tables<A>, n: nat)
    requires Conserved(t) && Grown(Sum(t.hits), Sum(t0.hits), n)
    ensures CountersAgree(t0, t, n)
  {
    GrownIsModulo(Sum(t.hits), Sum(t0.hits), n);
    forall s | 0 <= s < |t.servers|
      ensures t.servers[s].hit == Served(t.rules, t.hits, s) % 0x1_0000_0000
    {
      ServerModulo(Served(t.rules, t.hits, s), t.servers[s].hit);
    }
  }

  lemma ServerModulo(served: nat, hit: u32)
    requires Grown(served, hit, 0)
    ensures hit == served % 0x1_0000_0000
  {
    GrownIsModulo(served, hit, 0);
  }
}
