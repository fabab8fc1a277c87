/** The policy engine of the front in the form it runs: lists, pool and buckets changed in
    place.  Every method is tied to the value machine of PolicyCache. */
module Engine {
  import opened Words
  import opened Addresses
  import opened Reference
  import opened PolicyCache
  import opened PolicyTable
  import opened PolicyRuns

  const LB_MAX_CACHE := 1024

  class PolicyEngine<A(==,!new)> {
    const f: Family<A>
    /** lb_pol_head4, with the two counters of each rule beside it. */
    var rules: seq<Rule<A>>
    var hits: seq<u32>
    var uses: seq<u32>
    var servers: seq<Server<A>>
    /** The entry pool init4, followed by fix4. */
    const cells: array<Cell<A>>
    /** lb_pol_hash_v4. */
    const buckets: array<seq<nat>>
    /** lb_pol_free4. */
    var free: seq<nat>
    /** DEL_CACHE4 in patrol_flag. */
    var patrol: bool
    /** ptr4 of proc_patrol. */
    var ptr: nat

    ghost function Tabs(): Tables<A>
      reads this
    {
      Tables(rules, hits, servers)
    }

    ghost function View(): Front<A>
      reads this, cells, buckets
    {
      Front(Tabs(), uses, cells[..], buckets[..], free, patrol, ptr)
    }

    ghost predicate Valid()
      reads this, cells, buckets
    {
      Inv(f, View())
    }

    /** Allocation and init_policy_table(0); `blank` is what malloc left in the entries. */
    constructor (f: Family<A>, blank: Cell<A>)
      requires HashesBelow(f, DIVISOR)
      ensures Valid() && this.f == f && Conserved(Tabs())
      ensures cells.Length == 1024 + 1 && buckets.Length == 4096
      ensures fresh(cells) && fresh(buckets)
      ensures !patrol && ptr == 0 && rules == [] && servers == []
      ensures free == seq(1024, i => i)
    {
      this.f := f;
      cells := new Cell<A>[LB_MAX_CACHE + 1](_ => blank);
      buckets := new seq<nat>[DIVISOR](_ => []);
      patrol, ptr := false, 0;
      rules, hits, uses, servers, free := [], [], [], [], [];
      new;
      InitPolicyTable();
    }

    /** init_svr_mng_table and init_policy_table: on a reload the pool is re-threaded as it is. */
    method InitPolicyTable()
      requires cells.Length > 0 && HashesBelow(f, buckets.Length)
      requires ptr < buckets.Length && (!patrol ==> ptr == 0)
      modifies this, cells, buckets
      ensures View() == Reset(old(View())) && Valid() && Conserved(Tabs())
    {
      ghost var was := View();
      rules, hits, uses, servers := [], [], [], [];
      for b := 0 to buckets.Length
        invariant Tabs() == Tables([], [], []) && uses == [] && patrol == was.patrol && ptr == was.ptr
        invariant forall j :: 0 <= j < b ==> buckets[j] == []
        invariant cells[..] == was.cells
      {
        buckets[b] := [];
      }
      free := [];
      for i := 0 to cells.Length - 1
        invariant Tabs() == Tables([], [], []) && uses == [] && patrol == was.patrol && ptr == was.ptr
        invariant forall j :: 0 <= j < buckets.Length ==> buckets[j] == []
        invariant free == seq(i, j => j)
        invariant forall j :: 0 <= j < i ==> cells[j] == was.cells[j].(kind := 0, stat := Init)
        invariant forall j :: i <= j < cells.Length ==> cells[j] == was.cells[j]
      {
        cells[i] := cells[i].(kind := 0, stat := Init);
        free := free + [i];
      }
      cells[cells.Length - 1] := cells[cells.Length - 1].(kind := 1);
      assert cells[..] == Reset(was).cells;
      assert buckets[..] == Reset(was).buckets;
      assert free == Reset(was).free;
      ResetInv(f, was);
    }

    /** resolve_target_mac. */
    method ResolveTargetMac(svr: nat, answers: Replies, call: nat)
      requires svr < |servers|
      modifies this`servers
      ensures servers == old(servers)[svr := Resolve(old(servers[svr]), answers, call, 0)]
    {
      var i := 0;
      while i < 3
        invariant i <= 3 && |servers| == |old(servers)|
        invariant servers == old(servers)[svr := servers[svr]]
        invariant Resolve(servers[svr], answers, call, i) == Resolve(old(servers[svr]), answers, call, 0)
      {
        var r := answers(call + i);
        servers := servers[svr := servers[svr].(mac := r.mac)];
        if r.ret >= 0 && servers[svr].mac != 0 {
          servers := servers[svr := servers[svr].(status := Ok)];
          return;
        }
        i := i + 1;
      }
    }

    /** policy_lookup4. */
    method LookupPolicy(source: A, answers: Replies) returns (found: Option<nat>)
      requires forall r :: 0 <= r < |rules| ==> rules[r].svr < |servers|
      modifies this`servers
      ensures (Tabs(), found) == PolicyLookup(f, old(Tabs()), source, answers)
    {
      ghost var t0 := Tabs();
      var r := 0;
      while r < |rules|
        invariant r <= |rules| && Tabs() == t0
        invariant FirstMatch(f, rules, source, r) == FirstMatch(f, rules, source, 0)
      {
        if f.masked(source, rules[r].mask) == rules[r].addr {
          var svr := rules[r].svr;
          var i := 0;
          while i < 4
            invariant i <= 4 && |servers| == |t0.servers|
            invariant servers == t0.servers[svr := servers[svr]]
            invariant Ready(servers[svr], answers, i) == Ready(t0.servers[svr], answers, 0)
          {
            if servers[svr].status != Init {
              return Some(r);
            }
            ResolveTargetMac(svr, answers, 3 * i);
            i := i + 1;
          }
          return None;
        }
        r := r + 1;
      }
      found := None;
    }

    /** get_free_pol_cache4. */
    method GetFreePolCache4() returns (e: nat)
      requires cells.Length > 0 && (free != [] ==> free[0] < cells.Length)
      modifies this`free, this`patrol, cells
      ensures free == (if old(free) == [] then [] else old(free)[1..])
      ensures patrol == (old(patrol) || old(free) == [])
      ensures e == (if old(free) == [] then cells.Length - 1 else old(free)[0])
      ensures cells[..] == if old(free) == [] then old(cells[..])
                           else old(cells[..])[e := old(cells[..])[e].(hit := 0)]
    {
      if free == [] {
        patrol := true;
        e := cells.Length - 1;
      } else {
        e := free[0];
        free := free[1..];
        cells[e] := cells[e].(hit := 0);
      }
    }

    /** The rest of get_pol_slow_v4 once rule `r` is found. */
    method FillEntry(r: nat, source: A) returns (entry: Option<nat>)
      requires cells.Length > 0 && f.hash(source) < buckets.Length
      requires free != [] ==> free[0] < cells.Length
      requires r < |rules| == |hits| == |uses| && rules[r].svr < |servers|
      modifies this, cells, buckets
      ensures Answer(View(), entry) == Fill(f, old(View()), old(Tabs()), r, source)
    {
      ghost var a := Fill(f, View(), Tabs(), r, source);
      var svr := rules[r].svr;
      uses := uses[r := Inc(uses[r])];
      var e := GetFreePolCache4();
      var cell := cells[e].(src := source, dst := servers[svr].ip, mac := servers[svr].mac,
                            stat := servers[svr].status, pol := r, svr := svr,
                            hit := Inc(cells[e].hit));
      hits := hits[r := Inc(hits[r])];
      servers := servers[svr := servers[svr].(hit := Inc(servers[svr].hit))];
      if cell.kind == 0 {
        var h := f.hash(source);
        buckets[h] := [e] + buckets[h];
      }
      if cell.stat == Drop {
        cell := cell.(op := None);
      } else {
        cell := cell.(delta := f.delta(cell.dst), op := Some(e));
      }
      cells[e] := cell;
      entry := cell.op;
      assert cells[..] == a.v.cells;
      assert buckets[..] == a.v.buckets;
    }

    /** get_pol_slow_v4. */
    method GetPolSlowV4(source: A, answers: Replies) returns (entry: Option<nat>)
      requires Valid()
      modifies this, cells, buckets
      ensures Answer(View(), entry) == GetPolSlow(f, old(View()), source, answers)
    {
      PolicyLookupKeeps(f, Tabs(), source, answers);
      var found := LookupPolicy(source, answers);
      if found.None? {
        return None;
      }
      entry := FillEntry(found.value, source);
    }

    /** The bucket scan of get_pol_v4. */
    method FindCached(h: nat, source: A) returns (k: nat)
      requires h < buckets.Length && forall j :: 0 <= j < |buckets[h]| ==> buckets[h][j] < cells.Length
      ensures k == Find(cells[..], buckets[h], source, 0)
    {
      k := 0;
      while k < |buckets[h]| && cells[buckets[h][k]].src != source
        invariant k <= |buckets[h]|
        invariant Find(cells[..], buckets[h], source, k) == Find(cells[..], buckets[h], source, 0)
      {
        k := k + 1;
      }
    }

    method CountHitOn(e: nat)
      requires e < cells.Length && cells[e].pol < |hits| && cells[e].svr < |servers|
      modifies this`hits, this`servers, cells
      ensures View() == Hit(old(View()), e)
    {
      ghost var v := Hit(View(), e);
      cells[e] := cells[e].(hit := Inc(cells[e].hit));
      hits := hits[cells[e].pol := Inc(hits[cells[e].pol])];
      var svr := cells[e].svr;
      servers := servers[svr := servers[svr].(hit := Inc(servers[svr].hit))];
      assert cells[..] == v.cells;
    }

    /** get_pol_v4. */
    method GetPolV4(source: A, answers: Replies) returns (entry: Option<nat>)
      requires Valid()
      modifies this, cells, buckets
      ensures Answer(View(), entry) == GetPol(f, old(View()), source, answers)
    {
      var h := f.hash(source);
      assert forall j :: 0 <= j < |buckets[h]| ==> InBucket(f, View(), h, buckets[h][j]);
      var k := FindCached(h, source);
      if k < |buckets[h]| {
        var e := buckets[h][k];
        assert Current(f, Tabs(), cells[e], e);
        CountHitOn(e);
        entry := cells[e].op;
      } else {
        entry := GetPolSlowV4(source, answers);
      }
    }

    /** The inner loop of clear_v4_cache: back to the free queue with the whole bucket. */
    method FreeBucket(p: nat)
      requires p < buckets.Length && forall j :: 0 <= j < |buckets[p]| ==> buckets[p][j] < cells.Length
      modifies this`free, cells, buckets
      ensures cells[..] == Released(old(cells[..]), old(buckets[p]))
      ensures free == old(free) + old(buckets[p])
      ensures buckets[..] == old(buckets[..])[p := []]
    {
      while buckets[p] != []
        invariant forall j :: 0 <= j < |buckets[p]| ==> buckets[p][j] < cells.Length
        invariant forall b :: 0 <= b < buckets.Length && b != p ==> buckets[b] == old(buckets[b])
        invariant free + buckets[p] == old(free) + old(buckets[p])
        invariant Released(cells[..], buckets[p]) == Released(old(cells[..]), old(buckets[p]))
        decreases |buckets[p]|
      {
        var e := buckets[p][0];
        ghost var was := cells[..];
        buckets[p] := buckets[p][1..];
        // free_pol_cache4
        cells[e] := cells[e].(stat := Init);
        free := free + [e];
        assert cells[..] == was[e := was[e].(stat := Init)];
      }
    }

    /** clear_v4_cache(ptr4). */
    method ClearV4Cache() returns (p: nat)
      requires ptr <= buckets.Length
      requires forall b, j :: 0 <= b < buckets.Length && 0 <= j < |buckets[b]| ==>
                 buckets[b][j] < cells.Length
      modifies this`free, cells, buckets
      ensures (View(), p) == ClearCache(old(View()))
    {
      ghost var v0 := View();
      var i := 0;
      p := ptr;
      while i == 0 && p != buckets.Length
        invariant ptr <= p <= buckets.Length
        invariant i == 0 ==> View() == v0 && NextBusy(v0.buckets, p) == NextBusy(v0.buckets, v0.ptr)
        invariant i != 0 ==> View() == ClearCache(v0).0 && p == ClearCache(v0).1
        decreases buckets.Length - p
      {
        i := |buckets[p]|;
        if i > 0 {
          FreeBucket(p);
        }
        p := p + 1;
      }
    }

    /** proc_patrol. */
    method ProcPatrol()
      requires Valid()
      modifies this`free, this`patrol, this`ptr, cells, buckets
      ensures View() == Patrol(old(View())) && Valid()
    {
      PatrolKeepsInv(f, View());
      if patrol {
        assert forall b, j :: 0 <= b < buckets.Length && 0 <= j < |buckets[b]| ==>
            InBucket(f, View(), b, View().buckets[b][j]);
        ptr := ClearV4Cache();
        if ptr == buckets.Length {
          ptr := 0;
          patrol := false;
        }
      }
    }

    /** parse_policy_line from get_svr_table on: create_policy_table for one accepted line. */
    method CreatePolicy(l: Line<A>)
      requires Valid()
      modifies this`rules, this`hits, this`uses, this`servers
      ensures View() == Load(f, old(View()), l) && Valid()
      ensures old(Conserved(Tabs())) ==> Conserved(Tabs())
    {
      LoadKeepsInv(f, View(), l);
      var svr := GetSvrTable(l.server, l.answers);
      rules := rules + [Rule(f.masked(l.addr, l.mask), l.mask, svr)];
      hits := hits + [0];
      uses := uses + [0];
    }

    /** find_svr_tbl. */
    method FindSvrTbl(ip: A) returns (svr: nat)
      modifies this`servers
      ensures (servers, svr) == FindOrCreate(f, old(servers), ip)
    {
      var n: nat := |servers|;
      while n > 0 && servers[n - 1].ip != ip
        invariant n <= |servers|
        invariant FindServer(servers, ip, n) == FindServer(servers, ip, |servers|)
      {
        n := n - 1;
      }
      if n > 0 {
        return n - 1;
      }
      svr := |servers|;
      servers := servers + [Server(ip, Init, 0, 0)];
      if ip == f.zero {
        servers := servers[svr := servers[svr].(status := Drop)];
        assert servers == old(servers) + [Server(ip, Drop, 0, 0)];
      }
    }

    /** get_svr_table. */
    method GetSvrTable(ip: A, answers: Replies) returns (svr: nat)
      modifies this`servers
      ensures (servers, svr) == GetServer(f, old(servers), ip, answers)
    {
      svr := FindSvrTbl(ip);
      if servers[svr].status == Init {
        ResolveTargetMac(svr, answers, 0);
      }
    }

    /** One packet through proc_v4: what is written to the network, if anything. */
    method ProcV4(source: A, answers: Replies) returns (seen: Seen<A>)
      requires Valid()
      modifies this, cells, buckets
      ensures Valid() && View() == GetPol(f, old(View()), source, answers).v
      ensures [seen] == SeenOne(f, old(View()), Arrival(Packet(source, answers)))
      ensures seen == Observe(Scan(f, old(Tabs()), source, answers).outcome)
    {
      GetPolIsScan(f, View(), source, answers);
      GetPolKeepsInv(f, View(), source, answers);
      var entry := GetPolV4(source, answers);
      match entry
      case None => seen := Dropped;
      case Some(e) => seen := Sent(cells[e].dst, cells[e].mac, cells[e].delta);
    }

    method Turn(e: Event<A>) returns (seen: seq<Seen<A>>)
      requires Valid()
      modifies this, cells, buckets
      ensures Valid() && View() == Step(f, old(View()), e) && seen == SeenOne(f, old(View()), e)
    {
      match e
      case PatrolTurn =>
        ProcPatrol();
        seen := [];
      case Arrival(p) =>
        var one := ProcV4(p.source, p.answers);
        seen := [one];
    }

    /** The first i events are behind, the others would complete the run from `v0`. */
    ghost predicate Progress(v0: Front<A>, es: seq<Event<A>>, i: nat, out: seq<Seen<A>>)
      reads this, cells, buckets
    {
      && i <= |es| && Inv(f, v0) && Valid()
      && Run(f, View(), es[i..]) == Run(f, v0, es)
      && out + SeenRun(f, View(), es[i..]) == SeenRun(f, v0, es)
    }

    /** One turn of the receive loop. */
    method Advance(es: seq<Event<A>>, i: nat, before: seq<Seen<A>>, ghost v0: Front<A>)
      returns (out: seq<Seen<A>>)
      requires i < |es| && Progress(v0, es, i, before)
      modifies this, cells, buckets
      ensures Progress(v0, es, i + 1, out)
    {
      RunFrom(f, View(), es, i);
      var seen := Turn(es[i]);
      out := before + seen;
    }

    /** The receive loop of front_ingress1 over a finite run of packets and patrol turns; `out`
        records for each packet what was written to the network. */
    method FrontIngress(es: seq<Event<A>>) returns (out: seq<Seen<A>>)
      requires Valid()
      modifies this, cells, buckets
      ensures Valid() && View() == Run(f, old(View()), es)
      ensures out == ObserveAll(Outcomes(f, old(Tabs()), Packets(es)))
    {
      ghost var v0 := View();
      Transparency(f, v0, es);
      out := [];
      assert es[0..] == es;
      for i := 0 to |es|
        invariant Progress(v0, es, i, out)
      {
        out := Advance(es, i, out, v0);
      }
      assert es[|es|..] == [];
    }
  }
}
