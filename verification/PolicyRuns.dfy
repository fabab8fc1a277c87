/** What the forwarding thread does over whole runs: any interleaving of packets and patrol
    steps, any resolver answers, any amount of pool exhaustion. */
module PolicyRuns {
  import opened Words
  import opened Addresses
  import opened Reference
  import opened PolicyCache

  /** What the receive loop of front_ingress1 does next: handle a packet, or call proc_patrol
      after a batch of packets or a timeout. */
  datatype Event<A> = Arrival(p: Packet<A>) | PatrolTurn

  ghost function Step<A(!new)>(f: Family<A>, v: Front<A>, e: Event<A>): Front<A>
    requires Inv(f, v)
  {
    match e
    case Arrival(p) => GetPol(f, v, p.source, p.answers).v
    case PatrolTurn => Patrol(v)
  }

  lemma StepKeepsInv<A(!new)>(f: Family<A>, v: Front<A>, e: Event<A>)
    requires Inv(f, v)
    ensures Inv(f, Step(f, v, e))
  {
    match e
    case Arrival(p) => GetPolKeepsInv(f, v, p.source, p.answers);
    case PatrolTurn => PatrolKeepsInv(f, v);
  }

  ghost function Run<A(!new)>(f: Family<A>, v: Front<A>, es: seq<Event<A>>): Front<A>
    requires Inv(f, v)
    decreases |es|
  {
    if es == [] then v
    else
      StepKeepsInv(f, v, es[0]);
      Run(f, Step(f, v, es[0]), es[1..])
  }

  lemma {:induction false} RunKeepsInv<A(!new)>(f: Family<A>, v: Front<A>, es: seq<Event<A>>)
    requires Inv(f, v)
    ensures Inv(f, Run(f, v, es))
    decreases |es|
  {
    if es != [] {
      StepKeepsInv(f, v, es[0]);
      RunKeepsInv(f, Step(f, v, es[0]), es[1..]);
    }
  }

  /** What the network sees of one event. */
  ghost function SeenOne<A(!new)>(f: Family<A>, v: Front<A>, e: Event<A>): seq<Seen<A>>
    requires Inv(f, v)
  {
    match e
    case PatrolTurn => []
    case Arrival(p) =>
      GetPolIsScan(f, v, p.source, p.answers);
      [SeenOf(GetPol(f, v, p.source, p.answers))]
  }

  /** What the network sees of the packets of a run. */
  ghost function SeenRun<A(!new)>(f: Family<A>, v: Front<A>, es: seq<Event<A>>): seq<Seen<A>>
    requires Inv(f, v)
    decreases |es|
  {
    if es == [] then []
    else
      StepKeepsInv(f, v, es[0]);
      SeenOne(f, v, es[0]) + SeenRun(f, Step(f, v, es[0]), es[1..])
  }

  lemma RunFrom<A(!new)>(f: Family<A>, v: Front<A>, es: seq<Event<A>>, i: nat)
    requires Inv(f, v) && i < |es|
    ensures var v' := Step(f, v, es[i]);
            && Inv(f, v')
            && Run(f, v, es[i..]) == Run(f, v', es[i + 1..])
            && SeenRun(f, v, es[i..]) == SeenOne(f, v, es[i]) + SeenRun(f, v', es[i + 1..])
  {
    StepKeepsInv(f, v, es[i]);
    assert es[i..][0] == es[i] && es[i..][1..] == es[i + 1..];
  }

  function Packets<A>(es: seq<Event<A>>): seq<Packet<A>> {
    if es == [] then []
    else (match es[0] case PatrolTurn => [] case Arrival(p) => [p]) + Packets(es[1..])
  }

  function ObserveAll<A>(os: seq<Outcome<A>>): (r: seq<Seen<A>>)
    ensures |r| == |os| && forall i :: 0 <= i < |os| ==> r[i] == Observe(os[i])
  {
    if os == [] then [] else [Observe(os[0])] + ObserveAll(os[1..])
  }

  // ---------------------------------------------------------------- refinement

  /** Cache transparency over every run: counters, servers and everything the network sees are
      those of the uncached rule scan fed the same packets and resolver answers. */
  lemma {:induction false} Transparency<A(!new)>(f: Family<A>, v: Front<A>, es: seq<Event<A>>)
    requires Inv(f, v)
    ensures Run(f, v, es).t == After(f, v.t, Packets(es))
    ensures SeenRun(f, v, es) == ObserveAll(Outcomes(f, v.t, Packets(es)))
    decreases |es|
  {
    if es != [] {
      var v' := Step(f, v, es[0]);
      StepKeepsInv(f, v, es[0]);
      Transparency(f, v', es[1..]);
      match es[0]
      case PatrolTurn =>
        PatrolKeepsInv(f, v);
        assert Packets(es) == Packets(es[1..]);
      case Arrival(p) =>
        GetPolIsScan(f, v, p.source, p.answers);
        ScanKeeps(f, v.t, p.source, p.answers);
        var ps := Packets(es);
        assert ps[0] == p && ps[1..] == Packets(es[1..]);
    }
  }

  /** Affinity of the cached front: after a packet of a source was sent, every later packet of
      the source is sent to the same backend, through evictions, refills and overflows. */
  lemma CachedAffinity<A(!new)>(f: Family<A>, v: Front<A>, es: seq<Event<A>>, i: nat, j: nat)
    requires Inv(f, v) && i <= j < |Packets(es)| && Packets(es)[i].source == Packets(es)[j].source
    ensures |SeenRun(f, v, es)| == |Packets(es)|
    ensures SeenRun(f, v, es)[i].Sent? ==>
              && SeenRun(f, v, es)[j] == SeenRun(f, v, es)[i]
              && SeenRun(f, v, es)[i].mac != 0 && SeenRun(f, v, es)[i].dst != f.zero
  {
    Transparency(f, v, es);
    Affinity(f, v.t, Packets(es), i, j);
  }

  /** Hit conservation of the cached front, although every count goes through a recycled entry. */
  lemma CachedHitsConserved<A(!new)>(f: Family<A>, v: Front<A>, es: seq<Event<A>>)
    requires Inv(f, v) && Conserved(v.t)
    ensures Conserved(Run(f, v, es).t)
    ensures CountersAgree(v.t, Run(f, v, es).t, Decided(Outcomes(f, v.t, Packets(es))))
  {
    Transparency(f, v, es);
    HitsConserved(f, v.t, Packets(es));
    ConservedModulo(v.t, Run(f, v, es).t, Decided(Outcomes(f, v.t, Packets(es))));
  }

  // ---------------------------------------------------------------- the pool is a partition

  function Occurrences(lists: seq<seq<nat>>, i: nat): nat {
    if lists == [] then 0 else multiset(lists[0])[i] + Occurrences(lists[1..], i)
  }

  lemma {:induction false} DistinctCount(s: seq<nat>, i: nat)
    requires Distinct(s)
    ensures multiset(s)[i] == if i in s then 1 else 0
  {
    if s != [] {
      assert s == [s[0]] + s[1..];
      DistinctCount(s[1..], i);
    }
  }

  lemma {:induction false} OneList(lists: seq<seq<nat>>, i: nat, h: nat)
    requires forall b :: 0 <= b < |lists| ==> Distinct(lists[b]) && (i in lists[b] ==> b == h)
    ensures Occurrences(lists, i) == if h < |lists| && i in lists[h] then 1 else 0
  {
    if lists != [] {
      DistinctCount(lists[0], i);
      if h > 0 {
        OneList(lists[1..], i, h - 1);
      } else {
        NoList(lists[1..], i);
      }
    }
  }

  lemma {:induction false} NoList(lists: seq<seq<nat>>, i: nat)
    requires forall b :: 0 <= b < |lists| ==> i !in lists[b]
    ensures Occurrences(lists, i) == 0
  {
    if lists != [] {
      NoList(lists[1..], i);
    }
  }

  /** Every pool entry is in the free queue or in exactly one bucket, exactly once; it is free
      exactly when its state is 0; a cached entry is in the bucket of its own source; the
      overflow entry is in no list. */
  lemma PoolPartition<A(!new)>(f: Family<A>, v: Front<A>, i: nat)
    requires Inv(f, v) && i < |v.cells|
    ensures multiset(v.free)[i] + Occurrences(v.buckets, i) == if i == Fix(v) then 0 else 1
    ensures i < Fix(v) ==> (i in v.free <==> v.cells[i].stat == Init)
    ensures i < Fix(v) && v.cells[i].stat != Init ==> i in v.buckets[f.hash(v.cells[i].src)]
  {
    DistinctCount(v.free, i);
    var h := f.hash(v.cells[i].src);
    forall b | 0 <= b < |v.buckets|
      ensures Distinct(v.buckets[b])
      ensures i in v.buckets[b] ==> b == h && i < Fix(v) && v.cells[i].stat != Init
    {
      if i in v.buckets[b] {
        var k :| 0 <= k < |v.buckets[b]| && v.buckets[b][k] == i;
        assert InBucket(f, v, b, v.buckets[b][k]);
      }
    }
    OneList(v.buckets, i, h);
  }

  // ---------------------------------------------------------------- the patrol sweep

  /** Some step of the run takes the sweep flag down. */
  ghost predicate SweepEnds<A(!new)>(f: Family<A>, v: Front<A>, es: seq<Event<A>>)
    requires Inv(f, v)
    decreases |es|
  {
    && es != []
    && var v' := Step(f, v, es[0]);
    StepKeepsInv(f, v, es[0]);
    (v.patrol && !v'.patrol) || SweepEnds(f, v', es[1..])
  }

  ghost predicate Cached<A>(v: Front<A>, i: nat)
    requires v.cells != []
  {
    i < Fix(v) && v.cells[i].stat != Init
  }

  /** Some step, made before the sweep flag goes down or taking it down, puts entry i back into
      the free queue. */
  ghost predicate Evicted<A(!new)>(f: Family<A>, v: Front<A>, es: seq<Event<A>>, i: nat)
    requires Inv(f, v)
    decreases |es|
  {
    && es != []
    && var v' := Step(f, v, es[0]);
    StepKeepsInv(f, v, es[0]);
    (Cached(v, i) && !Cached(v', i)) || (v'.patrol && Evicted(f, v', es[1..], i))
  }

  function PatrolTurns<A>(es: seq<Event<A>>): nat {
    if es == [] then 0 else (if es[0].PatrolTurn? then 1 else 0) + PatrolTurns(es[1..])
  }

  /** A patrol step of a sweep ends it at pointer 0, or advances the pointer and frees an entry. */
  lemma PatrolProgress<A(!new)>(f: Family<A>, v: Front<A>)
    requires Inv(f, v) && v.patrol
    ensures var v' := Patrol(v);
            && |v'.buckets| == |v.buckets|
            && (if v'.patrol then v'.ptr > v.ptr && |v'.free| > |v.free| else v'.ptr == 0)
            && v.free <= v'.free
  {}

  lemma FillKeepsPlaces<A(!new)>(f: Family<A>, v: Front<A>, t: Tables<A>, r: nat, source: A, i: nat)
    requires Fillable(f, v, t, r, source)
    ensures var v' := Fill(f, v, t, r, source).v;
            && v'.ptr == v.ptr && (v'.patrol <==> v.patrol || v.free == [])
            && |v'.buckets| == |v.buckets| && |v'.cells| == |v.cells|
            && (Cached(v, i) ==> Cached(v', i) && v'.cells[i].src == v.cells[i].src)
  {}

  /** A packet leaves the pointer and every cached entry in place, and raises the flag only when
      the free queue is empty. */
  lemma ArrivalKeepsPlaces<A(!new)>(f: Family<A>, v: Front<A>, p: Packet<A>, i: nat)
    requires Inv(f, v)
    ensures var v' := GetPol(f, v, p.source, p.answers).v;
            && v'.ptr == v.ptr && (v.patrol ==> v'.patrol) && |v'.buckets| == |v.buckets|
            && |v'.cells| == |v.cells|
            && (v'.patrol && !v.patrol ==> v.free == [])
            && (Cached(v, i) ==> Cached(v', i) && v'.cells[i].src == v.cells[i].src)
  {
    var e := HitOrMiss(f, v, p.source, p.answers);
    if e.None? {
      GetPolSlowFills(f, v, p.source, p.answers);
      var (t, found) := PolicyLookup(f, v.t, p.source, p.answers);
      if found.Some? {
        FillKeepsPlaces(f, v, t, found.value, p.source, i);
      }
    }
  }

  /** A patrol step evicts a cached entry or leaves it beyond the pointer. */
  lemma PatrolKeepsBeyond<A(!new)>(f: Family<A>, v: Front<A>, i: nat)
    requires Inv(f, v) && v.patrol && Cached(v, i) && f.hash(v.cells[i].src) >= v.ptr
    ensures var v' := Step(f, v, PatrolTurn);
            Cached(v', i) ==> && v'.patrol && v'.cells[i].src == v.cells[i].src
                              && f.hash(v.cells[i].src) >= v'.ptr
  {}

  /** Sweep completeness: when the flag of a sweep goes down, every entry that was cached at or
      beyond its pointer has been evicted, whatever was inserted meanwhile.  A sweep starts
      with pointer 0, so this covers every entry cached before it started. */
  lemma {:induction false} SweepEvicts<A(!new)>(f: Family<A>, v: Front<A>, es: seq<Event<A>>, i: nat)
    requires Inv(f, v) && v.patrol && SweepEnds(f, v, es)
    requires Cached(v, i) && f.hash(v.cells[i].src) >= v.ptr
    ensures Evicted(f, v, es, i)
    decreases |es|
  {
    var v' := Step(f, v, es[0]);
    StepKeepsInv(f, v, es[0]);
    match es[0] {
      case PatrolTurn => PatrolKeepsBeyond(f, v, i);
      case Arrival(p) => ArrivalKeepsPlaces(f, v, p, i);
    }
    if Cached(v', i) {
      SweepEvicts(f, v', es[1..], i);
    }
  }

  /** A sweep is requested only by an overflow, and then starts at pointer 0. */
  lemma SweepStartsAtZero<A(!new)>(f: Family<A>, v: Front<A>, e: Event<A>)
    requires Inv(f, v) && !v.patrol && Step(f, v, e).patrol
    ensures Step(f, v, e).ptr == 0 && v.free == [] && e.Arrival?
  {}

  /** A sweep ends within as many patrol steps as buckets lie at or beyond its pointer. */
  lemma {:induction false} SweepBounded<A(!new)>(f: Family<A>, v: Front<A>, es: seq<Event<A>>)
    requires Inv(f, v) && v.patrol && PatrolTurns(es) >= |v.buckets| - v.ptr
    ensures SweepEnds(f, v, es)
    decreases |es|
  {
    var v' := Step(f, v, es[0]);
    StepKeepsInv(f, v, es[0]);
    match es[0] {
      case PatrolTurn => PatrolProgress(f, v);
      case Arrival(p) => ArrivalKeepsPlaces(f, v, p, 0);
    }
    if v'.patrol {
      SweepBounded(f, v', es[1..]);
    }
  }

  /** A whole sweep, from the overflow that asks for it: it ends within as many patrol calls as
      there are buckets, and by then every entry cached before it has been evicted, whatever
      packets come in between. */
  lemma SweepComplete<A(!new)>(f: Family<A>, v: Front<A>, es: seq<Event<A>>, i: nat)
    requires Inv(f, v) && !v.patrol && es != [] && Step(f, v, es[0]).patrol
    requires PatrolTurns(es) >= |v.buckets|
    ensures Inv(f, Step(f, v, es[0])) && SweepEnds(f, Step(f, v, es[0]), es[1..])
    ensures Cached(v, i) ==> Evicted(f, Step(f, v, es[0]), es[1..], i)
  {
    var v' := Step(f, v, es[0]);
    StepKeepsInv(f, v, es[0]);
    SweepStartsAtZero(f, v, es[0]);
    ArrivalKeepsPlaces(f, v, es[0].p, i);
    SweepBounded(f, v', es[1..]);
    if Cached(v, i) {
      SweepEvicts(f, v', es[1..], i);
    }
  }
}
