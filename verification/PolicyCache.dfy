/** The cached policy engine of the front as a machine on values: what one packet and one
    patrol step do to the tables, the entry pool, the hash buckets and the free queue
    (front/pol_lookup.c, front/front.c proc_patrol).  A pointer to a pool entry, a rule
    counter or a server counter is the index of the entry, the rule or the server; the last
    cell is the overflow entry fix4. */
module PolicyCache {
  import opened Words
  import opened Addresses
  import opened Reference

  /** `kind` is lb_cache_type: 0 for pool entries, 1 for the overflow entry. */
  datatype Cell<A> = Cell(src: A, dst: A, mac: Mac, kind: nat, stat: Status, delta: u16,
                          hit: u32, pol: nat, svr: nat, op: Option<nat>)

  datatype Front<A> = Front(t: Tables<A>, uses: seq<u32>, cells: seq<Cell<A>>,
                            buckets: seq<seq<nat>>, free: seq<nat>, patrol: bool, ptr: nat)

  datatype Answer<A> = Answer(v: Front<A>, entry: Option<nat>)

  /** What the network sees of a packet. */
  datatype Seen<A> = Dropped | Sent(dst: A, mac: Mac, delta: u16)

  function Observe<A>(o: Outcome<A>): Seen<A> {
    match o
    case Forward(dst, mac, delta) => Sent(dst, mac, delta)
    case NoRoute => Dropped
    case DropRule => Dropped
  }

  // ---------------------------------------------------------------- the invariant

  function Fix<A>(v: Front<A>): nat
    requires v.cells != []
  {
    |v.cells| - 1
  }

  ghost predicate Distinct(s: seq<nat>) {
    forall i, j :: 0 <= i < j < |s| ==> s[i] != s[j]
  }

  ghost predicate Shape<A(!new)>(f: Family<A>, v: Front<A>) {
    && |v.uses| == |v.t.rules|
    && v.cells != []
    && (forall i :: 0 <= i < |v.cells| ==> (v.cells[i].kind == 0 <==> i < Fix(v)))
    && HashesBelow(f, |v.buckets|)
    && v.ptr < |v.buckets|
    && (!v.patrol ==> v.ptr == 0)
  }

  ghost predicate FreeOk<A>(v: Front<A>)
    requires v.cells != []
  {
    && Distinct(v.free)
    && forall k :: 0 <= k < |v.free| ==> v.free[k] < Fix(v) && v.cells[v.free[k]].stat == Init
  }

  ghost predicate BucketsOk<A>(f: Family<A>, v: Front<A>)
    requires v.cells != []
  {
    forall b :: 0 <= b < |v.buckets| ==>
      && Distinct(v.buckets[b])
      && forall k :: 0 <= k < |v.buckets[b]| ==> InBucket(f, v, b, v.buckets[b][k])
  }

  ghost predicate InBucket<A>(f: Family<A>, v: Front<A>, b: nat, i: nat)
    requires v.cells != []
  {
    i < Fix(v) && v.cells[i].stat != Init && f.hash(v.cells[i].src) == b
  }

  ghost predicate Covered<A(!new)>(f: Family<A>, v: Front<A>)
    requires v.cells != [] && HashesBelow(f, |v.buckets|)
  {
    forall i :: 0 <= i < Fix(v) ==>
      if v.cells[i].stat == Init then i in v.free else i in v.buckets[f.hash(v.cells[i].src)]
  }

  ghost predicate OnePerSource<A>(v: Front<A>)
    requires v.cells != []
  {
    forall i, j :: 0 <= i < j < Fix(v) && v.cells[i].stat != Init && v.cells[j].stat != Init ==>
      v.cells[i].src != v.cells[j].src
  }

  /** A cached entry says what a scan of the tables would say now. */
  ghost predicate Current<A(!new)>(f: Family<A>, t: Tables<A>, c: Cell<A>, self: nat) {
    && FirstMatch(f, t.rules, c.src, 0) == c.pol < |t.rules|
    && t.rules[c.pol].svr == c.svr < |t.servers|
    && var s := t.servers[c.svr];
    && s.status == c.stat != Init
    && c.dst == s.ip && c.mac == s.mac
    && c.op == (if c.stat == Drop then None else Some(self))
    && (c.stat == Ok ==> c.delta == f.delta(s.ip))
  }

  ghost predicate Coherent<A(!new)>(f: Family<A>, v: Front<A>)
    requires v.cells != []
  {
    forall i :: 0 <= i < Fix(v) && v.cells[i].stat != Init ==> Current(f, v.t, v.cells[i], i)
  }

  ghost predicate Inv<A(!new)>(f: Family<A>, v: Front<A>) {
    && TablesOk(f, v.t) && Shape(f, v)
    && FreeOk(v) && BucketsOk(f, v) && Covered(f, v) && OnePerSource(v)
    && Coherent(f, v)
  }

  // ---------------------------------------------------------------- one packet

  /** The first position from `k` on in a bucket list whose entry caches the source. */
  function Find<A(==)>(cells: seq<Cell<A>>, list: seq<nat>, source: A, k: nat): (r: nat)
    requires k <= |list| && forall j :: 0 <= j < |list| ==> list[j] < |cells|
    ensures k <= r <= |list|
    ensures forall j :: k <= j < r ==> cells[list[j]].src != source
    ensures r < |list| ==> cells[list[r]].src == source
    decreases |list| - k
  {
    if k == |list| || cells[list[k]].src == source then k else Find(cells, list, source, k + 1)
  }

  function Hit<A>(v: Front<A>, e: nat): Front<A>
    requires e < |v.cells| && v.cells[e].pol < |v.t.hits| && v.cells[e].svr < |v.t.servers|
  {
    v.(cells := v.cells[e := v.cells[e].(hit := Inc(v.cells[e].hit))],
       t := CountHit(v.t, v.cells[e].pol, v.cells[e].svr))
  }

  /** get_pol_slow_v4 after the scan found rule `r` and left the tables as `t`. */
  function Fill<A>(f: Family<A>, v: Front<A>, t: Tables<A>, r: nat, source: A): Answer<A>
    requires v.cells != [] && f.hash(source) < |v.buckets| && (v.free != [] ==> v.free[0] < |v.cells|)
    requires r < |t.rules| == |t.hits| == |v.uses| && t.rules[r].svr < |t.servers|
  {
    var svr := t.rules[r].svr;
    var s := t.servers[svr];
    var empty := v.free == [];
    var e := if empty then Fix(v) else v.free[0];
    var was := v.cells[e];
    var cell := Cell(source, s.ip, s.mac, was.kind, s.status,
                     if s.status == Drop then was.delta else f.delta(s.ip),
                     Inc(if empty then was.hit else 0), r, svr,
                     if s.status == Drop then None else Some(e));
    var h := f.hash(source);
    Answer(Front(CountHit(t, r, svr),
                 v.uses[r := Inc(v.uses[r])],
                 v.cells[e := cell],
                 if was.kind == 0 then v.buckets[h := [e] + v.buckets[h]] else v.buckets,
                 if empty then v.free else v.free[1..],
                 v.patrol || empty,
                 v.ptr),
           cell.op)
  }

  /** get_pol_slow_v4. */
  ghost function GetPolSlow<A(!new)>(f: Family<A>, v: Front<A>, source: A, answers: Replies): Answer<A>
    requires Inv(f, v)
  {
    PolicyLookupKeeps(f, v.t, source, answers);
    var (t, found) := PolicyLookup(f, v.t, source, answers);
    match found
    case None => Answer(v.(t := t), None)
    case Some(r) => Fill(f, v, t, r, source)
  }

  /** get_pol_v4. */
  ghost function GetPol<A(!new)>(f: Family<A>, v: Front<A>, source: A, answers: Replies): Answer<A>
    requires Inv(f, v)
  {
    assert f.hash(source) < |v.buckets|;
    var list := v.buckets[f.hash(source)];
    assert forall j :: 0 <= j < |list| ==> InBucket(f, v, f.hash(source), list[j]);
    var k := Find(v.cells, list, source, 0);
    if k < |list| then
      assert Current(f, v.t, v.cells[list[k]], list[k]);
      Answer(Hit(v, list[k]), v.cells[list[k]].op)
    else GetPolSlow(f, v, source, answers)
  }

  /** What proc_v4 makes of the entry it got. */
  function SeenOf<A>(a: Answer<A>): Seen<A>
    requires a.entry.Some? ==> a.entry.value < |a.v.cells|
  {
    match a.entry
    case None => Dropped
    case Some(e) => Sent(a.v.cells[e].dst, a.v.cells[e].mac, a.v.cells[e].delta)
  }

  // ---------------------------------------------------------------- one patrol step

  /** The first non-empty bucket from `p` on, or the number of buckets. */
  function NextBusy(buckets: seq<seq<nat>>, p: nat): (b: nat)
    requires p <= |buckets|
    ensures p <= b <= |buckets|
    ensures forall j :: p <= j < b ==> buckets[j] == []
    ensures b < |buckets| ==> buckets[b] != []
    decreases |buckets| - p
  {
    if p == |buckets| || buckets[p] != [] then p else NextBusy(buckets, p + 1)
  }

  /** The cells after free_pol_cache4 on each entry of a list. */
  function Released<A>(cells: seq<Cell<A>>, list: seq<nat>): (r: seq<Cell<A>>)
    ensures |r| == |cells|
    ensures forall i :: 0 <= i < |cells| ==>
              r[i] == if i in list then cells[i].(stat := Init) else cells[i]
    decreases |list|
  {
    if list == [] then cells
    else if list[0] < |cells| then
      Released(cells[list[0] := cells[list[0]].(stat := Init)], list[1..])
    else Released(cells, list[1..])
  }

  /** clear_v4_cache: frees the entries of the first busy bucket from the pointer on. */
  function ClearCache<A>(v: Front<A>): (r: (Front<A>, nat))
    requires v.ptr <= |v.buckets|
    ensures r.1 <= |v.buckets|
  {
    var b := NextBusy(v.buckets, v.ptr);
    if b == |v.buckets| then (v, b)
    else (v.(cells := Released(v.cells, v.buckets[b]), free := v.free + v.buckets[b],
             buckets := v.buckets[b := []]), b + 1)
  }

  /** proc_patrol. */
  function Patrol<A>(v: Front<A>): Front<A>
    requires v.ptr <= |v.buckets|
  {
    if !v.patrol then v
    else
      var (v', p) := ClearCache(v);
      if p == |v.buckets| then v'.(ptr := 0, patrol := false) else v'.(ptr := p)
  }

  // ---------------------------------------------------------------- packets keep the invariant

  lemma NewTablesKeepInv<A(!new)>(f: Family<A>, v: Front<A>, t: Tables<A>)
    requires Inv(f, v) && Later(v.t, t) && TablesOk(f, t)
    ensures Inv(f, v.(t := t))
  {}

  lemma CellHitKeepsInv<A(!new)>(f: Family<A>, v: Front<A>, e: nat)
    requires Inv(f, v) && e < |v.cells|
    ensures Inv(f, v.(cells := v.cells[e := v.cells[e].(hit := Inc(v.cells[e].hit))]))
  {}

  lemma HitKeepsInv<A(!new)>(f: Family<A>, v: Front<A>, e: nat)
    requires Inv(f, v) && e < |v.cells| && Current(f, v.t, v.cells[e], e)
    ensures Inv(f, Hit(v, e))
  {
    CellHitKeepsInv(f, v, e);
    CountHitKeeps(f, v.t, v.cells[e].pol, v.cells[e].svr);
    NewTablesKeepInv(f, v.(cells := v.cells[e := v.cells[e].(hit := Inc(v.cells[e].hit))]),
                     CountHit(v.t, v.cells[e].pol, v.cells[e].svr));
  }

  ghost predicate NotCached<A>(v: Front<A>, source: A)
    requires v.cells != []
  {
    forall i :: 0 <= i < Fix(v) && v.cells[i].stat != Init ==> v.cells[i].src != source
  }

  lemma MissMeansNotCached<A(!new)>(f: Family<A>, v: Front<A>, source: A)
    requires Inv(f, v)
    requires var list := v.buckets[f.hash(source)];
             forall k :: 0 <= k < |list| ==> v.cells[list[k]].src != source
    ensures NotCached(v, source)
  {}

  /** The preconditions under which get_pol_slow_v4 fills an entry. */
  ghost predicate Fillable<A(!new)>(f: Family<A>, v: Front<A>, t: Tables<A>, r: nat, source: A) {
    && Inv(f, v) && Later(v.t, t) && TablesOk(f, t)
    && r == FirstMatch(f, t.rules, source, 0) < |t.rules|
    && t.servers[t.rules[r].svr].status != Init
    && NotCached(v, source)
  }

  lemma FilledCellIsCurrent<A(!new)>(f: Family<A>, v: Front<A>, t: Tables<A>, r: nat, source: A)
    requires Fillable(f, v, t, r, source)
    ensures var e := if v.free == [] then Fix(v) else v.free[0];
            var a := Fill(f, v, t, r, source);
            && e < |v.cells| && a.v.cells == v.cells[e := a.v.cells[e]]
            && a.v.cells[e].src == source && a.v.cells[e].kind == v.cells[e].kind
            && a.entry == a.v.cells[e].op
            && Current(f, a.v.t, a.v.cells[e], e)
            && Later(v.t, a.v.t) && TablesOk(f, a.v.t)
  {}

  lemma FillFixKeepsInv<A(!new)>(f: Family<A>, v: Front<A>, t: Tables<A>, r: nat, source: A)
    requires Fillable(f, v, t, r, source) && v.free == []
    ensures Inv(f, Fill(f, v, t, r, source).v)
  {
    FilledCellIsCurrent(f, v, t, r, source);
    var v' := Fill(f, v, t, r, source).v;
    NewTablesKeepInv(f, v, v'.t);
    forall b | 0 <= b < |v.buckets|
      ensures forall k :: 0 <= k < |v.buckets[b]| ==> InBucket(f, v', b, v.buckets[b][k])
    {
      assert forall k :: 0 <= k < |v.buckets[b]| ==> InBucket(f, v, b, v.buckets[b][k]);
    }
  }

  /** Moving the first free entry into the bucket of the source it now caches. */
  lemma TakeKeepsBuckets<A>(f: Family<A>, v: Front<A>, v': Front<A>, e: nat, h: nat)
    requires v.cells != [] && FreeOk(v) && BucketsOk(f, v)
    requires v.free != [] && e == v.free[0] && h < |v.buckets|
    requires |v'.cells| == |v.cells| && v'.cells == v.cells[e := v'.cells[e]]
    requires v'.buckets == v.buckets[h := [e] + v.buckets[h]]
    requires v'.cells[e].stat != Init && f.hash(v'.cells[e].src) == h
    ensures BucketsOk(f, v')
  {}

  lemma TakeKeepsFree<A>(v: Front<A>, v': Front<A>, e: nat)
    requires v.cells != [] && FreeOk(v) && v.free != [] && e == v.free[0]
    requires |v'.cells| == |v.cells| && v'.cells == v.cells[e := v'.cells[e]]
    requires v'.free == v.free[1..]
    ensures FreeOk(v')
  {}

  lemma TakeKeepsCovered<A(!new)>(f: Family<A>, v: Front<A>, v': Front<A>, e: nat, h: nat)
    requires v.cells != [] && HashesBelow(f, |v.buckets|) && Covered(f, v)
    requires v.free != [] && e == v.free[0] < |v.cells| && h < |v.buckets|
    requires |v'.cells| == |v.cells| && v'.cells == v.cells[e := v'.cells[e]]
    requires v'.buckets == v.buckets[h := [e] + v.buckets[h]] && v'.free == v.free[1..]
    requires v'.cells[e].stat != Init && f.hash(v'.cells[e].src) == h
    ensures Covered(f, v')
  {}

  lemma TakeKeepsOnePerSource<A>(v: Front<A>, v': Front<A>, e: nat)
    requires v.cells != [] && OnePerSource(v) && e < Fix(v)
    requires |v'.cells| == |v.cells| && v'.cells == v.cells[e := v'.cells[e]]
    requires NotCached(v, v'.cells[e].src)
    ensures OnePerSource(v')
  {}

  lemma TakeKeepsCoherent<A(!new)>(f: Family<A>, v: Front<A>, v': Front<A>, e: nat)
    requires v.cells != [] && Coherent(f, v) && e < Fix(v) && Later(v.t, v'.t)
    requires |v'.cells| == |v.cells| && v'.cells == v.cells[e := v'.cells[e]]
    requires Current(f, v'.t, v'.cells[e], e)
    ensures Coherent(f, v')
  {
    forall i | 0 <= i < Fix(v') && v'.cells[i].stat != Init
      ensures Current(f, v'.t, v'.cells[i], i)
    {
      if i != e {
        LaterKeepsCurrent(f, v.t, v'.t, v.cells[i], i);
      }
    }
  }

  lemma LaterKeepsCurrent<A(!new)>(f: Family<A>, t: Tables<A>, t': Tables<A>, c: Cell<A>, self: nat)
    requires Later(t, t') && Current(f, t, c, self)
    ensures Current(f, t', c, self)
  {
    assert Settled(t.servers[c.svr], t'.servers[c.svr]);
  }

  lemma FillPoolKeepsInv<A(!new)>(f: Family<A>, v: Front<A>, t: Tables<A>, r: nat, source: A)
    requires Fillable(f, v, t, r, source) && v.free != []
    ensures Inv(f, Fill(f, v, t, r, source).v)
  {
    FilledCellIsCurrent(f, v, t, r, source);
    var e, h, v' := v.free[0], f.hash(source), Fill(f, v, t, r, source).v;
    TakeKeepsFree(v, v', e);
    TakeKeepsBuckets(f, v, v', e, h);
    TakeKeepsCovered(f, v, v', e, h);
    TakeKeepsOnePerSource(v, v', e);
    TakeKeepsCoherent(f, v, v', e);
  }

  lemma GetPolSlowFills<A(!new)>(f: Family<A>, v: Front<A>, source: A, answers: Replies)
    requires Inv(f, v) && NotCached(v, source)
    ensures var (t, found) := PolicyLookup(f, v.t, source, answers);
            && TablesOk(f, t) && Later(v.t, t)
            && (found.Some? ==> Fillable(f, v, t, found.value, source))
  {
    PolicyLookupKeeps(f, v.t, source, answers);
  }

  /** A packet either hits an entry that is current, or is not cached and takes the slow path. */
  lemma HitOrMiss<A(!new)>(f: Family<A>, v: Front<A>, source: A, answers: Replies)
    returns (e: Option<nat>)
    requires Inv(f, v)
    ensures match e
            case Some(i) =>
              && i < Fix(v) && v.cells[i].stat != Init && v.cells[i].src == source
              && Current(f, v.t, v.cells[i], i)
              && GetPol(f, v, source, answers) == Answer(Hit(v, i), v.cells[i].op)
            case None =>
              NotCached(v, source) && GetPol(f, v, source, answers) == GetPolSlow(f, v, source, answers)
  {
    var h := f.hash(source);
    var list := v.buckets[h];
    assert forall j :: 0 <= j < |list| ==> InBucket(f, v, h, list[j]);
    var k := Find(v.cells, list, source, 0);
    if k < |list| {
      assert Current(f, v.t, v.cells[list[k]], list[k]);
      e := Some(list[k]);
    } else {
      MissMeansNotCached(f, v, source);
      e := None;
    }
  }

  /** One packet keeps the invariant, whatever the resolver answers and however full the pool. */
  lemma GetPolKeepsInv<A(!new)>(f: Family<A>, v: Front<A>, source: A, answers: Replies)
    requires Inv(f, v)
    ensures Inv(f, GetPol(f, v, source, answers).v)
  {
    var e := HitOrMiss(f, v, source, answers);
    if e.Some? {
      HitKeepsInv(f, v, e.value);
    } else {
      GetPolSlowFills(f, v, source, answers);
      var (t, found) := PolicyLookup(f, v.t, source, answers);
      if found.None? {
        NewTablesKeepInv(f, v, t);
      } else if v.free == [] {
        FillFixKeepsInv(f, v, t, found.value, source);
      } else {
        FillPoolKeepsInv(f, v, t, found.value, source);
      }
    }
  }

  // ---------------------------------------------------------------- transparency

  lemma SlowPathIsScan<A(!new)>(f: Family<A>, v: Front<A>, source: A, answers: Replies)
    requires Inv(f, v) && NotCached(v, source)
    ensures var a := GetPolSlow(f, v, source, answers);
            var l := Scan(f, v.t, source, answers);
            && (a.entry.Some? ==> a.entry.value < |a.v.cells|)
            && a.v.t == l.t && SeenOf(a) == Observe(l.outcome)
  {}

  /** Cache transparency for one packet: hit, refill and overflow all leave the counters and
      servers, and send or drop the packet, exactly as the uncached scan does. */
  lemma GetPolIsScan<A(!new)>(f: Family<A>, v: Front<A>, source: A, answers: Replies)
    requires Inv(f, v)
    ensures var a := GetPol(f, v, source, answers);
            var l := Scan(f, v.t, source, answers);
            && (a.entry.Some? ==> a.entry.value < |a.v.cells|)
            && a.v.t == l.t && SeenOf(a) == Observe(l.outcome)
  {
    var e := HitOrMiss(f, v, source, answers);
    if e.Some? {
      ScanOfSettled(f, v.t, source, answers);
    } else {
      SlowPathIsScan(f, v, source, answers);
    }
  }

  /** A packet whose rule is usable is cached from then on, as long as an entry was free; when
      none was, the sweep is requested and the cache stays as it was. */
  lemma MissIsCached<A(!new)>(f: Family<A>, v: Front<A>, source: A, answers: Replies)
    requires Inv(f, v) && NotCached(v, source)
    ensures var v' := GetPol(f, v, source, answers).v;
            var decided := !Scan(f, v.t, source, answers).outcome.NoRoute?;
            && (decided && v.free != [] ==> !NotCached(v', source) && v'.free == v.free[1..]
                                            && v'.patrol == v.patrol)
            && (decided && v.free == [] ==> v'.patrol && v'.buckets == v.buckets && v'.free == [])
            && (!decided ==> v' == v.(t := v'.t))
  {
    var e := HitOrMiss(f, v, source, answers);
    GetPolSlowFills(f, v, source, answers);
    var (t, found) := PolicyLookup(f, v.t, source, answers);
    if found.Some? {
      FilledCellIsCurrent(f, v, t, found.value, source);
    }
  }

  /** All that a hit touches: the hit counter of the entry, of its rule and of its server. */
  lemma HitTouches<A(!new)>(f: Family<A>, v: Front<A>, source: A, answers: Replies, e: nat)
    requires Inv(f, v) && e < Fix(v) && v.cells[e].stat != Init && v.cells[e].src == source
    ensures var a, c := GetPol(f, v, source, answers), v.cells[e];
            && a.entry == (if c.stat == Drop then None else Some(e))
            && c.pol == FirstMatch(f, v.t.rules, source, 0) < |v.t.rules| == |v.t.hits|
            && c.svr == v.t.rules[c.pol].svr < |v.t.servers|
            && a.v == v.(cells := v.cells[e := c.(hit := Inc(c.hit))], t := a.v.t)
            && a.v.t.rules == v.t.rules && a.v.t.hits == v.t.hits[c.pol := Inc(v.t.hits[c.pol])]
            && a.v.t.servers == v.t.servers[c.svr :=
                 v.t.servers[c.svr].(hit := Inc(v.t.servers[c.svr].hit))]
  {
    var found := HitOrMiss(f, v, source, answers);
    assert found == Some(e);
    assert Current(f, v.t, v.cells[e], e);
  }

  /** All that a decided miss touches beside the tables: one entry, the first free one or fix4,
      which then holds the source with its rule and server; the use counter of the rule; and the
      places of the entry. */
  lemma MissTouches<A(!new)>(f: Family<A>, v: Front<A>, source: A, answers: Replies, r: nat, e: nat)
    requires Inv(f, v) && NotCached(v, source) && r == FirstMatch(f, v.t.rules, source, 0)
    requires !Scan(f, v.t, source, answers).outcome.NoRoute?
    requires e == if v.free == [] then Fix(v) else v.free[0]
    ensures var v' := GetPol(f, v, source, answers).v;
            && e < |v.cells| && r < |v.uses| && f.hash(source) < |v.buckets|
            && v'.cells == v.cells[e := v'.cells[e]]
            && v'.cells[e].src == source && v'.cells[e].kind == v.cells[e].kind
            && v'.cells[e].hit == (if v.free == [] then Inc(v.cells[e].hit) else 1)
            && Current(f, v'.t, v'.cells[e], e)
            && v'.uses == v.uses[r := Inc(v.uses[r])]
            && v'.free == (if v.free == [] then [] else v.free[1..])
            && v'.buckets == (if v.free == [] then v.buckets
                              else v.buckets[f.hash(source) := [e] + v.buckets[f.hash(source)]])
            && v'.patrol == (v.patrol || v.free == []) && v'.ptr == v.ptr
  {
    var found := HitOrMiss(f, v, source, answers);
    GetPolSlowFills(f, v, source, answers);
    var (t, rule) := PolicyLookup(f, v.t, source, answers);
    FilledCellIsCurrent(f, v, t, rule.value, source);
  }

  // ---------------------------------------------------------------- patrol keeps the invariant

  lemma ClearKeepsFree<A(!new)>(f: Family<A>, v: Front<A>, b: nat)
    requires v.cells != [] && FreeOk(v) && BucketsOk(f, v) && b < |v.buckets|
    ensures FreeOk(v.(cells := Released(v.cells, v.buckets[b]), free := v.free + v.buckets[b]))
  {}

  lemma ClearKeepsBuckets<A(!new)>(f: Family<A>, v: Front<A>, b: nat)
    requires v.cells != [] && BucketsOk(f, v) && b < |v.buckets|
    ensures BucketsOk(f, v.(cells := Released(v.cells, v.buckets[b]), buckets := v.buckets[b := []]))
  {}

  lemma ClearKeepsCovered<A(!new)>(f: Family<A>, v: Front<A>, b: nat)
    requires v.cells != [] && HashesBelow(f, |v.buckets|) && b < |v.buckets|
    requires Covered(f, v) && BucketsOk(f, v)
    ensures Covered(f, v.(cells := Released(v.cells, v.buckets[b]), free := v.free + v.buckets[b],
                          buckets := v.buckets[b := []]))
  {}

  lemma ClearCacheKeepsInv<A(!new)>(f: Family<A>, v: Front<A>)
    requires Inv(f, v)
    ensures Inv(f, ClearCache(v).0)
  {
    var b := NextBusy(v.buckets, v.ptr);
    if b < |v.buckets| {
      ClearKeepsFree(f, v, b);
      ClearKeepsBuckets(f, v, b);
      ClearKeepsCovered(f, v, b);
      var v' := ClearCache(v).0;
      assert forall i :: 0 <= i < Fix(v') && v'.cells[i].stat != Init ==> v'.cells[i] == v.cells[i];
    }
  }

  lemma PatrolKeepsInv<A(!new)>(f: Family<A>, v: Front<A>)
    requires Inv(f, v)
    ensures Inv(f, Patrol(v))
    ensures Patrol(v).t == v.t
  {
    ClearCacheKeepsInv(f, v);
    if v.patrol {
      var (v', p) := ClearCache(v);
      MovePointerKeepsInv(f, v', if p == |v.buckets| then 0 else p, p < |v.buckets|);
    }
  }

  lemma MovePointerKeepsInv<A(!new)>(f: Family<A>, v: Front<A>, p: nat, patrol: bool)
    requires Inv(f, v) && p < |v.buckets| && (!patrol ==> p == 0)
    ensures Inv(f, v.(ptr := p, patrol := patrol))
  {}

  /** All that a patrol step of a sweep touches: the first bucket in use from the pointer on, if
      there is one.  Its entries go to the end of the free queue in their order. */
  lemma PatrolTouches<A(!new)>(f: Family<A>, v: Front<A>, b: nat)
    requires Inv(f, v) && v.patrol && v.ptr <= b <= |v.buckets|
    requires forall j :: v.ptr <= j < b ==> v.buckets[j] == []
    requires b < |v.buckets| ==> v.buckets[b] != []
    ensures var v' := Patrol(v);
            && v'.t == v.t && v'.uses == v.uses && |v'.cells| == |v.cells|
            && v'.free == v.free + (if b < |v.buckets| then v.buckets[b] else [])
            && v'.buckets == (if b < |v.buckets| then v.buckets[b := []] else v.buckets)
            && (forall i :: 0 <= i < |v.cells| ==>
                  v'.cells[i] == if b < |v.buckets| && i in v.buckets[b] then v.cells[i].(stat := Init)
                                 else v.cells[i])
            && (v'.patrol <==> b + 1 < |v.buckets|)
            && v'.ptr == (if b + 1 < |v.buckets| then b + 1 else 0)
  {
    NextBusyIs(v.buckets, v.ptr, b);
  }

  lemma {:induction false} NextBusyIs(buckets: seq<seq<nat>>, p: nat, b: nat)
    requires p <= b <= |buckets| && forall j :: p <= j < b ==> buckets[j] == []
    requires b < |buckets| ==> buckets[b] != []
    ensures NextBusy(buckets, p) == b
    decreases b - p
  {
    if p < b {
      NextBusyIs(buckets, p + 1, b);
    }
  }
}
