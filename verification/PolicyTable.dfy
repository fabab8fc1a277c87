/** Building the tables from the policy file (front/pol_tbl.c create_policy_table and
    init_policy_table, front/svr_tbl.c get_svr_table and find_svr_tbl). */
module PolicyTable {
  import opened Words
  import opened Bits
  import opened Addresses
  import opened Reference
  import opened PolicyCache

  /** One accepted line of the policy file, with the resolver answers met while loading it. */
  datatype Line<A> = Line(addr: A, mask: A, server: A, answers: Replies)

  /** The scan of find_svr_tbl, newest server first, over the first n servers. */
  function FindServer<A(==)>(servers: seq<Server<A>>, ip: A, n: nat): (r: Option<nat>)
    requires n <= |servers|
    ensures r.Some? ==> r.value < n && servers[r.value].ip == ip
    ensures r.None? ==> forall s :: 0 <= s < n ==> servers[s].ip != ip
  {
    if n == 0 then None
    else if servers[n - 1].ip == ip then Some(n - 1)
    else FindServer(servers, ip, n - 1)
  }

  /** find_svr_tbl: the servers, with a new one at the end if need be, and where it is. */
  function FindOrCreate<A(==)>(f: Family<A>, servers: seq<Server<A>>, ip: A): (r: (seq<Server<A>>, nat))
    ensures r.1 < |r.0|
  {
    match FindServer(servers, ip, |servers|)
    case Some(s) => (servers, s)
    case None => (servers + [Server(ip, if ip == f.zero then Drop else Init, 0, 0)], |servers|)
  }

  /** get_svr_table: find or create, then try once to resolve a server not yet resolved. */
  function GetServer<A(==)>(f: Family<A>, servers: seq<Server<A>>, ip: A, answers: Replies)
    : (r: (seq<Server<A>>, nat))
    ensures r.1 < |r.0|
  {
    var (all, s) := FindOrCreate(f, servers, ip);
    if all[s].status == Init then (all[s := Resolve(all[s], answers, 0, 0)], s) else (all, s)
  }

  /** create_policy_table: a rule at the end of the list. */
  function AddRule<A(==)>(f: Family<A>, t: Tables<A>, l: Line<A>): Tables<A> {
    var (servers, s) := GetServer(f, t.servers, l.server, l.answers);
    Tables(t.rules + [Rule(f.masked(l.addr, l.mask), l.mask, s)], t.hits + [0], servers)
  }

  function Load<A(==)>(f: Family<A>, v: Front<A>, l: Line<A>): Front<A> {
    v.(t := AddRule(f, v.t, l), uses := v.uses + [0])
  }

  /** init_svr_mng_table and init_policy_table: empty tables, every pool entry in the free
      queue in order, no bucket used.  The entries keep their old contents, and the sweep
      flag and pointer are not reset. */
  function Reset<A>(v: Front<A>): Front<A>
    requires v.cells != []
  {
    Front(Tables([], [], []), [],
          seq(|v.cells|, i requires 0 <= i < |v.cells| =>
            if i < Fix(v) then v.cells[i].(kind := 0, stat := Init) else v.cells[i].(kind := 1)),
          seq(|v.buckets|, i => []),
          seq(Fix(v), i => i),
          v.patrol, v.ptr)
  }

  // ---------------------------------------------------------------- what loading keeps

  lemma GetServerKeeps<A(!new)>(f: Family<A>, t: Tables<A>, ip: A, answers: Replies)
    requires TablesOk(f, t)
    ensures var (all, s) := GetServer(f, t.servers, ip, answers);
            && all[s].ip == ip && |t.servers| <= |all| <= |t.servers| + 1
            && TablesOk(f, t.(servers := all))
            && (forall i :: 0 <= i < |t.servers| ==>
                  Settled(t.servers[i], all[i]) && all[i].hit == t.servers[i].hit)
            && (|all| == |t.servers| + 1 ==> all[|t.servers|].hit == 0)
  {}

  /** Loading a line: one server record per address as before, and a last rule that matches
      the sources agreeing with the configured address under the mask and names the
      configured server. */
  lemma AddRuleKeeps<A(!new)>(f: Family<A>, t: Tables<A>, l: Line<A>)
    requires TablesOk(f, t)
    ensures var t' := AddRule(f, t, l);
            && TablesOk(f, t')
            && t'.rules[..|t.rules|] == t.rules && |t'.rules| == |t.rules| + 1
            && t'.servers[t'.rules[|t.rules|].svr].ip == l.server
            && t'.rules[|t.rules|].mask == l.mask && t'.rules[|t.rules|].addr == f.masked(l.addr, l.mask)
            && t'.hits == t.hits + [0]
            && (forall source :: Matches(f, t'.rules[|t.rules|], source) <==>
                                 f.masked(source, l.mask) == f.masked(l.addr, l.mask))
            && |t.servers| <= |t'.servers| <= |t.servers| + 1
            && (forall i :: 0 <= i < |t.servers| ==> Settled(t.servers[i], t'.servers[i]))
  {}

  lemma {:induction false} ServedAppend<A>(rules: seq<Rule<A>>, hits: seq<u32>, r: Rule<A>, svr: nat)
    requires |rules| == |hits|
    ensures Served(rules + [r], hits + [0], svr) == Served(rules, hits, svr)
  {
    if rules != [] {
      assert (rules + [r])[1..] == rules[1..] + [r];
      assert (hits + [0])[1..] == hits[1..] + [0];
      ServedAppend(rules[1..], hits[1..], r, svr);
    }
  }

  lemma {:induction false} NoRuleServed<A>(rules: seq<Rule<A>>, hits: seq<u32>, svr: nat)
    requires |rules| == |hits| && forall r :: 0 <= r < |rules| ==> rules[r].svr != svr
    ensures Served(rules, hits, svr) == 0
  {
    if rules != [] {
      NoRuleServed(rules[1..], hits[1..], svr);
    }
  }

  lemma AddRuleConserves<A(!new)>(f: Family<A>, t: Tables<A>, l: Line<A>)
    requires TablesOk(f, t) && Conserved(t)
    ensures Conserved(AddRule(f, t, l))
  {
    GetServerKeeps(f, t, l.server, l.answers);
    var t' := AddRule(f, t, l);
    forall s | 0 <= s < |t'.servers|
      ensures Grown(Served(t'.rules, t'.hits, s), t'.servers[s].hit, 0)
    {
      ServedAppend(t.rules, t.hits, t'.rules[|t.rules|], s);
      if s == |t.servers| {
        NoRuleServed(t.rules, t.hits, s);
        GrownZero(0);
      }
    }
  }

  lemma {:induction false} FirstMatchAppend<A(!new)>(f: Family<A>, rules: seq<Rule<A>>, r: Rule<A>,
                                                     source: A, i: nat)
    requires i <= |rules| && FirstMatch(f, rules, source, i) < |rules|
    ensures FirstMatch(f, rules + [r], source, i) == FirstMatch(f, rules, source, i)
    decreases |rules| - i
  {
    if !Matches(f, rules[i], source) {
      FirstMatchAppend(f, rules, r, source, i + 1);
    }
  }

  lemma LoadKeepsInv<A(!new)>(f: Family<A>, v: Front<A>, l: Line<A>)
    requires Inv(f, v)
    ensures Inv(f, Load(f, v, l))
    ensures Conserved(v.t) ==> Conserved(Load(f, v, l).t)
  {
    AddRuleKeeps(f, v.t, l);
    var v' := Load(f, v, l);
    forall i | 0 <= i < Fix(v) && v.cells[i].stat != Init
      ensures Current(f, v'.t, v.cells[i], i)
    {
      assert Current(f, v.t, v.cells[i], i);
      assert Settled(v.t.servers[v.cells[i].svr], v'.t.servers[v.cells[i].svr]);
      FirstMatchAppend(f, v.t.rules, v'.t.rules[|v.t.rules|], v.cells[i].src, 0);
      assert v'.t.rules == v.t.rules + [v'.t.rules[|v.t.rules|]];
    }
    SamePlacesKeepInv(f, v, v');
    if Conserved(v.t) {
      AddRuleConserves(f, v.t, l);
    }
  }

  lemma SamePlacesKeepInv<A(!new)>(f: Family<A>, v: Front<A>, v': Front<A>)
    requires Inv(f, v) && v' == v.(t := v'.t, uses := v'.uses)
    requires TablesOk(f, v'.t) && |v'.uses| == |v'.t.rules| && Coherent(f, v')
    ensures Inv(f, v')
  {}

  /** A reset front satisfies the invariant whatever it was before, stale entries and a sweep
      in progress included. */
  lemma ResetInv<A(!new)>(f: Family<A>, v: Front<A>)
    requires v.cells != [] && HashesBelow(f, |v.buckets|)
    requires v.ptr < |v.buckets| && (!v.patrol ==> v.ptr == 0)
    ensures Inv(f, Reset(v)) && Conserved(Reset(v).t)
    ensures forall i :: 0 <= i < Fix(v) ==> Reset(v).cells[i].stat == Init
    ensures Reset(v).t == Tables([], [], []) && Reset(v).free == seq(Fix(v), i => i)
    ensures Reset(v).patrol == v.patrol && Reset(v).ptr == v.ptr
  {
    var v' := Reset(v);
    forall i | 0 <= i < Fix(v')
      ensures v'.cells[i].stat == Init && i in v'.free
    {
      assert v'.free[i] == i;
    }
  }

  // ---------------------------------------------------------------- the file and its tables

  /** Loading a line asks the resolver once for a server that is not up: a good answer among
      three brings it up with that MAC, and else it stays as it was found or made. */
  lemma LoadResolves<A(!new)>(f: Family<A>, t: Tables<A>, l: Line<A>, g: nat)
    requires TablesOk(f, t) && g == FirstGood(l.answers, 0, 3)
    ensures var t' := AddRule(f, t, l);
            && TablesOk(f, t')
            && var s := t'.servers[t'.rules[|t.rules|].svr];
            && s.ip == l.server
            && (l.server == f.zero ==> s.status == Drop)
            && (l.server != f.zero && (forall i :: 0 <= i < |t.servers| && t.servers[i].ip == l.server ==>
                                         t.servers[i].status == Init) ==>
                  s.status == (if g < 3 then Ok else Init) && (g < 3 ==> s.mac == l.answers(g).mac))
            && (forall i ::
                  0 <= i < |t.servers| && t.servers[i].ip == l.server && t.servers[i].status != Init ==>
                    s == t.servers[i])
            && (forall i :: 0 <= i < |t.servers| && t.servers[i].ip != l.server ==>
                  t'.servers[i] == t.servers[i])
  {
    AddRuleKeeps(f, t, l);
    var (all, s) := FindOrCreate(f, t.servers, l.server);
    if all[s].status == Init {
      ResolveExact(all[s], l.answers, 0, 0);
    }
  }

  /** The tables are those of a file: one rule a line, in order. */
  ghost predicate FollowsFile<A(!new)>(f: Family<A>, t: Tables<A>, lines: seq<Line<A>>) {
    && |t.rules| == |lines|
    && forall i :: 0 <= i < |lines| ==>
         && t.rules[i].mask == lines[i].mask
         && t.rules[i].addr == f.masked(lines[i].addr, lines[i].mask)
         && t.rules[i].svr < |t.servers| && t.servers[t.rules[i].svr].ip == lines[i].server
  }

  lemma AddRuleFollows<A(!new)>(f: Family<A>, t: Tables<A>, lines: seq<Line<A>>, l: Line<A>)
    requires TablesOk(f, t) && FollowsFile(f, t, lines)
    ensures FollowsFile(f, AddRule(f, t, l), lines + [l])
  {
    AddRuleKeeps(f, t, l);
    var t' := AddRule(f, t, l);
    forall i | 0 <= i < |lines|
      ensures t'.rules[i] == t.rules[i] && t'.servers[t.rules[i].svr].ip == lines[i].server
    {
      assert t'.rules[i] == t'.rules[..|t.rules|][i];
      assert Settled(t.servers[t.rules[i].svr], t'.servers[t.rules[i].svr]);
    }
  }

  /** Forwarding packets leaves them so. */
  lemma LaterFollows<A(!new)>(f: Family<A>, t: Tables<A>, t': Tables<A>, lines: seq<Line<A>>)
    requires FollowsFile(f, t, lines) && Later(t, t')
    ensures FollowsFile(f, t', lines)
  {
    forall i | 0 <= i < |lines|
      ensures t'.servers[t.rules[i].svr].ip == lines[i].server
    {
      assert Settled(t.servers[t.rules[i].svr], t'.servers[t.rules[i].svr]);
    }
  }

  predicate LineMatches<A(==)>(f: Family<A>, l: Line<A>, source: A) {
    f.masked(source, l.mask) == f.masked(l.addr, l.mask)
  }

  /** Line k is the first of the file that matches. */
  ghost predicate FirstLine<A(!new)>(f: Family<A>, lines: seq<Line<A>>, source: A, k: nat) {
    && k < |lines| && LineMatches(f, lines[k], source)
    && forall j :: 0 <= j < k ==> !LineMatches(f, lines[j], source)
  }

  /** A source is decided by the first line that matches it: dropped if that names the zero
      address, else sent to no other server than the one named, and surely once that is up. */
  lemma FirstLineDecides<A(!new)>(f: Family<A>, t: Tables<A>, lines: seq<Line<A>>, source: A,
                                  answers: Replies, k: nat)
    requires TablesOk(f, t) && FollowsFile(f, t, lines) && FirstLine(f, lines, source, k)
    ensures var o, s := Scan(f, t, source, answers).outcome, t.servers[t.rules[k].svr];
            && (o == DropRule <==> lines[k].server == f.zero)
            && (o.Forward? ==> o.dst == lines[k].server && o.delta == f.delta(lines[k].server))
            && (s.status == Ok ==> o.Forward? && o.mac == s.mac)
            && (s.status == Init ==> (o.Forward? <==> FirstGood(answers, 0, 12) < 9))
  {
    FirstMatchIs(f, t, lines, source, k, 0);
    var svr := t.rules[k].svr;
    if t.servers[svr].status == Init {
      ScanOfInit(f, t, source, answers, k, svr, FirstGood(answers, 0, 12));
    } else {
      ScanOfSettled(f, t, source, answers);
    }
  }

  lemma {:induction false} FirstMatchIs<A(!new)>(f: Family<A>, t: Tables<A>, lines: seq<Line<A>>, source: A,
                                                 k: nat, i: nat)
    requires FollowsFile(f, t, lines) && FirstLine(f, lines, source, k) && i <= k
    ensures FirstMatch(f, t.rules, source, i) == k
    decreases k - i
  {
    if i < k {
      assert !LineMatches(f, lines[i], source);
      FirstMatchIs(f, t, lines, source, k, i + 1);
    }
  }

  /** A source no line matches is not forwarded, and leaves no trace. */
  lemma NoLineDecides<A(!new)>(f: Family<A>, t: Tables<A>, lines: seq<Line<A>>, source: A, answers: Replies)
    requires TablesOk(f, t) && FollowsFile(f, t, lines)
    requires forall j :: 0 <= j < |lines| ==> !LineMatches(f, lines[j], source)
    ensures Scan(f, t, source, answers) == Lookup(t, NoRoute)
  {
    forall r | 0 <= r < |t.rules|
      ensures !Matches(f, t.rules[r], source)
    {
      assert !LineMatches(f, lines[r], source);
    }
    ScanOfNoMatch(f, t, source, answers);
  }

  /** For IPv6: the first line whose address agrees with the source on its mask drops exactly
      when it names ::, and sends to no other server than it names. */
  lemma Decides6(t: Tables<Ip6>, lines: seq<Line<Ip6>>, source: Ip6, answers: Replies, k: nat)
    requires TablesOk(Family6(), t) && FollowsFile(Family6(), t, lines)
    requires k < |lines| && Agrees6(lines[k], source) && forall j :: 0 <= j < k ==> !Agrees6(lines[j], source)
    ensures var o := Scan(Family6(), t, source, answers).outcome;
            && (o == DropRule <==> lines[k].server == Ip6(0, 0, 0, 0))
            && (o.Forward? ==> o.dst == lines[k].server)
  {
    forall j | 0 <= j <= k
      ensures LineMatches(Family6(), lines[j], source) <==> Agrees6(lines[j], source)
    {
      RuleMatches6(source, lines[j].addr, lines[j].mask);
    }
    FirstLineDecides(Family6(), t, lines, source, answers, k);
  }

  ghost predicate Agrees6(l: Line<Ip6>, source: Ip6) {
    && AgreeOn(source.w0, l.addr.w0, l.mask.w0) && AgreeOn(source.w1, l.addr.w1, l.mask.w1)
    && AgreeOn(source.w2, l.addr.w2, l.mask.w2) && AgreeOn(source.w3, l.addr.w3, l.mask.w3)
  }

  function LoadAll<A(==)>(f: Family<A>, v: Front<A>, lines: seq<Line<A>>): Front<A>
    decreases |lines|
  {
    if lines == [] then v else LoadAll(f, Load(f, v, lines[0]), lines[1..])
  }

  ghost predicate NothingCounted<A>(v: Front<A>) {
    && |v.uses| == |v.t.rules| == |v.t.hits|
    && (forall r :: 0 <= r < |v.t.hits| ==> v.t.hits[r] == 0 && v.uses[r] == 0)
  }

  /** Loading a file after the lines already there appends its lines in order. */
  lemma {:induction false} LoadAllFollows<A(!new)>(f: Family<A>, v: Front<A>, done: seq<Line<A>>,
                                                   lines: seq<Line<A>>)
    requires TablesOk(f, v.t) && FollowsFile(f, v.t, done) && NothingCounted(v)
    ensures var v' := LoadAll(f, v, lines);
            TablesOk(f, v'.t) && FollowsFile(f, v'.t, done + lines) && NothingCounted(v')
    decreases |lines|
  {
    if lines == [] {
      assert done + lines == done;
    } else {
      AddRuleKeeps(f, v.t, lines[0]);
      AddRuleFollows(f, v.t, done, lines[0]);
      assert done + [lines[0]] + lines[1..] == done + lines;
      LoadAllFollows(f, Load(f, v, lines[0]), done + [lines[0]], lines[1..]);
    }
  }

  /** So a reset front loads exactly the file. */
  lemma ResetLoads<A(!new)>(f: Family<A>, v: Front<A>, lines: seq<Line<A>>)
    requires v.cells != []
    ensures FollowsFile(f, LoadAll(f, Reset(v), lines).t, lines)
    ensures NothingCounted(LoadAll(f, Reset(v), lines))
  {
    LoadAllFollows(f, Reset(v), [], lines);
    assert [] + lines == lines;
  }
}
