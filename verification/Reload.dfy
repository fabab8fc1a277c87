/** Policy reload: the command thread stops the forwarding thread, tears down and rebuilds the
    shared tables, and starts a new one (front/command_proc.c update_policy, front/front.c
    front_ingress1 and front_cleanup, front/front_init.c create_net_thread).  The two threads
    interleave freely; the shared tables are the ones of PolicyCache.  A reload also re-reads
    the interface, and with it the virtual address every delta is computed from. */
module Reload {
  import opened Words
  import opened Bits
  import opened Addresses
  import opened Reference
  import opened PolicyCache
  import opened PolicyTable
  import opened PolicyRuns
  import opened Checksum

  /** The command thread: idle in its command loop; cancel_end cleared; cancel sent and
      waiting; freeing rules; freeing servers; re-initialising; re-reading the interface;
      reading lines of the policy file; about to create the thread; polling its start. */
  datatype Command<A> =
    | Idle | Cleared | Waiting
    | FreeingRules | FreeingServers | Initialising | Configuring | Loading(lines: seq<Line<A>>)
    | Creating | Starting

  /** The forwarding thread: none (it never started or gave up on its socket), created, socket
      published, cleanup handler pushed, in its loop, in the handler, socket closed, gone. */
  datatype Forwarder = Absent | Created | Bound | Armed | Looping | Cleaning | Closed | Gone

  /** Where both threads are; `wait` is the start handshake variable.  `booted` is set once main
      is past the first start, `ended` when main returned because that start failed. */
  datatype Control<A> = Control(cmd: Command<A>, fwd: Forwarder, cancelEnd: bool, cancelled: bool,
                                wait: int, booted: bool, ended: bool)

  /** `vip` is the address in the interface record and `own` the copy the forwarding thread took;
      `file` is the policy file as last opened; `crashed` is set when that thread looks at tables
      that are not whole, or at two different addresses. */
  datatype State<A> = State(v: Front<A>, vip: A, file: seq<Line<A>>, own: A, c: Control<A>,
                            crashed: bool)

  /** What may happen next.  `Command` is one step of the command thread, with the contents of
      the policy file, the address configured and the success of pthread_create as the
      environment decides them. */
  datatype Action<A> =
    | Command(file: seq<Line<A>>, vip: A, created: bool)
    | Boot(ok: bool)
    | Arm
    | Announce
    | Forward(e: Event<A>)
    | Cancel(mac: Mac, svr: nat)
    | CloseSocket
    | Confirm

  /** The engine's family for each virtual address. */
  type Sites<!A> = A -> Family<A>

  // ---------------------------------------------------------------- steps

  function Tail<T>(s: seq<T>): seq<T> {
    if s == [] then [] else s[1..]
  }

  function FreeRule<A>(v: Front<A>): Front<A> {
    v.(t := v.t.(rules := Tail(v.t.rules), hits := Tail(v.t.hits)), uses := Tail(v.uses))
  }

  function FreeServer<A>(v: Front<A>): Front<A>
    requires v.t.servers != []
  {
    v.(t := v.t.(servers := v.t.servers[..|v.t.servers| - 1]))
  }

  /** One step of the command thread on the tables ... */
  function CommandTables<A(==)>(at: Sites<A>, v: Front<A>, vip: A, cmd: Command<A>): Front<A>
    requires v.cells != []
  {
    match cmd
    case FreeingRules => if v.t.rules == [] then v else FreeRule(v)
    case FreeingServers => if v.t.servers == [] then v else FreeServer(v)
    case Initialising => Reset(v)
    case Loading(lines) => if lines == [] then v else Load(at(vip), v, lines[0])
    case _ => v
  }

  /** ... and on where it is; `bare` tells whether the list it is freeing is empty. */
  function CommandControl<A>(c: Control<A>, bare: bool, file: seq<Line<A>>, created: bool): Control<A> {
    match c.cmd
    case Idle => c.(cancelEnd := false, cmd := Cleared)
    case Cleared => c.(cancelled := true, cmd := Waiting)
    case Waiting => if c.cancelEnd then c.(cmd := FreeingRules) else c
    case FreeingRules => if bare then c.(cmd := FreeingServers) else c
    case FreeingServers => if bare then c.(cmd := Initialising) else c
    case Initialising => c.(cmd := Configuring)
    case Configuring => c.(cmd := Loading(file))
    case Loading(lines) => if lines == [] then c.(cmd := Creating) else c.(cmd := Loading(lines[1..]))
    case Creating =>
      if created then c.(wait := 0, fwd := Created, cancelled := false, cmd := Starting)
      else Started(c, false)
    case Starting => if c.wait != 0 then Started(c, c.wait != -1) else c
  }

  /** After a thread start: main goes on only when its first one succeeded, a reload always. */
  function Started<A>(c: Control<A>, ok: bool): Control<A> {
    if ok || c.booted then c.(cmd := Idle, booted := true) else c.(ended := true)
  }

  predicate Bare<A>(t: Tables<A>, cmd: Command<A>) {
    (cmd.FreeingRules? && t.rules == []) || (cmd.FreeingServers? && t.servers == [])
  }

  /** One step of the forwarding thread on where it is. */
  function ForwarderControl<A>(c: Control<A>, a: Action<A>): Control<A> {
    match a
    case Boot(ok) =>
      if c.fwd != Created then c
      else if ok then c.(fwd := Bound) else c.(fwd := Absent, wait := -1)
    case Arm => if c.fwd == Bound then c.(fwd := Armed) else c
    case Announce => if c.fwd == Armed then c.(fwd := Looping, wait := 1) else c
    case Cancel(_, _) => if c.fwd == Looping && c.cancelled then c.(fwd := Cleaning) else c
    case CloseSocket => if c.fwd == Cleaning then c.(fwd := Closed) else c
    case Confirm => if c.fwd == Closed then c.(fwd := Gone, cancelEnd := true) else c
    case _ => c
  }

  /** A forwarding thread cancelled inside the resolver leaves at most a half-written MAC in a
      server that is not resolved. */
  function HalfResolved<A>(v: Front<A>, mac: Mac, svr: nat): Front<A> {
    if svr < |v.t.servers| && v.t.servers[svr].status == Init then
      v.(t := v.t.(servers := v.t.servers[svr := v.t.servers[svr].(mac := mac)]))
    else v
  }

  ghost function Next<A(!new)>(at: Sites<A>, s: State<A>, a: Action<A>): State<A>
    requires s.v.cells != []
  {
    if s.c.ended then s
    else
      match a
      case Command(file, vip, created) =>
        State(CommandTables(at, s.v, s.vip, s.c.cmd), if s.c.cmd.Configuring? then vip else s.vip,
              if s.c.cmd.Configuring? then file else s.file, s.own,
              CommandControl(s.c, Bare(s.v.t, s.c.cmd), file, created), s.crashed)
      case Forward(e) =>
        if s.c.fwd != Looping then s
        else if Inv(at(s.vip), s.v) && s.own == s.vip then s.(v := Step(at(s.vip), s.v, e))
        else s.(crashed := true)
      case Cancel(mac, svr) =>
        s.(v := if s.c.fwd == Looping && s.c.cancelled then HalfResolved(s.v, mac, svr) else s.v,
           c := ForwarderControl(s.c, a))
      case Boot(ok) =>
        s.(own := if s.c.fwd == Created then s.vip else s.own, c := ForwarderControl(s.c, a))
      case _ => s.(c := ForwarderControl(s.c, a))
  }

  // ---------------------------------------------------------------- the invariant

  predicate Rebuilding<A>(c: Command<A>) {
    Torn(c) || c.Loading? || c.Creating?
  }

  /** The command thread is between tearing the tables down and knowing the new address. */
  predicate Torn<A>(c: Command<A>) {
    c.FreeingRules? || c.FreeingServers? || c.Initialising? || c.Configuring?
  }

  predicate Dead(t: Forwarder) {
    t == Absent || t == Gone
  }

  predicate Young(t: Forwarder) {
    t == Created || t == Bound || t == Armed
  }

  ghost predicate NothingCached<A>(v: Front<A>)
    requires v.cells != []
  {
    forall i :: 0 <= i < Fix(v) ==> v.cells[i].stat == Init
  }

  ghost predicate Frame<A(!new)>(at: Sites<A>, v: Front<A>) {
    && v.cells != [] && (forall vip :: HashesBelow(at(vip), |v.buckets|))
    && v.ptr < |v.buckets| && (!v.patrol ==> v.ptr == 0)
  }

  /** The tables in each phase of the command thread. */
  ghost predicate TablesSafe<A(!new)>(at: Sites<A>, v: Front<A>, vip: A, cmd: Command<A>, fwd: Forwarder) {
    && Frame(at, v)
    && (!Torn(cmd) ==> Inv(at(vip), v) && Conserved(v.t))
    && (cmd.Configuring? ==> v == Reset(v))
    && (cmd.Loading? || cmd.Creating? || Young(fwd) ==> NothingCached(v))
  }

  /** How far each thread can be, given the other. */
  ghost predicate PhasesSafe<A>(c: Control<A>) {
    && (Rebuilding(c.cmd) ==> Dead(c.fwd))
    && (Young(c.fwd) ==> c.cmd.Starting? && c.wait == 0)
    && (c.cmd.Starting? ==>
          !c.cancelled && (c.fwd == Looping ==> c.wait == 1) && (c.fwd == Absent ==> c.wait == -1)
          && (Young(c.fwd) || c.fwd == Looping || c.fwd == Absent))
    && ((c.cmd.Cleared? || c.cmd.Waiting?) && c.cancelEnd ==> c.fwd == Gone)
    && (c.cmd.Waiting? ==> c.cancelled)
  }

  predicate Serving(t: Forwarder) {
    t == Bound || t == Armed || t == Looping
  }

  /** What every reachable state satisfies. */
  ghost predicate Safe<A(!new)>(at: Sites<A>, s: State<A>) {
    && !s.crashed
    && TablesSafe(at, s.v, s.vip, s.c.cmd, s.c.fwd)
    && PhasesSafe(s.c)
    && (Serving(s.c.fwd) ==> s.own == s.vip)
  }

  lemma HalfResolvedKeepsInv<A(!new)>(f: Family<A>, v: Front<A>, mac: Mac, svr: nat)
    requires Inv(f, v) && Conserved(v.t)
    ensures Inv(f, HalfResolved(v, mac, svr)) && Conserved(HalfResolved(v, mac, svr).t)
  {
    if svr < |v.t.servers| && v.t.servers[svr].status == Init {
      NewTablesKeepInv(f, v, HalfResolved(v, mac, svr).t);
    }
  }

  lemma StepKeepsConserved<A(!new)>(f: Family<A>, v: Front<A>, e: Event<A>)
    requires Inv(f, v) && Conserved(v.t)
    ensures Conserved(Step(f, v, e).t)
  {
    match e
    case PatrolTurn => PatrolKeepsInv(f, v);
    case Arrival(p) =>
      GetPolIsScan(f, v, p.source, p.answers);
      ScanConserves(f, v.t, p.source, p.answers);
  }

  /** A packet or a patrol step moves neither the frame nor, at first, anything cached. */
  lemma StepKeepsFrame<A(!new)>(at: Sites<A>, vip: A, v: Front<A>, e: Event<A>)
    requires Frame(at, v) && Inv(at(vip), v)
    ensures Frame(at, Step(at(vip), v, e))
  {
    StepKeepsInv(at(vip), v, e);
    match e
    case PatrolTurn =>
    case Arrival(p) => ArrivalKeepsPlaces(at(vip), v, p, 0);
  }

  lemma CommandKeepsPhases<A>(c: Control<A>, bare: bool, file: seq<Line<A>>, created: bool)
    requires PhasesSafe(c)
    ensures PhasesSafe(CommandControl(c, bare, file, created))
  {
    if c.cmd.Creating? || c.cmd.Starting? {
      StartKeepsPhases(c, bare, file, created);
    }
  }

  lemma StartKeepsPhases<A>(c: Control<A>, bare: bool, file: seq<Line<A>>, created: bool)
    requires PhasesSafe(c) && (c.cmd.Creating? || c.cmd.Starting?)
    ensures PhasesSafe(CommandControl(c, bare, file, created))
  {}

  lemma CommandLeavesServing<A>(c: Control<A>, bare: bool, file: seq<Line<A>>, created: bool)
    requires PhasesSafe(c)
    ensures Serving(CommandControl(c, bare, file, created).fwd) ==> Serving(c.fwd) && !c.cmd.Configuring?
  {}

  lemma ForwarderKeepsPhases<A>(c: Control<A>, a: Action<A>)
    requires PhasesSafe(c)
    ensures PhasesSafe(ForwarderControl(c, a)) && ForwarderControl(c, a).cmd == c.cmd
    ensures Young(ForwarderControl(c, a).fwd) ==> Young(c.fwd)
  {}

  /** Phases that leave the tables alone. */
  lemma SameTablesSafe<A(!new)>(at: Sites<A>, v: Front<A>, vip: A, cmd: Command<A>, fwd: Forwarder,
                                cmd': Command<A>, fwd': Forwarder)
    requires TablesSafe(at, v, vip, cmd, fwd)
    requires cmd'.Configuring? ==> cmd.Configuring?
    requires Torn(cmd) ==> Torn(cmd')
    requires cmd'.Loading? || cmd'.Creating? || Young(fwd') ==> cmd.Loading? || cmd.Creating? || Young(fwd)
    ensures TablesSafe(at, v, vip, cmd', fwd')
  {}

  /** Freeing rules and servers. */
  lemma TornTablesSafe<A(!new)>(at: Sites<A>, v: Front<A>, v': Front<A>, vip: A, cmd: Command<A>,
                                fwd: Forwarder)
    requires Frame(at, v) && Torn(cmd) && !cmd.Configuring? && Dead(fwd)
    requires v' == v.(t := v'.t, uses := v'.uses)
    ensures TablesSafe(at, v', vip, cmd, fwd)
  {}

  lemma ResetTablesSafe<A(!new)>(at: Sites<A>, v: Front<A>, vip: A, fwd: Forwarder)
    requires Frame(at, v) && Dead(fwd)
    ensures TablesSafe(at, Reset(v), vip, Configuring, fwd)
  {
    ResetTwice(v);
  }

  lemma ResetTwice<A>(v: Front<A>)
    requires v.cells != []
    ensures Reset(Reset(v)) == Reset(v)
  {}

  /** The tables are empty when the new address is read, so they are whole for it. */
  lemma ConfiguredTablesSafe<A(!new)>(at: Sites<A>, v: Front<A>, vip: A, lines: seq<Line<A>>, fwd: Forwarder)
    requires Frame(at, v) && v == Reset(v) && Dead(fwd)
    ensures TablesSafe(at, v, vip, Loading(lines), fwd)
  {
    ResetInv(at(vip), v);
  }

  lemma LoadedTablesSafe<A(!new)>(at: Sites<A>, v: Front<A>, vip: A, l: Line<A>, lines: seq<Line<A>>,
                                  fwd: Forwarder)
    requires TablesSafe(at, v, vip, Loading([l] + lines), fwd) && Dead(fwd)
    ensures TablesSafe(at, Load(at(vip), v, l), vip, Loading(lines), fwd)
  {
    LoadKeepsInv(at(vip), v, l);
  }

  /** Outside a rebuild, and at its end, a command step leaves the tables alone. */
  lemma CommandQuiet<A(!new)>(at: Sites<A>, v: Front<A>, vip: A, c: Control<A>, c': Control<A>,
                              file: seq<Line<A>>, created: bool)
    requires TablesSafe(at, v, vip, c.cmd, c.fwd) && PhasesSafe(c)
    requires !Torn(c.cmd) && (c.cmd.Loading? ==> c.cmd.lines == [])
    requires c' == CommandControl(c, Bare(v.t, c.cmd), file, created)
    ensures CommandTables(at, v, vip, c.cmd) == v && TablesSafe(at, v, vip, c'.cmd, c'.fwd)
  {
    SameTablesSafe(at, v, vip, c.cmd, c.fwd, c'.cmd, c'.fwd);
  }

  lemma CommandKeepsTables<A(!new)>(at: Sites<A>, v: Front<A>, vip: A, vip': A, c: Control<A>, c': Control<A>,
                                    file: seq<Line<A>>, created: bool)
    requires TablesSafe(at, v, vip, c.cmd, c.fwd) && PhasesSafe(c)
    requires vip' == vip || c.cmd.Configuring?
    requires c' == CommandControl(c, Bare(v.t, c.cmd), file, created)
    ensures TablesSafe(at, CommandTables(at, v, vip, c.cmd), vip', c'.cmd, c'.fwd)
  {
    if !Torn(c.cmd) && (c.cmd.Loading? ==> c.cmd.lines == []) {
      CommandQuiet(at, v, vip, c, c', file, created);
    } else {
      RebuildKeepsTables(at, v, vip, vip', c, c', file, created);
    }
  }

  lemma RebuildKeepsTables<A(!new)>(at: Sites<A>, v: Front<A>, vip: A, vip': A, c: Control<A>, c': Control<A>,
                                    file: seq<Line<A>>, created: bool)
    requires TablesSafe(at, v, vip, c.cmd, c.fwd) && Dead(c.fwd)
    requires vip' == vip || c.cmd.Configuring?
    requires Torn(c.cmd) || (c.cmd.Loading? && c.cmd.lines != [])
    requires c' == CommandControl(c, Bare(v.t, c.cmd), file, created)
    ensures TablesSafe(at, CommandTables(at, v, vip, c.cmd), vip', c'.cmd, c'.fwd)
  {
    match c.cmd
    case FreeingRules => TornTablesSafe(at, v, CommandTables(at, v, vip, c.cmd), vip, c'.cmd, c.fwd);
    case FreeingServers => TornTablesSafe(at, v, CommandTables(at, v, vip, c.cmd), vip, c'.cmd, c.fwd);
    case Initialising => ResetTablesSafe(at, v, vip, c.fwd);
    case Configuring => ConfiguredTablesSafe(at, v, vip', file, c.fwd);
    case Loading(lines) =>
      assert lines == [lines[0]] + lines[1..];
      LoadedTablesSafe(at, v, vip, lines[0], lines[1..], c.fwd);
  }

  lemma CommandKeepsSafe<A(!new)>(at: Sites<A>, s: State<A>, file: seq<Line<A>>, vip: A, created: bool)
    requires Safe(at, s)
    ensures Safe(at, Next(at, s, Command(file, vip, created)))
  {
    CommandKeepsPhases(s.c, Bare(s.v.t, s.c.cmd), file, created);
    CommandLeavesServing(s.c, Bare(s.v.t, s.c.cmd), file, created);
    CommandKeepsTables(at, s.v, s.vip, if s.c.cmd.Configuring? then vip else s.vip, s.c,
                       CommandControl(s.c, Bare(s.v.t, s.c.cmd), file, created), file, created);
  }

  lemma ForwardKeepsSafe<A(!new)>(at: Sites<A>, s: State<A>, e: Event<A>)
    requires Safe(at, s) && s.c.fwd == Looping
    ensures Inv(at(s.vip), s.v) && Safe(at, s.(v := Step(at(s.vip), s.v, e)))
  {
    StepKeepsInv(at(s.vip), s.v, e);
    StepKeepsConserved(at(s.vip), s.v, e);
    StepKeepsFrame(at, s.vip, s.v, e);
  }

  lemma NextKeepsSafe<A(!new)>(at: Sites<A>, s: State<A>, a: Action<A>)
    requires Safe(at, s)
    ensures Safe(at, Next(at, s, a))
  {
    ForwarderKeepsPhases(s.c, a);
    var c' := ForwarderControl(s.c, a);
    match a
    case Command(file, vip, created) => CommandKeepsSafe(at, s, file, vip, created);
    case Forward(e) =>
      if s.c.fwd == Looping {
        ForwardKeepsSafe(at, s, e);
      }
    case Cancel(mac, svr) =>
      if s.c.fwd == Looping && s.c.cancelled {
        HalfResolvedKeepsInv(at(s.vip), s.v, mac, svr);
      }
    case _ => SameTablesSafe(at, s.v, s.vip, s.c.cmd, s.c.fwd, c'.cmd, c'.fwd);
  }

  ghost function Exec<A(!new)>(at: Sites<A>, s: State<A>, schedule: seq<Action<A>>): State<A>
    requires Safe(at, s)
    decreases |schedule|
  {
    if schedule == [] then s
    else
      NextKeepsSafe(at, s, schedule[0]);
      Exec(at, Next(at, s, schedule[0]), schedule[1..])
  }

  /** main up to the first thread: tables about to be initialised, nothing read yet. */
  ghost predicate Fresh<A(!new)>(at: Sites<A>, s: State<A>) {
    && Frame(at, s.v) && !s.crashed && s.c.fwd == Absent && s.c.cmd.Initialising?
    && !s.c.booted && !s.c.ended
  }

  /** Reload safety, over every interleaving of the two threads, any contents of the policy
      file, any address read, any thread start that fails, any cancellation point and any
      number of reloads: whenever the forwarding thread can look at the tables they are whole,
      with every cached entry current for the tables and the address of that moment; while the
      command thread changes them no forwarding thread is alive; and a new thread starts with
      nothing cached. */
  lemma {:induction false} ReloadSafety<A(!new)>(at: Sites<A>, s: State<A>, schedule: seq<Action<A>>)
    requires Safe(at, s)
    ensures Safe(at, Exec(at, s, schedule))
    decreases |schedule|
  {
    if schedule != [] {
      NextKeepsSafe(at, s, schedule[0]);
      ReloadSafety(at, Next(at, s, schedule[0]), schedule[1..]);
    }
  }

  lemma FreshIsSafe<A(!new)>(at: Sites<A>, s: State<A>)
    requires Fresh(at, s)
    ensures Safe(at, s)
  {}

  /** Read off the invariant: a live forwarding thread sees tables satisfying Inv for the address
      it uses itself. */
  lemma ForwardingSeesWholeTables<A(!new)>(at: Sites<A>, s: State<A>, schedule: seq<Action<A>>)
    requires Fresh(at, s)
    ensures Safe(at, s)
    ensures var e := Exec(at, s, schedule);
            && !e.crashed
            && (!Dead(e.c.fwd) ==> Inv(at(e.vip), e.v) && Conserved(e.v.t) && !Rebuilding(e.c.cmd))
            && (e.c.fwd == Looping ==> e.own == e.vip)
            && (Young(e.c.fwd) ==> NothingCached(e.v))
  {
    FreshIsSafe(at, s);
    ReloadSafety(at, s, schedule);
  }

  /** The command thread writes tables and interface record only while no forwarding thread is
      alive, and nobody else writes the record. */
  lemma WritesAlone<A(!new)>(at: Sites<A>, s: State<A>, a: Action<A>)
    requires Safe(at, s)
    ensures var s' := Next(at, s, a);
            && (s'.vip != s.vip ==> a.Command? && Dead(s.c.fwd) && Dead(s'.c.fwd))
            && (a.Command? && s'.v != s.v ==> Dead(s.c.fwd) && Dead(s'.c.fwd))
  {
    if a.Command? && !s.c.ended {
      assert CommandTables(at, s.v, s.vip, s.c.cmd) != s.v || s.c.cmd.Configuring? ==>
          Torn(s.c.cmd) || s.c.cmd.Loading?;
    }
  }

  /** A cached entry that is up names a backend other than the zero address, with its delta. */
  predicate CarriesDelta<A(==)>(f: Family<A>, c: Cell<A>) {
    c.stat == Ok ==> c.dst != f.zero && c.delta == f.delta(c.dst)
  }

  lemma CachedDelta<A(!new)>(f: Family<A>, v: Front<A>, i: nat)
    requires Inv(f, v) && i < Fix(v)
    ensures CarriesDelta(f, v.cells[i])
  {
    if v.cells[i].stat == Ok {
      assert Current(f, v.t, v.cells[i], i);
    }
  }

  /** No delta of an earlier address survives: after any number of reloads, what a looping thread
      finds cached carries the delta from the address it serves now. */
  lemma DeltasOfThisEpoch<A(!new)>(at: Sites<A>, s: State<A>, schedule: seq<Action<A>>, i: nat)
    requires Fresh(at, s)
    ensures Safe(at, s)
    ensures var e := Exec(at, s, schedule);
            e.c.fwd == Looping && i < |e.v.cells| - 1 ==> CarriesDelta(at(e.own), e.v.cells[i])
  {
    ForwardingSeesWholeTables(at, s, schedule);
    var e := Exec(at, s, schedule);
    if e.c.fwd == Looping && i < |e.v.cells| - 1 {
      CachedDelta(at(e.vip), e.v, i);
    }
  }

  /** What such a delta is for: with it, every IPv4 header for the served address that verifies
      still verifies on its way to the cached backend. */
  lemma CachedDeltaVerifies(vip: Ip4, c: Cell<Ip4>, h: seq<u16>)
    requires CarriesDelta(Family4(vip), c) && c.stat == Ok
    requires Header(h) && Verifies(h) && Dst(h) == Swap32(vip.w)
    ensures Verifies(Rewritten(h, Swap32(c.dst.w), c.delta))
  {
    SwapOfZero(c.dst.w);
    RewriteKeepsVerifying(h, Swap32(c.dst.w));
  }

  /** Both together, for the IPv4 front: however often the address has changed since it started,
      a packet for the address now served is rewritten soundly by whatever is cached. */
  lemma RewritesSoundlyAfterReloads(s: State<Ip4>, schedule: seq<Action<Ip4>>, i: nat, h: seq<u16>)
    requires Fresh(Family4, s) && Header(h) && Verifies(h)
    ensures Safe(Family4, s)
    ensures var e := Exec(Family4, s, schedule);
            e.c.fwd == Looping && i < |e.v.cells| - 1 && e.v.cells[i].stat == Ok
            && Dst(h) == Swap32(e.own.w) ==>
              Verifies(Rewritten(h, Swap32(e.v.cells[i].dst.w), e.v.cells[i].delta))
  {
    DeltasOfThisEpoch(Family4, s, schedule, i);
    var e := Exec(Family4, s, schedule);
    if e.c.fwd == Looping && i < |e.v.cells| - 1 && e.v.cells[i].stat == Ok
       && Dst(h) == Swap32(e.own.w) {
      CachedDeltaVerifies(e.own, e.v.cells[i], h);
    }
  }

  // ---------------------------------------------------------------- the file in force

  /** Outside a teardown the tables are those of the file, as far as it has been read. */
  ghost predicate FileSafe<A(!new)>(at: Sites<A>, v: Front<A>, vip: A, cmd: Command<A>, file: seq<Line<A>>) {
    if Torn(cmd) then true
    else if cmd.Loading? then
      && |cmd.lines| <= |file| && file[|file| - |cmd.lines|..] == cmd.lines
      && FollowsFile(at(vip), v.t, file[..|file| - |cmd.lines|])
    else FollowsFile(at(vip), v.t, file)
  }

  lemma LoadKeepsFile<A(!new)>(at: Sites<A>, v: Front<A>, vip: A, lines: seq<Line<A>>, file: seq<Line<A>>)
    requires TablesOk(at(vip), v.t) && lines != [] && FileSafe(at, v, vip, Loading(lines), file)
    ensures FileSafe(at, Load(at(vip), v, lines[0]), vip, Loading(lines[1..]), file)
  {
    var k := |file| - |lines|;
    assert file[k] == file[k..][0] && file[k + 1..] == file[k..][1..];
    assert file[..k + 1] == file[..k] + [lines[0]];
    AddRuleFollows(at(vip), v.t, file[..k], lines[0]);
  }

  lemma CommandKeepsFile<A(!new)>(at: Sites<A>, v: Front<A>, vip: A, was: seq<Line<A>>, c: Control<A>,
                                  vip': A, file: seq<Line<A>>, created: bool)
    requires TablesSafe(at, v, vip, c.cmd, c.fwd) && FileSafe(at, v, vip, c.cmd, was)
    requires vip' == vip || c.cmd.Configuring?
    ensures FileSafe(at, CommandTables(at, v, vip, c.cmd), vip',
                     CommandControl(c, Bare(v.t, c.cmd), file, created).cmd,
                     if c.cmd.Configuring? then file else was)
  {
    if c.cmd.Loading? {
      ReadingKeepsFile(at, v, vip, was, c, file, created);
    } else if c.cmd.Configuring? {
      OpeningKeepsFile(at, v, vip', file);
    } else {
      OthersKeepFile(at, v, vip, was, c, file, created);
    }
  }

  lemma OpeningKeepsFile<A(!new)>(at: Sites<A>, v: Front<A>, vip: A, file: seq<Line<A>>)
    requires v.cells != [] && v == Reset(v)
    ensures FileSafe(at, v, vip, Loading(file), file)
  {
    assert file[0..] == file && v.t == Tables([], [], []);
  }

  lemma OthersKeepFile<A(!new)>(at: Sites<A>, v: Front<A>, vip: A, was: seq<Line<A>>, c: Control<A>,
                                file: seq<Line<A>>, created: bool)
    requires v.cells != [] && !c.cmd.Loading? && !c.cmd.Configuring? && FileSafe(at, v, vip, c.cmd, was)
    ensures FileSafe(at, CommandTables(at, v, vip, c.cmd), vip,
                     CommandControl(c, Bare(v.t, c.cmd), file, created).cmd, was)
  {}

  lemma ReadingKeepsFile<A(!new)>(at: Sites<A>, v: Front<A>, vip: A, was: seq<Line<A>>, c: Control<A>,
                                  file: seq<Line<A>>, created: bool)
    requires v.cells != [] && TablesOk(at(vip), v.t) && c.cmd.Loading? && FileSafe(at, v, vip, c.cmd, was)
    ensures FileSafe(at, CommandTables(at, v, vip, c.cmd), vip,
                     CommandControl(c, Bare(v.t, c.cmd), file, created).cmd, was)
  {
    if c.cmd.lines != [] {
      LoadKeepsFile(at, v, vip, c.cmd.lines, was);
    } else {
      assert was[..|was|] == was;
    }
  }

  lemma NextKeepsFile<A(!new)>(at: Sites<A>, s: State<A>, a: Action<A>)
    requires Safe(at, s) && FileSafe(at, s.v, s.vip, s.c.cmd, s.file)
    ensures var e := Next(at, s, a); FileSafe(at, e.v, e.vip, e.c.cmd, e.file)
  {
    match a
    case Command(file, vip, created) =>
      CommandKeepsFile(at, s.v, s.vip, s.file, s.c, if s.c.cmd.Configuring? then vip else s.vip, file, created);
    case Forward(e) =>
      if s.c.fwd == Looping {
        StepIsLater(at(s.vip), s.v, e);
        LaterFollows(at(s.vip), s.v.t, Step(at(s.vip), s.v, e).t, s.file);
      }
    case Cancel(mac, svr) =>
      if s.c.fwd == Looping && s.c.cancelled {
        LaterFollows(at(s.vip), s.v.t, HalfResolved(s.v, mac, svr).t, s.file);
      }
    case _ =>
  }

  lemma StepIsLater<A(!new)>(f: Family<A>, v: Front<A>, e: Event<A>)
    requires Inv(f, v)
    ensures Later(v.t, Step(f, v, e).t)
  {
    match e
    case PatrolTurn => PatrolKeepsInv(f, v);
    case Arrival(p) =>
      GetPolIsScan(f, v, p.source, p.answers);
      ScanKeeps(f, v.t, p.source, p.answers);
  }

  lemma {:induction false} ExecKeepsFile<A(!new)>(at: Sites<A>, s: State<A>, schedule: seq<Action<A>>)
    requires Safe(at, s) && FileSafe(at, s.v, s.vip, s.c.cmd, s.file)
    ensures var e := Exec(at, s, schedule); FileSafe(at, e.v, e.vip, e.c.cmd, e.file)
    decreases |schedule|
  {
    if schedule != [] {
      NextKeepsSafe(at, s, schedule[0]);
      NextKeepsFile(at, s, schedule[0]);
      ExecKeepsFile(at, Next(at, s, schedule[0]), schedule[1..]);
    }
  }

  /** Whatever has been reloaded, cancelled or failed, a live forwarding thread has before it the
      rules of the file last opened, all of them and in their order. */
  lemma ForwardingFollowsFile<A(!new)>(at: Sites<A>, s: State<A>, schedule: seq<Action<A>>)
    requires Fresh(at, s)
    ensures Safe(at, s)
    ensures var e := Exec(at, s, schedule);
            !Dead(e.c.fwd) ==> TablesOk(at(e.vip), e.v.t) && FollowsFile(at(e.vip), e.v.t, e.file)
  {
    ForwardingSeesWholeTables(at, s, schedule);
    ExecKeepsFile(at, s, schedule);
  }

  // ---------------------------------------------------------------- when a reload completes

  /** No forwarding thread is left, and the command thread is idle or waiting for one. */
  ghost predicate Stranded<A>(c: Control<A>) {
    && Dead(c.fwd)
    && (c.cmd.Idle? || ((c.cmd.Cleared? || c.cmd.Waiting?) && !c.cancelEnd))
  }

  lemma StrandedStays<A(!new)>(at: Sites<A>, s: State<A>, a: Action<A>)
    requires Safe(at, s) && Stranded(s.c)
    ensures Stranded(Next(at, s, a).c) && Next(at, s, a).v == s.v
  {}

  /** Once stranded, always: the command thread waits for a confirmation nobody will send, and
      the tables stay as they are. */
  lemma {:induction false} StrandedForever<A(!new)>(at: Sites<A>, s: State<A>, schedule: seq<Action<A>>)
    requires Safe(at, s) && Stranded(s.c)
    ensures Stranded(Exec(at, s, schedule).c) && Exec(at, s, schedule).v == s.v
    decreases |schedule|
  {
    if schedule != [] {
      NextKeepsSafe(at, s, schedule[0]);
      StrandedStays(at, s, schedule[0]);
      StrandedForever(at, Next(at, s, schedule[0]), schedule[1..]);
    }
  }

  ghost predicate Reaches<A(!new)>(at: Sites<A>, s: State<A>, e: State<A>) {
    Safe(at, s) && exists schedule :: Exec(at, s, schedule) == e
  }

  lemma ReachesItself<A(!new)>(at: Sites<A>, s: State<A>)
    requires Safe(at, s)
    ensures Reaches(at, s, s)
  {
    assert Exec(at, s, []) == s;
  }

  lemma ReachesBy<A(!new)>(at: Sites<A>, s: State<A>, a: Action<A>, e: State<A>)
    requires Safe(at, s) && Reaches(at, Next(at, s, a), e)
    ensures Reaches(at, s, e)
  {
    NextKeepsSafe(at, s, a);
    var rest :| Exec(at, Next(at, s, a), rest) == e;
    var schedule := [a] + rest;
    assert schedule[1..] == rest;
    assert Exec(at, s, schedule) == e;
  }

  lemma {:induction false} ExecAppend<A(!new)>(at: Sites<A>, s: State<A>, a: seq<Action<A>>,
                                               b: seq<Action<A>>)
    requires Safe(at, s)
    ensures Safe(at, Exec(at, s, a)) && Exec(at, s, a + b) == Exec(at, Exec(at, s, a), b)
    decreases |a|
  {
    if a == [] {
      assert a + b == b;
    } else {
      NextKeepsSafe(at, s, a[0]);
      assert (a + b)[1..] == a[1..] + b;
      ExecAppend(at, Next(at, s, a[0]), a[1..], b);
    }
  }

  lemma ReachesThrough<A(!new)>(at: Sites<A>, s: State<A>, m: State<A>, e: State<A>)
    requires Reaches(at, s, m) && Reaches(at, m, e)
    ensures Reaches(at, s, e)
  {
    var a :| Exec(at, s, a) == m;
    var b :| Exec(at, m, b) == e;
    ExecAppend(at, s, a, b);
    assert Exec(at, s, a + b) == e;
  }

  /** From a freshly read address to the whole file loaded. */
  lemma {:induction false} Loads<A(!new)>(at: Sites<A>, s: State<A>, e: State<A>)
    requires Safe(at, s) && s.c.cmd.Loading? && !s.c.ended
    requires e == s.(v := LoadAll(at(s.vip), s.v, s.c.cmd.lines), c := s.c.(cmd := Creating))
    ensures Reaches(at, s, e)
    decreases |s.c.cmd.lines|
  {
    var go := Command([], s.vip, true);
    NextKeepsSafe(at, s, go);
    if s.c.cmd.lines != [] {
      Loads(at, Next(at, s, go), e);
    } else {
      ReachesItself(at, e);
    }
    ReachesBy(at, s, go, e);
  }

  /** Tearing down whatever tables there are ends in the same loaded ones. */
  lemma {:induction false} TearsDown<A(!new)>(at: Sites<A>, s: State<A>, file: seq<Line<A>>, vip: A,
                                              e: State<A>)
    requires Safe(at, s) && Torn(s.c.cmd) && !s.c.ended && e == Rebuilt(at, s, file, vip)
    ensures Reaches(at, s, e)
    decreases if s.c.cmd.FreeingRules? then 3 else if s.c.cmd.FreeingServers? then 2
              else if s.c.cmd.Initialising? then 1 else 0,
              |s.v.t.rules| + |s.v.t.servers|
  {
    var go := Command(file, vip, true);
    NextKeepsSafe(at, s, go);
    if s.c.cmd.Configuring? {
      Loads(at, Next(at, s, go), e);
    } else {
      TearingKeepsGoal(at, s, file, vip);
      TearsDown(at, Next(at, s, go), file, vip, e);
    }
    ReachesBy(at, s, go, e);
  }

  /** Where a rebuild leads: the tables of the file, and the thread about to be created. */
  function Rebuilt<A(==)>(at: Sites<A>, s: State<A>, file: seq<Line<A>>, vip: A): State<A>
    requires s.v.cells != []
  {
    s.(v := LoadAll(at(vip), Reset(s.v), file), vip := vip, file := file, c := s.c.(cmd := Creating))
  }

  lemma TearingKeepsGoal<A(!new)>(at: Sites<A>, s: State<A>, file: seq<Line<A>>, vip: A)
    requires Safe(at, s) && Torn(s.c.cmd) && !s.c.cmd.Configuring? && !s.c.ended
    ensures var s1 := Next(at, s, Command(file, vip, true));
            s1.v.cells != [] && Rebuilt(at, s1, file, vip) == Rebuilt(at, s, file, vip)
  {
    SameReset(s.v, CommandTables(at, s.v, s.vip, s.c.cmd));
  }

  /** Reset depends only on the entries, their places and the sweep. */
  lemma SameReset<A>(v: Front<A>, v': Front<A>)
    requires v.cells != [] && (v' == v.(t := v'.t, uses := v'.uses) || v' == Reset(v))
    ensures v'.cells != [] && Reset(v') == Reset(v)
  {}

  function Running<A>(cancelEnd: bool): Control<A> {
    Control(Idle, Looping, cancelEnd, false, 1, true, false)
  }

  function Stopped<A>(c: Control<A>): Control<A> {
    c.(cmd := FreeingRules, fwd := Gone, cancelEnd := true, cancelled := true)
  }

  /** The start handshake can succeed. */
  lemma Starts<A(!new)>(at: Sites<A>, s: State<A>, e: State<A>)
    requires Safe(at, s) && s.c.cmd.Creating? && !s.c.ended
    requires e == s.(own := s.vip, c := Running(s.c.cancelEnd))
    ensures Reaches(at, s, e)
  {
    var go := Command([], s.vip, true);
    NextKeepsSafe(at, s, go);
    Handshakes(at, Next(at, s, go), e);
    ReachesBy(at, s, go, e);
  }

  lemma Handshakes<A(!new)>(at: Sites<A>, s: State<A>, e: State<A>)
    requires Safe(at, s) && s.c.cmd.Starting? && s.c.fwd == Created && !s.c.ended
    requires e == s.(own := s.vip, c := Running(s.c.cancelEnd))
    ensures Reaches(at, s, e)
  {
    var s2 := Next(at, s, Boot(true));
    var s3 := Next(at, s2, Arm);
    NextKeepsSafe(at, s, Boot(true));
    NextKeepsSafe(at, s2, Arm);
    Announces(at, s3, e);
    ReachesBy(at, s2, Arm, e);
    ReachesBy(at, s, Boot(true), e);
  }

  lemma Announces<A(!new)>(at: Sites<A>, s: State<A>, e: State<A>)
    requires Safe(at, s) && s.c.cmd.Starting? && s.c.fwd == Armed && !s.c.ended
    requires e == s.(c := Running(s.c.cancelEnd))
    ensures Reaches(at, s, e)
  {
    var s1 := Next(at, s, Announce);
    var go := Command([], s.vip, true);
    NextKeepsSafe(at, s, Announce);
    NextKeepsSafe(at, s1, go);
    ReachesItself(at, e);
    ReachesBy(at, s1, go, e);
    ReachesBy(at, s, Announce, e);
  }

  /** A thread that is alive can be stopped from the command loop. */
  lemma Stops<A(!new)>(at: Sites<A>, s: State<A>, e: State<A>)
    requires Safe(at, s) && s.c.cmd.Idle? && !s.c.ended && !Dead(s.c.fwd)
    requires e == s.(c := Stopped(s.c))
    ensures Reaches(at, s, e)
  {
    var go := Command([], s.vip, true);
    var s1 := Next(at, s, go);
    NextKeepsSafe(at, s, go);
    NextKeepsSafe(at, s1, go);
    Confirms(at, Next(at, s1, go), e);
    ReachesBy(at, s1, go, e);
    ReachesBy(at, s, go, e);
  }

  lemma Confirms<A(!new)>(at: Sites<A>, s: State<A>, e: State<A>)
    requires Safe(at, s) && s.c.cmd.Waiting? && s.c.cancelled && !s.c.ended
    requires s.c.fwd == Looping || s.c.fwd == Cleaning || s.c.fwd == Closed
    requires e == s.(c := Stopped(s.c))
    ensures Reaches(at, s, e)
    decreases if s.c.fwd == Looping then 2 else if s.c.fwd == Cleaning then 1 else 0
  {
    var a := if s.c.fwd == Looping then Cancel(0, |s.v.t.servers|)
             else if s.c.fwd == Cleaning then CloseSocket else Confirm;
    NextKeepsSafe(at, s, a);
    if s.c.fwd == Closed {
      GoesOn(at, Next(at, s, a), e);
    } else {
      Confirms(at, Next(at, s, a), e);
    }
    ReachesBy(at, s, a, e);
  }

  lemma GoesOn<A(!new)>(at: Sites<A>, s: State<A>, e: State<A>)
    requires Safe(at, s) && s.c.cmd.Waiting? && s.c.cancelEnd && !s.c.ended
    requires e == s.(c := s.c.(cmd := FreeingRules))
    ensures Reaches(at, s, e)
  {
    var go := Command([], s.vip, true);
    NextKeepsSafe(at, s, go);
    ReachesItself(at, e);
    ReachesBy(at, s, go, e);
  }

  /** From a front about to be initialised, or being torn down, to a thread running on the file. */
  lemma RebuildsAndStarts<A(!new)>(at: Sites<A>, s: State<A>, file: seq<Line<A>>, vip: A, e: State<A>)
    requires Safe(at, s) && Torn(s.c.cmd) && !s.c.ended
    requires e == State(LoadAll(at(vip), Reset(s.v), file), vip, file, vip, Running(s.c.cancelEnd), false)
    ensures Reaches(at, s, e)
  {
    var m := Rebuilt(at, s, file, vip);
    TearsDown(at, s, file, vip, m);
    ReachedIsSafe(at, s, m);
    Starts(at, m, e);
    ReachesThrough(at, s, m, e);
  }

  lemma ReachedIsSafe<A(!new)>(at: Sites<A>, s: State<A>, e: State<A>)
    requires Reaches(at, s, e)
    ensures Safe(at, e)
  {
    var schedule :| Exec(at, s, schedule) == e;
    ReloadSafety(at, s, schedule);
  }

  /** A reload asked for in the command loop can complete, and leave a new thread running on
      exactly the tables of the new file for the new address with every entry free again, if and
      only if the forwarding thread is alive when it is asked for. */
  lemma ReloadCompletes<A(!new)>(at: Sites<A>, s: State<A>, file: seq<Line<A>>, vip: A, e: State<A>)
    requires Safe(at, s) && s.c.cmd.Idle? && !s.c.ended
    requires e == State(LoadAll(at(vip), Reset(s.v), file), vip, file, vip, Running(true), false)
    ensures Reaches(at, s, e) <==> !Dead(s.c.fwd)
    ensures FollowsFile(at(vip), e.v.t, file) && NothingCounted(e.v)
  {
    ResetLoads(at(vip), s.v, file);
    if Dead(s.c.fwd) && Reaches(at, s, e) {
      var schedule :| Exec(at, s, schedule) == e;
      StrandedForever(at, s, schedule);
    }
    if !Dead(s.c.fwd) {
      var m := s.(c := Stopped(s.c));
      Stops(at, s, m);
      ReachedIsSafe(at, s, m);
      RebuildsAndStarts(at, m, file, vip, e);
      ReachesThrough(at, s, m, e);
    }
  }

  /** Where the first start fails, with or without a thread, main returns; where a later one does,
      the command loop goes on. */
  lemma FailedStart<A(!new)>(at: Sites<A>, s: State<A>, file: seq<Line<A>>, vip: A, created: bool)
    requires Safe(at, s) && !s.c.ended
    requires (s.c.cmd.Creating? && !created) || (s.c.cmd.Starting? && s.c.fwd == Absent)
    ensures var e := Next(at, s, Command(file, vip, created));
            && (!s.c.booted ==> e.c.ended) && (s.c.booted ==> !e.c.ended && e.c.cmd.Idle?)
            && Dead(e.c.fwd) && e.v == s.v
  {}

  /** The bad state is reached: main starts its thread, a reload stops it, and its restart fails.
      No reload completes after that. */
  lemma FailedRestartStrands<A(!new)>(at: Sites<A>, s: State<A>, file: seq<Line<A>>, vip: A)
    returns (e: State<A>)
    requires Fresh(at, s)
    ensures Reaches(at, s, e) && Stranded(e.c) && e.c.cmd.Idle? && e.c.booted && !e.c.ended
  {
    FreshIsSafe(at, s);
    var run := State(LoadAll(at(vip), Reset(s.v), file), vip, file, vip, Running(s.c.cancelEnd), false);
    RebuildsAndStarts(at, s, file, vip, run);
    ReachedIsSafe(at, s, run);
    e := RestartFails(at, run, file);
    ReachesThrough(at, s, run, e);
  }

  lemma RestartFails<A(!new)>(at: Sites<A>, s: State<A>, file: seq<Line<A>>) returns (e: State<A>)
    requires Safe(at, s) && s.c.cmd.Idle? && s.c.booted && !s.c.ended && !Dead(s.c.fwd)
    ensures Reaches(at, s, e) && Stranded(e.c) && e.c.cmd.Idle? && e.c.booted && !e.c.ended
  {
    var stop := s.(c := Stopped(s.c));
    Stops(at, s, stop);
    ReachedIsSafe(at, s, stop);
    var built := Rebuilt(at, stop, file, s.vip);
    TearsDown(at, stop, file, s.vip, built);
    ReachedIsSafe(at, stop, built);
    var fail := Command(file, s.vip, false);
    e := Next(at, built, fail);
    NextKeepsSafe(at, built, fail);
    ReachesItself(at, e);
    ReachesBy(at, built, fail, e);
    ReachesThrough(at, stop, built, e);
    ReachesThrough(at, s, stop, e);
  }

  // ---------------------------------------------------------------- every schedule

  /** A reload is under way and has not lost the thread it waits for. */
  ghost predicate Busy<A>(c: Control<A>) {
    !c.ended && !c.cmd.Idle? && !Stranded(c)
  }

  function StopLeft(t: Forwarder): nat {
    if t == Looping then 3 else if t == Cleaning then 2 else if t == Closed then 1 else 0
  }

  function StartLeft(t: Forwarder): nat {
    if t == Created then 4 else if t == Bound then 3 else if t == Armed then 2 else 1
  }

  /** Steps a reload still needs beside packets, for files of at most n lines. */
  function StepsLeft<A>(c: Control<A>, rules: nat, servers: nat, n: nat): nat {
    if c.ended then 0
    else
      match c.cmd
      case Idle => 0
      case Starting => StartLeft(c.fwd)
      case Creating => 5
      case Loading(lines) => 6 + |lines|
      case Configuring => 7 + n
      case Initialising => 8 + n
      case FreeingServers => 9 + n + servers
      case FreeingRules => 10 + n + servers + rules
      case Waiting => 11 + n + servers + rules + StopLeft(c.fwd)
      case Cleared => 12 + n + servers + rules + StopLeft(c.fwd)
  }

  function Left<A>(s: State<A>, n: nat): nat {
    StepsLeft(s.c, |s.v.t.rules|, |s.v.t.servers|, n)
  }

  /** Files have at most n lines. */
  predicate Short<A>(a: Action<A>, n: nat) {
    a.Command? ==> |a.file| <= n
  }

  /** A step of the command thread: it waits, or it is progress. */
  lemma ControlLowers<A>(c: Control<A>, c': Control<A>, bare: bool, file: seq<Line<A>>, created: bool,
                         rules: nat, servers: nat, n: nat)
    requires Busy(c) && |file| <= n && c' == CommandControl(c, bare, file, created)
    requires c' != c
    ensures (c'.cmd != c.cmd || c'.ended) && StepsLeft(c', rules, servers, n) < StepsLeft(c, rules, servers, n)
  {
    if c.cmd.Creating? || c.cmd.Starting? {
      StartLowers(c, c', bare, file, created, rules, servers, n);
    }
  }

  lemma StartLowers<A>(c: Control<A>, c': Control<A>, bare: bool, file: seq<Line<A>>, created: bool,
                       rules: nat, servers: nat, n: nat)
    requires !c.ended && (c.cmd.Creating? || c.cmd.Starting?)
    requires c' == CommandControl(c, bare, file, created) != c
    ensures (c'.cmd != c.cmd || c'.ended) && StepsLeft(c', rules, servers, n) < StepsLeft(c, rules, servers, n)
  {}

  lemma CommandLowers<A(!new)>(at: Sites<A>, s: State<A>, file: seq<Line<A>>, vip: A, created: bool, n: nat)
    requires Safe(at, s) && Busy(s.c) && |file| <= n
    requires Next(at, s, Command(file, vip, created)) != s
    ensures Left(Next(at, s, Command(file, vip, created)), n) < Left(s, n)
  {
    var c' := CommandControl(s.c, Bare(s.v.t, s.c.cmd), file, created);
    if c' != s.c {
      ControlLowers(s.c, c', Bare(s.v.t, s.c.cmd), file, created, |s.v.t.rules|, |s.v.t.servers|, n);
      MovesOn(s.v.t, s.c, c', file, created);
      TablesMatterNot(at, s.v, s.vip, s.c, c', n);
    } else {
      StaysToFree(at, s.v, s.vip, s.c, file, created);
      FreeingLowers(at, s.v, s.vip, s.c, n);
    }
  }

  lemma MovesOn<A>(t: Tables<A>, c: Control<A>, c': Control<A>, file: seq<Line<A>>, created: bool)
    requires Busy(c) && c' == CommandControl(c, Bare(t, c.cmd), file, created) != c
    ensures c.cmd.FreeingRules? ==> t.rules == []
    ensures c.cmd.FreeingServers? ==> t.servers == []
    ensures c.cmd.Initialising? ==> c'.cmd.Configuring?
    ensures c.cmd.Loading? ==> c'.cmd.Loading? || c'.cmd.Creating?
  {}

  lemma StaysToFree<A>(at: Sites<A>, v: Front<A>, vip: A, c: Control<A>, file: seq<Line<A>>, created: bool)
    requires v.cells != [] && Busy(c) && c == CommandControl(c, Bare(v.t, c.cmd), file, created)
    requires CommandTables(at, v, vip, c.cmd) != v
    ensures (c.cmd.FreeingRules? && v.t.rules != []) || (c.cmd.FreeingServers? && v.t.servers != [])
  {}

  /** Where the command thread moves on, the new tables count as the old ones did. */
  lemma TablesMatterNot<A>(at: Sites<A>, v: Front<A>, vip: A, c: Control<A>, c': Control<A>, n: nat)
    requires v.cells != [] && Busy(c) && (c'.cmd != c.cmd || c'.ended)
    requires c.cmd.FreeingRules? ==> v.t.rules == []
    requires c.cmd.FreeingServers? ==> v.t.servers == []
    requires c.cmd.Initialising? ==> c'.cmd.Configuring?
    requires c.cmd.Loading? ==> c'.cmd.Loading? || c'.cmd.Creating?
    ensures var v' := CommandTables(at, v, vip, c.cmd);
            StepsLeft(c', |v'.t.rules|, |v'.t.servers|, n) == StepsLeft(c', |v.t.rules|, |v.t.servers|, n)
  {}

  /** Where it stays, it frees a rule or a server. */
  lemma FreeingLowers<A>(at: Sites<A>, v: Front<A>, vip: A, c: Control<A>, n: nat)
    requires v.cells != [] && Busy(c)
    requires (c.cmd.FreeingRules? && v.t.rules != []) || (c.cmd.FreeingServers? && v.t.servers != [])
    ensures var v' := CommandTables(at, v, vip, c.cmd);
            StepsLeft(c, |v'.t.rules|, |v'.t.servers|, n) < StepsLeft(c, |v.t.rules|, |v.t.servers|, n)
  {}

  lemma ThreadLowers<A>(c: Control<A>, a: Action<A>, rules: nat, servers: nat, n: nat)
    requires PhasesSafe(c) && Busy(c) && ForwarderControl(c, a) != c
    ensures StepsLeft(ForwarderControl(c, a), rules, servers, n) < StepsLeft(c, rules, servers, n)
  {}

  /** A packet or a patrol step brings the reload neither nearer nor further. */
  lemma ForwardKeepsLeft<A(!new)>(f: Family<A>, v: Front<A>, e: Event<A>)
    requires Inv(f, v)
    ensures |Step(f, v, e).t.rules| == |v.t.rules| && |Step(f, v, e).t.servers| == |v.t.servers|
  {
    match e
    case PatrolTurn => PatrolKeepsInv(f, v);
    case Arrival(p) =>
      GetPolIsScan(f, v, p.source, p.answers);
      ScanKeeps(f, v.t, p.source, p.answers);
  }

  /** Every step beside packets that does anything is progress. */
  lemma StepLowersLeft<A(!new)>(at: Sites<A>, s: State<A>, a: Action<A>, n: nat)
    requires Safe(at, s) && Busy(s.c) && Short(a, n)
    ensures if a.Forward? || Next(at, s, a) == s then Left(Next(at, s, a), n) == Left(s, n)
            else Left(Next(at, s, a), n) < Left(s, n)
  {
    match a
    case Command(file, vip, created) =>
      if Next(at, s, a) != s {
        CommandLowers(at, s, file, vip, created, n);
      }
    case Forward(e) =>
      if s.c.fwd == Looping {
        ForwardKeepsLeft(at(s.vip), s.v, e);
      }
    case _ =>
      if ForwarderControl(s.c, a) != s.c {
        ThreadLowers(s.c, a, |s.v.t.rules|, |s.v.t.servers|, n);
      }
  }

  /** A reload under way stays so until it is back in the command loop or main has returned. */
  lemma BusyStays<A(!new)>(at: Sites<A>, s: State<A>, a: Action<A>)
    requires Safe(at, s) && Busy(s.c)
    requires !Next(at, s, a).c.ended && !Next(at, s, a).c.cmd.Idle?
    ensures Busy(Next(at, s, a).c)
  {
    match a
    case Command(file, vip, created) => CommandStaysBusy(s.c, Bare(s.v.t, s.c.cmd), file, created);
    case Forward(_) =>
    case _ => ThreadStaysBusy(s.c, a);
  }

  lemma CommandStaysBusy<A>(c: Control<A>, bare: bool, file: seq<Line<A>>, created: bool)
    requires PhasesSafe(c) && Busy(c)
    requires var c' := CommandControl(c, bare, file, created); !c'.ended && !c'.cmd.Idle?
    ensures Busy(CommandControl(c, bare, file, created))
  {}

  lemma ThreadStaysBusy<A>(c: Control<A>, a: Action<A>)
    requires PhasesSafe(c) && Busy(c)
    ensures Busy(ForwarderControl(c, a))
  {}

  ghost predicate CanMove<A(!new)>(at: Sites<A>, s: State<A>) {
    s.v.cells != [] && exists a: Action<A> :: !a.Forward? && Short(a, 0) && Next(at, s, a) != s
  }

  /** And some such step is always possible. */
  lemma SomethingMoves<A(!new)>(at: Sites<A>, s: State<A>)
    requires Safe(at, s) && Busy(s.c)
    ensures CanMove(at, s)
  {
    var a := if s.c.cmd.Waiting? && !s.c.cancelEnd then StopsNext(s.c.fwd)
             else if s.c.cmd.Starting? && Young(s.c.fwd) then StartsNext(s.c.fwd)
             else Command([], s.vip, true);
    if a.Command? {
      CommandMoves(at, s, s.vip);
    } else {
      assert ForwarderControl(s.c, a) != s.c;
    }
    assert !a.Forward? && Short(a, 0) && Next(at, s, a) != s;
  }

  function StopsNext<A>(t: Forwarder): Action<A> {
    if t == Looping then Cancel(0, 0) else if t == Cleaning then CloseSocket else Confirm
  }

  function StartsNext<A>(t: Forwarder): Action<A> {
    if t == Created then Boot(true) else if t == Bound then Arm else Announce
  }

  lemma CommandMoves<A(!new)>(at: Sites<A>, s: State<A>, vip: A)
    requires Safe(at, s) && Busy(s.c)
    requires s.c.cmd.Waiting? ==> s.c.cancelEnd
    requires s.c.cmd.Starting? ==> s.c.wait != 0
    ensures Next(at, s, Command([], vip, true)) != s
  {
    if (s.c.cmd.FreeingRules? && s.v.t.rules != []) || (s.c.cmd.FreeingServers? && s.v.t.servers != []) {
      FreeingLowers(at, s.v, s.vip, s.c, 0);
    } else {
      assert CommandControl(s.c, Bare(s.v.t, s.c.cmd), [], true) != s.c;
    }
  }

  /** The command thread is back in its loop, or main has returned, somewhere along the way. */
  ghost predicate Returns<A(!new)>(at: Sites<A>, s: State<A>, schedule: seq<Action<A>>)
    requires Safe(at, s)
    decreases |schedule|
  {
    s.c.cmd.Idle? || s.c.ended
    || (schedule != [] && (NextKeepsSafe(at, s, schedule[0]);
                           Returns(at, Next(at, s, schedule[0]), schedule[1..])))
  }

  /** The steps beside packets that change something. */
  ghost function Moves<A(!new)>(at: Sites<A>, s: State<A>, schedule: seq<Action<A>>): nat
    requires Safe(at, s)
    decreases |schedule|
  {
    if schedule == [] then 0
    else
      NextKeepsSafe(at, s, schedule[0]);
      (if schedule[0].Forward? || Next(at, s, schedule[0]) == s then 0 else 1)
      + Moves(at, Next(at, s, schedule[0]), schedule[1..])
  }

  /** However the threads are scheduled and whatever fails, a reload under way gets back to the
      command loop: until it does, something beside packets can move, and only so often. */
  lemma {:induction false} EveryReload<A(!new)>(at: Sites<A>, s: State<A>, schedule: seq<Action<A>>, n: nat)
    requires Safe(at, s) && Busy(s.c)
    requires forall i :: 0 <= i < |schedule| ==> Short(schedule[i], n)
    ensures Returns(at, s, schedule) ||
            (var e := Exec(at, s, schedule);
             && Moves(at, s, schedule) + Left(e, n) <= Left(s, n)
             && CanMove(at, e))
    decreases |schedule|
  {
    if schedule == [] {
      SomethingMoves(at, s);
    } else {
      var s1 := Next(at, s, schedule[0]);
      NextKeepsSafe(at, s, schedule[0]);
      StepLowersLeft(at, s, schedule[0], n);
      if !s1.c.ended && !s1.c.cmd.Idle? {
        BusyStays(at, s, schedule[0]);
        EveryReload(at, s1, schedule[1..], n);
      }
    }
  }

  /** A reload asked for while the thread is alive is under way after its first step, with a
      bounded number of steps to make. */
  lemma ReloadBegins<A(!new)>(at: Sites<A>, s: State<A>, a: Action<A>, n: nat)
    requires Safe(at, s) && s.c.cmd.Idle? && !s.c.ended && !Dead(s.c.fwd) && a.Command?
    ensures Busy(Next(at, s, a).c)
    ensures Left(Next(at, s, a), n) <= 15 + n + |s.v.t.rules| + |s.v.t.servers|
  {}
}
