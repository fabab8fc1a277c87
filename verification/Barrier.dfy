/** The start barrier of the backend: any number of packet threads and the parent that
    releases them, under every interleaving (back/back_init.c sync_init, sync_thread,
    wait_thread; back/backend.c main, back_ingress, back_egress). */
module Barrier {
  /** THREAD_INIT, THREAD_WAKE and THREAD_GO. */
  datatype Flag = INIT | WAKE | GO

  /** Where a packet thread is: not created, creating its socket, its socket just published, its
      flag raised and polling, past the barrier. */
  datatype Child = Unborn | Starting | Published | Polling | Running

  /** Where the parent is: creating thread k, scanning flag i, releasing thread i, past it. */
  datatype Parent = Creating(k: nat) | Scanning(i: nat) | Releasing(j: nat) | Finished

  /** `sockets` are the sockfd fields of the interface records, set or not. */
  datatype State = State(parent: Parent, kids: seq<Child>, sockets: seq<bool>, flags: seq<Flag>,
                         exited: bool)

  /** One atomic step: of the parent, of a child, or a child failing to open its socket. */
  datatype Action = ParentStep | ChildStep(c: nat) | SocketFails(f: nat)

  /** After sync_init. */
  function Start(n: nat): State {
    State(Creating(0), seq(n, i => Unborn), seq(n, i => false), seq(n, i => INIT), false)
  }

  predicate Shape(s: State) {
    && |s.kids| == |s.flags| == |s.sockets|
    && match s.parent
       case Creating(k) => k <= |s.kids|
       case Scanning(i) => i <= |s.kids|
       case Releasing(i) => i <= |s.kids|
       case Finished => true
  }

  function ParentNext(s: State): State
    requires Shape(s)
  {
    match s.parent
    case Creating(k) =>
      if k == |s.kids| then s.(parent := Scanning(0))
      else s.(parent := Creating(k + 1), kids := s.kids[k := Starting])
    case Scanning(i) =>
      if i == |s.kids| then s.(parent := Releasing(0))
      else if s.flags[i] == WAKE then s.(parent := Scanning(i + 1))
      else s
    case Releasing(i) =>
      if i == |s.kids| then s.(parent := Finished)
      else s.(parent := Releasing(i + 1), flags := s.flags[i := GO])
    case Finished => s
  }

  function ChildNext(s: State, c: nat): State
    requires Shape(s) && c < |s.kids|
  {
    match s.kids[c]
    case Unborn => s
    case Starting => s.(kids := s.kids[c := Published], sockets := s.sockets[c := true])
    case Published => s.(kids := s.kids[c := Polling], flags := s.flags[c := WAKE])
    case Polling => if s.flags[c] == GO then s.(kids := s.kids[c := Running]) else s
    case Running => s
  }

  function Next(s: State, a: Action): State
    requires Shape(s)
  {
    if s.exited then s
    else
      match a
      case ParentStep => ParentNext(s)
      case ChildStep(c) => if c < |s.kids| then ChildNext(s, c) else s
      case SocketFails(c) => if c < |s.kids| && s.kids[c] == Starting then s.(exited := true) else s
  }

  // ---------------------------------------------------------------- safety

  /** A child has published its socket from then on. */
  predicate SocketFits(c: Child, socket: bool) {
    socket <==> c == Published || c == Polling || c == Running
  }

  /** The flag of a child in each of its states, told apart by how far the parent is. */
  predicate FlagFits(c: Child, f: Flag, released: bool) {
    match c
    case Polling => f == if released then GO else WAKE
    case Running => f == GO && released
    case Unborn => f == INIT && !released
    case Starting => f == INIT && !released
    case Published => f == INIT && !released
  }

  function Released(p: Parent, c: nat): bool {
    match p
    case Releasing(i) => c < i
    case Finished => true
    case Creating(_) => false
    case Scanning(_) => false
  }

  /** What every reachable state satisfies. */
  ghost predicate Inv(s: State) {
    && Shape(s)
    && (forall c :: 0 <= c < |s.kids| ==> SocketFits(s.kids[c], s.sockets[c]))
    && (forall c :: 0 <= c < |s.kids| ==> FlagFits(s.kids[c], s.flags[c], Released(s.parent, c)))
    && match s.parent
       case Creating(k) => forall c :: 0 <= c < |s.kids| ==> (s.kids[c] == Unborn <==> c >= k)
       case Scanning(i) => forall c :: 0 <= c < |s.kids| ==>
                             s.kids[c] != Unborn && (c < i ==> s.kids[c] == Polling)
       case Releasing(_) => forall c :: 0 <= c < |s.kids| ==> s.kids[c] == Polling || s.kids[c] == Running
       case Finished => forall c :: 0 <= c < |s.kids| ==> s.kids[c] == Polling || s.kids[c] == Running
  }

  lemma ParentKeepsInv(s: State)
    requires Inv(s)
    ensures Inv(ParentNext(s)) && |ParentNext(s).kids| == |s.kids|
  {}

  lemma ChildKeepsInv(s: State, c: nat)
    requires Inv(s) && c < |s.kids|
    ensures Inv(ChildNext(s, c)) && |ChildNext(s, c).kids| == |s.kids|
  {}

  lemma NextKeepsInv(s: State, a: Action)
    requires Inv(s)
    ensures Inv(Next(s, a)) && |Next(s, a).kids| == |s.kids|
  {
    if !s.exited {
      match a
      case ParentStep => ParentKeepsInv(s);
      case ChildStep(c) =>
        if c < |s.kids| {
          ChildKeepsInv(s, c);
        }
      case SocketFails(_) =>
    }
  }

  function Exec(s: State, schedule: seq<Action>): State
    requires Inv(s)
    decreases |schedule|
  {
    if schedule == [] then s
    else
      NextKeepsInv(s, schedule[0]);
      Exec(Next(s, schedule[0]), schedule[1..])
  }

  lemma {:induction false} ExecKeepsInv(s: State, schedule: seq<Action>)
    requires Inv(s)
    ensures Inv(Exec(s, schedule)) && |Exec(s, schedule).kids| == |s.kids|
    decreases |schedule|
  {
    if schedule != [] {
      NextKeepsInv(s, schedule[0]);
      ExecKeepsInv(Next(s, schedule[0]), schedule[1..]);
    }
  }

  /** For any number of threads and any interleaving, no thread is past the barrier, and the
      parent is not past its scan, until every thread has published its socket and raised its
      flag. */
  lemma NobodyPassesEarly(n: nat, schedule: seq<Action>, c: nat)
    requires c < n
    ensures Inv(Start(n))
    ensures var s := Exec(Start(n), schedule);
            && |s.kids| == |s.flags| == |s.sockets| == n
            && (s.kids[c] == Running || s.parent.Releasing? || s.parent.Finished? ==>
                  forall d :: 0 <= d < n ==> s.sockets[d] && s.flags[d] != INIT)
  {
    ExecKeepsInv(Start(n), schedule);
  }

  /** No flag update is lost: a step changes at most one flag, from INIT to WAKE by its child
      or from WAKE to GO by the parent. */
  lemma NoLostUpdate(s: State, a: Action, c: nat)
    requires Inv(s) && c < |s.flags|
    ensures var s' := Next(s, a);
            && |s'.flags| == |s.flags|
            && (s'.flags[c] != s.flags[c] ==>
                  || (s.flags[c] == INIT && s'.flags[c] == WAKE && a == ChildStep(c))
                  || (s.flags[c] == WAKE && s'.flags[c] == GO && a == ParentStep))
  {}

  // ---------------------------------------------------------------- progress

  function Left(c: Child): nat {
    match c
    case Unborn => 4
    case Starting => 3
    case Published => 2
    case Polling => 1
    case Running => 0
  }

  function KidsLeft(kids: seq<Child>): nat {
    if kids == [] then 0 else Left(kids[0]) + KidsLeft(kids[1..])
  }

  function ParentLeft(s: State): nat
    requires Shape(s)
  {
    var n := |s.kids|;
    match s.parent
    case Creating(k) => 3 * n + 3 - k
    case Scanning(i) => 2 * n + 2 - i
    case Releasing(i) => n + 1 - i
    case Finished => 0
  }

  /** Steps still to be made before everybody is past the barrier. */
  function Measure(s: State): nat
    requires Shape(s)
  {
    ParentLeft(s) + KidsLeft(s.kids)
  }

  lemma {:induction false} KidsLeftUpdate(kids: seq<Child>, c: nat, k: Child)
    requires c < |kids|
    ensures KidsLeft(kids[c := k]) + Left(kids[c]) == KidsLeft(kids) + Left(k)
  {
    if c > 0 {
      KidsLeftUpdate(kids[1..], c - 1, k);
      assert kids[c := k][1..] == kids[1..][c - 1 := k];
    } else {
      assert kids[c := k][1..] == kids[1..];
    }
  }

  /** Every step either only polls or strictly lowers the measure. */
  lemma StepLowersMeasure(s: State, a: Action)
    requires Inv(s) && !Next(s, a).exited && Next(s, a) != s
    ensures Inv(Next(s, a)) && Measure(Next(s, a)) < Measure(s)
  {
    NextKeepsInv(s, a);
    match a
    case ParentStep =>
      if s.parent.Creating? && s.parent.k < |s.kids| {
        KidsLeftUpdate(s.kids, s.parent.k, Starting);
      }
    case ChildStep(c) =>
      KidsLeftUpdate(s.kids, c, Next(s, a).kids[c]);
    case SocketFails(c) =>
  }

  /** While somebody is not past the barrier, somebody can move: no deadlock. */
  lemma SomebodyCanMove(s: State) returns (a: Action)
    requires Inv(s) && !s.exited && Measure(s) > 0
    ensures Next(s, a) != s && !Next(s, a).exited
  {
    if exists c :: 0 <= c < |s.kids| && (s.kids[c] == Starting || s.kids[c] == Published) {
      var c :| 0 <= c < |s.kids| && (s.kids[c] == Starting || s.kids[c] == Published);
      a := ChildStep(c);
      if s.kids[c] == Starting {
        assert Next(s, a).kids[c] == Published;
      } else {
        assert Next(s, a).kids[c] == Polling;
      }
    } else if s.parent.Finished? {
      var c := StillPolling(s.kids);
      a := ChildStep(c);
      assert Next(s, a).kids[c] == Running;
    } else {
      a := ParentStep;
    }
  }

  lemma {:induction false} StillPolling(kids: seq<Child>) returns (c: nat)
    requires KidsLeft(kids) > 0 && forall d :: 0 <= d < |kids| ==> kids[d] == Polling || kids[d] == Running
    ensures c < |kids| && kids[c] == Polling
  {
    if kids[0] == Polling {
      c := 0;
    } else {
      c := StillPolling(kids[1..]);
      c := c + 1;
    }
  }

  /** Once every thread has arrived, every step of the parent is progress until it is done. */
  lemma ParentNeverWaitsAgain(s: State)
    requires Inv(s) && !s.exited && !s.parent.Finished?
    requires forall c :: 0 <= c < |s.flags| ==> s.flags[c] != INIT
    ensures Measure(Next(s, ParentStep)) < Measure(s)
    ensures forall c :: 0 <= c < |s.flags| ==> Next(s, ParentStep).flags[c] != INIT
  {
    StepLowersMeasure(s, ParentStep);
  }

  /** The barrier opens: a schedule that lets somebody move at every turn has everybody past
      the barrier after at most 7n + 3 effective steps, unless a socket fails. */
  lemma {:induction false} BarrierOpens(s: State) returns (schedule: seq<Action>)
    requires Inv(s) && !s.exited
    ensures |schedule| <= Measure(s)
    ensures var e := Exec(s, schedule);
            && e.parent.Finished? && |e.kids| == |s.kids|
            && forall c :: 0 <= c < |e.kids| ==> e.kids[c] == Running
    decreases Measure(s)
  {
    if Measure(s) == 0 {
      schedule := [];
      AllRunning(s.kids);
    } else {
      var a := SomebodyCanMove(s);
      StepLowersMeasure(s, a);
      NextKeepsInv(s, a);
      var rest := BarrierOpens(Next(s, a));
      schedule := [a] + rest;
      assert schedule[1..] == rest;
    }
  }

  function Effective(s: State, schedule: seq<Action>): nat
    requires Inv(s)
    decreases |schedule|
  {
    if schedule == [] then 0
    else
      NextKeepsInv(s, schedule[0]);
      (if Next(s, schedule[0]) == s then 0 else 1) + Effective(Next(s, schedule[0]), schedule[1..])
  }

  lemma {:induction false} ExitStaysExited(s: State, schedule: seq<Action>)
    requires Inv(s) && s.exited
    ensures Exec(s, schedule) == s && Effective(s, schedule) == 0
    decreases |schedule|
  {
    if schedule != [] {
      ExitStaysExited(s, schedule[1..]);
    }
  }

  ghost predicate AtRest(s: State) {
    Shape(s) && forall a :: Next(s, a) == s
  }

  /** A thread that cannot open its socket takes the whole process down: nobody moves again. */
  lemma FailureEndsAll(s: State, c: nat, schedule: seq<Action>)
    requires Inv(s) && !s.exited && c < |s.kids| && s.kids[c] == Starting
    ensures var e := Next(s, SocketFails(c));
            Inv(e) && e.exited && e.kids == s.kids && e.flags == s.flags && Exec(e, schedule) == e
  {
    NextKeepsInv(s, SocketFails(c));
    ExitStaysExited(Next(s, SocketFails(c)), schedule);
  }

  /** No schedule, however unfair, makes more effective steps than the measure, polling aside;
      and one that has run out of effective steps has opened the barrier or met a socket
      failure. */
  lemma {:induction false} EverySchedule(s: State, schedule: seq<Action>)
    requires Inv(s) && !s.exited
    ensures var e := Exec(s, schedule);
            && (!e.exited ==> Effective(s, schedule) <= Measure(s))
            && (!e.exited && AtRest(e) ==>
                  e.parent.Finished? && forall c :: 0 <= c < |e.kids| ==> e.kids[c] == Running)
    decreases |schedule|
  {
    if schedule == [] {
      if Measure(s) > 0 {
        var a := SomebodyCanMove(s);
        assert Next(s, a) != s;
      } else {
        AllRunning(s.kids);
      }
    } else {
      var s' := Next(s, schedule[0]);
      NextKeepsInv(s, schedule[0]);
      if s'.exited {
        ExitStaysExited(s', schedule[1..]);
      } else {
        EverySchedule(s', schedule[1..]);
        if s' != s {
          StepLowersMeasure(s, schedule[0]);
        }
      }
    }
  }

  lemma {:induction false} AllRunning(kids: seq<Child>)
    requires KidsLeft(kids) == 0
    ensures forall c :: 0 <= c < |kids| ==> kids[c] == Running
  {
    if kids != [] {
      AllRunning(kids[1..]);
      assert forall c :: 0 < c < |kids| ==> kids[c] == kids[1..][c - 1];
    }
  }

  lemma {:induction false} FirstMeasure(n: nat)
    ensures Measure(Start(n)) == 7 * n + 3
  {
    AllUnborn(Start(n).kids);
  }

  lemma {:induction false} AllUnborn(kids: seq<Child>)
    requires forall c :: 0 <= c < |kids| ==> kids[c] == Unborn
    ensures KidsLeft(kids) == 4 * |kids|
  {
    if kids != [] {
      AllUnborn(kids[1..]);
    }
  }
}
