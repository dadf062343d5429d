/** Threads that share the table of reusable connections: a state machine whose
    steps are the critical sections of gateway.c and the thread-local actions of
    jcc.c between them, in any order. A new socket number is not one that is
    open, and a thread forgets a socket before it closes it. */
module ConnectionSharing {
  import opened Text
  import opened Connections

  /** What a thread does with its `csp->server_connection`. */
  datatype Thread =
    | Quiet
    | Seeking(want: Destination)     // between the two critical sections of get_reusable_connection
    | Connecting(want: Destination)  // found nothing to reuse
    | Using(sfd: int, saved: Destination, serving: Destination)
    | Returning(c: Connection)       // between the two critical sections of remember_connection
    | Closing(sfd: int)              // the table does not know the socket

  function Held(t: Thread): Option<int> {
    match t
    case Using(sfd, _, _) => Some(sfd)
    case Returning(c) => Some(c.sfd)
    case Closing(sfd) => Some(sfd)
    case _ => None
  }

  /** An open server socket, with its history: the request it was opened for, the
      thread that owns it and the slot that names it. No step depends on the history. */
  datatype Socket = Socket(openedFor: Destination, owner: Option<nat>, slot: Option<nat>)

  datatype State = State(slots: seq<Connection>, threads: seq<Thread>, sockets: map<int, Socket>)

  datatype Step =
    | Prune(now: nat -> int, alive: int -> bool)                          // the monitor thread
    | Seek(t: nat, want: Destination, now: nat -> int, alive: int -> bool)
    | Take(t: nat)
    | Skip(t: nat, want: Destination)                                      // connects without asking the table
    | Connect(t: nat, sfd: int)
    | ConnectFails(t: nat)
    | Reuse(t: nat, want: Destination)                                     // the thread's own connection
    | Return(t: nat, c: Connection)
    | Store(t: nat)
    | Forget(t: nat)
    | Close(t: nat)

  ghost predicate Enabled(s: State, step: Step) {
    (!step.Prune? ==> step.t < |s.threads|) &&
    match step
    case Prune(_, _) => true
    case Seek(t, _, _, _) => s.threads[t].Quiet?
    case Take(t) => s.threads[t].Seeking?
    case Skip(t, _) => s.threads[t].Quiet?
    case Connect(t, sfd) => s.threads[t].Connecting? && sfd != INVALID_SOCKET && sfd !in s.sockets
    case ConnectFails(t) => s.threads[t].Connecting?
    case Reuse(t, want) => s.threads[t].Using? && Matches(s.threads[t].saved, want)
    case Return(t, c) => s.threads[t].Using? && c.sfd == s.threads[t].sfd && c.destination == s.threads[t].saved
    case Store(t) => s.threads[t].Returning?
    case Forget(t) => s.threads[t].Using?
    case Close(t) => s.threads[t].Closing?
  }

  ghost function AfterPruning(s: State, now: nat -> int, alive: int -> bool): State {
    State(Pruned(s.slots, now, alive), s.threads, s.sockets - ClosedSockets(s.slots, now, alive))
  }

  ghost function AfterTaking(s: State, t: nat): State
    requires t < |s.threads| && s.threads[t].Seeking?
  {
    var want := s.threads[t].want;
    var k := FindReusable(s.slots, want);
    if k == |s.slots| then
      s.(threads := s.threads[t := Connecting(want)])
    else
      var sfd := s.slots[k].sfd;
      State(Taken(s.slots, want), s.threads[t := Using(sfd, want, want)],
            map x | x in s.sockets :: if x == sfd then s.sockets[x].(owner := Some(t)) else s.sockets[x])
  }

  ghost function AfterReturning(s: State, t: nat, c: Connection): State
    requires t < |s.threads|
  {
    if FindSocket(s.slots, c.sfd) == |s.slots| then
      s.(threads := s.threads[t := Returning(c)])
    else
      State(MarkedUnused(s.slots, c), s.threads[t := Quiet],
            map x | x in s.sockets :: if x == c.sfd then s.sockets[x].(owner := None) else s.sockets[x])
  }

  ghost function AfterStoring(s: State, t: nat): State
    requires t < |s.threads| && s.threads[t].Returning?
  {
    var c := s.threads[t].c;
    var k := FindSocket(s.slots, INVALID_SOCKET);
    if k == |s.slots| then
      s.(threads := s.threads[t := Closing(c.sfd)])
    else
      State(Stored(s.slots, c), s.threads[t := Quiet],
            map x | x in s.sockets ::
              if x == c.sfd then s.sockets[x].(owner := None, slot := Some(k)) else s.sockets[x])
  }

  ghost function AfterForgetting(s: State, t: nat): State
    requires t < |s.threads| && s.threads[t].Using?
  {
    var sfd := s.threads[t].sfd;
    State(Forgotten(s.slots, sfd), s.threads[t := Closing(sfd)],
          map x | x in s.sockets :: if x == sfd then s.sockets[x].(slot := None) else s.sockets[x])
  }

  ghost function Next(s: State, step: Step): State
    requires Enabled(s, step)
  {
    match step
    case Prune(now, alive) => AfterPruning(s, now, alive)
    case Seek(t, want, now, alive) => AfterPruning(s, now, alive).(threads := s.threads[t := Seeking(want)])
    case Take(t) => AfterTaking(s, t)
    case Skip(t, want) => s.(threads := s.threads[t := Connecting(want)])
    case Connect(t, sfd) =>
      var want := s.threads[t].want;
      s.(threads := s.threads[t := Using(sfd, want, want)], sockets := s.sockets[sfd := Socket(want, Some(t), None)])
    case ConnectFails(t) => s.(threads := s.threads[t := Quiet])
    case Reuse(t, want) => s.(threads := s.threads[t := s.threads[t].(serving := want)])
    case Return(t, c) => AfterReturning(s, t, c)
    case Store(t) => AfterStoring(s, t)
    case Forget(t) => AfterForgetting(s, t)
    case Close(t) => s.(threads := s.threads[t := Quiet], sockets := s.sockets - {s.threads[t].sfd})
  }

  // ----- The invariant ---------------------------------------------------------

  ghost predicate SlotOk(s: State, k: nat)
    requires k < |s.slots|
  {
    var c := s.slots[k];
    if c.sfd == INVALID_SOCKET then c == Closed()
    else
      && c.sfd in s.sockets && s.sockets[c.sfd].slot == Some(k)
      && (c.inUse <==> s.sockets[c.sfd].owner.Some?)
      && Matches(s.sockets[c.sfd].openedFor, c.destination)
  }

  ghost predicate ThreadOk(s: State, t: nat)
    requires t < |s.threads|
  {
    match Held(s.threads[t])
    case None => true
    case Some(sfd) =>
      && sfd in s.sockets && s.sockets[sfd].owner == Some(t)
      && (s.threads[t].Using? || s.sockets[sfd].slot == None)
      && (s.threads[t].Using? ==> Matches(s.sockets[sfd].openedFor, s.threads[t].saved))
      && (s.threads[t].Using? ==> Matches(s.sockets[sfd].openedFor, s.threads[t].serving))
      && (s.threads[t].Returning? ==> Matches(s.sockets[sfd].openedFor, s.threads[t].c.destination))
  }

  ghost predicate SocketOk(s: State, sfd: int)
    requires sfd in s.sockets
  {
    var x := s.sockets[sfd];
    && sfd != INVALID_SOCKET
    && (x.owner.Some? || x.slot.Some?)
    && (x.owner.Some? ==> x.owner.value < |s.threads| && Held(s.threads[x.owner.value]) == Some(sfd))
    && (x.slot.Some? ==> x.slot.value < |s.slots| && s.slots[x.slot.value].sfd == sfd)
  }

  ghost predicate Inv(s: State) {
    && (forall k | 0 <= k < |s.slots| :: SlotOk(s, k))
    && (forall t | 0 <= t < |s.threads| :: ThreadOk(s, t))
    && (forall sfd | sfd in s.sockets :: SocketOk(s, sfd))
  }

  lemma UnusableIsIdle(c: Connection, now: int, alive: int -> bool)
    requires Unusable(c, now, alive)
    ensures Idle(c)
  {}

  lemma ClosedSocketWasIdle(s: State, now: nat -> int, alive: int -> bool, sfd: int) returns (k: nat)
    requires Inv(s) && sfd in ClosedSockets(s.slots, now, alive)
    ensures sfd in s.sockets && s.sockets[sfd].slot == Some(k) && s.sockets[sfd].owner == None
    ensures k < |s.slots| && Unusable(s.slots[k], now(k), alive)
  {
    hide Matches, Unusable;
    k :| 0 <= k < |s.slots| && Unusable(s.slots[k], now(k), alive) && s.slots[k].sfd == sfd;
    UnusableIsIdle(s.slots[k], now(k), alive);
    assert SlotOk(s, k);
  }

  lemma PruningKeepsInv(s: State, now: nat -> int, alive: int -> bool)
    requires Inv(s)
    ensures Inv(AfterPruning(s, now, alive))
  {
    hide Matches, Unusable, ClosedSockets;
    var n, closed := AfterPruning(s, now, alive), ClosedSockets(s.slots, now, alive);
    forall sfd | sfd in closed
      ensures sfd in s.sockets && s.sockets[sfd].owner == None && s.sockets[sfd].slot.Some?
      ensures s.sockets[sfd].slot.value < |s.slots| && n.slots[s.sockets[sfd].slot.value] == Closed()
    {
      var k := ClosedSocketWasIdle(s, now, alive, sfd);
    }
    forall k | 0 <= k < |n.slots|
      ensures SlotOk(n, k)
    {
      assert SlotOk(s, k);
    }
    forall t | 0 <= t < |n.threads|
      ensures ThreadOk(n, t)
    {
      assert ThreadOk(s, t);
    }
    forall sfd | sfd in n.sockets
      ensures SocketOk(n, sfd)
    {
      assert SocketOk(s, sfd);
      if s.sockets[sfd].slot.Some? {
        var k := s.sockets[sfd].slot.value;
        if Unusable(s.slots[k], now(k), alive) {
          ClosedSocketsContain(s.slots, now, alive, k);
        }
      }
    }
  }

  lemma ClosedSocketsContain(slots: seq<Connection>, now: nat -> int, alive: int -> bool, k: nat)
    requires k < |slots| && Unusable(slots[k], now(k), alive)
    ensures slots[k].sfd in ClosedSockets(slots, now, alive)
  {}

  /** Only idle sockets are closed by the pool: no thread holds them. */
  lemma PoolClosesOnlyIdle(states: seq<State>, steps: seq<Step>, i: nat, now: nat -> int, alive: int -> bool,
                           sfd: int, t: nat)
    requires IsRun(states, steps) && i < |states| && t < |states[i].threads|
    requires sfd in ClosedSockets(states[i].slots, now, alive)
    ensures sfd in states[i].sockets && Held(states[i].threads[t]) != Some(sfd)
  {
    hide IsRun, Matches, Unusable, ClosedSockets;
    RunKeepsInv(states, steps, i);
    var k := ClosedSocketWasIdle(states[i], now, alive, sfd);
    assert ThreadOk(states[i], t);
  }

  /** A change to one thread, one slot and one socket keeps the invariant when it keeps it for these three. */
  lemma OneChangeKeepsInv(s: State, n: State, t: nat, k: nat, sfd: int)
    requires Inv(s)
    requires |n.threads| == |s.threads| && forall i | 0 <= i < |s.threads| && i != t :: n.threads[i] == s.threads[i]
    requires |n.slots| == |s.slots| && forall i | 0 <= i < |s.slots| && i != k :: n.slots[i] == s.slots[i]
    requires forall x | x != sfd ::
              (x in n.sockets <==> x in s.sockets) && (x in s.sockets ==> n.sockets[x] == s.sockets[x])
    requires t < |s.threads| ==>
              ThreadOk(n, t) && Held(s.threads[t]) in {None, Some(sfd)} && Held(n.threads[t]) in {None, Some(sfd)}
    requires k < |s.slots| ==> SlotOk(n, k) && s.slots[k].sfd in {INVALID_SOCKET, sfd}
    requires sfd in n.sockets ==> SocketOk(n, sfd)
    requires sfd in s.sockets ==> s.sockets[sfd].owner in {None, Some(t)} && s.sockets[sfd].slot in {None, Some(k)}
    ensures Inv(n)
  {
    hide Matches;
    forall i | 0 <= i < |n.slots|
      ensures SlotOk(n, i)
    {
      assert SlotOk(s, i);
    }
    forall i | 0 <= i < |n.threads|
      ensures ThreadOk(n, i)
    {
      assert ThreadOk(s, i);
    }
    forall x | x in n.sockets
      ensures SocketOk(n, x)
    {
      if x != sfd {
        assert SocketOk(s, x);
      }
    }
  }

  // ----- Every step keeps it ---------------------------------------------------------

  lemma TakingKeepsInv(s: State, t: nat)
    requires Inv(s) && t < |s.threads| && s.threads[t].Seeking?
    ensures Inv(AfterTaking(s, t))
  {
    hide Matches;
    var n, want := AfterTaking(s, t), s.threads[t].want;
    var k := FindReusable(s.slots, want);
    if k == |s.slots| {
      OneChangeKeepsInv(s, n, t, k, INVALID_SOCKET);
    } else {
      assert SlotOk(s, k);
      assert SocketOk(s, s.slots[k].sfd);
      MatchesIsEquivalence(s.sockets[s.slots[k].sfd].openedFor, s.slots[k].destination, want);
      OneChangeKeepsInv(s, n, t, k, s.slots[k].sfd);
    }
  }

  lemma ConnectingKeepsInv(s: State, step: Step)
    requires Inv(s) && step.Connect? && Enabled(s, step)
    ensures Inv(Next(s, step))
  {
    hide Matches;
    var n, want := Next(s, step), s.threads[step.t].want;
    MatchesIsEquivalence(want, want, want);
    OneChangeKeepsInv(s, n, step.t, |s.slots|, step.sfd);
  }

  lemma ReusingKeepsInv(s: State, step: Step)
    requires Inv(s) && step.Reuse? && Enabled(s, step)
    ensures Inv(Next(s, step))
  {
    hide Matches;
    var t := step.t;
    assert ThreadOk(s, t);
    var x := s.sockets[s.threads[t].sfd];
    assert SocketOk(s, s.threads[t].sfd);
    if x.slot.Some? {
      assert SlotOk(s, x.slot.value);
    }
    MatchesIsEquivalence(x.openedFor, s.threads[t].saved, step.want);
    OneChangeKeepsInv(s, Next(s, step), t, if x.slot.Some? then x.slot.value else |s.slots|, s.threads[t].sfd);
  }

  /** The only slot that can name a thread's socket is the one in the socket's history. */
  lemma SlotOfHeld(s: State, t: nat) returns (k: nat)
    requires Inv(s) && t < |s.threads| && Held(s.threads[t]).Some?
    ensures k == FindSocket(s.slots, Held(s.threads[t]).value)
    ensures Held(s.threads[t]).value in s.sockets
    ensures s.sockets[Held(s.threads[t]).value].slot == if k < |s.slots| then Some(k) else None
    ensures NotOffered(s.slots, Held(s.threads[t]).value)
  {
    hide Matches;
    var sfd := Held(s.threads[t]).value;
    assert ThreadOk(s, t);
    assert SocketOk(s, sfd);
    k := FindSocket(s.slots, sfd);
    forall j | 0 <= j < |s.slots| && s.slots[j].sfd == sfd
      ensures s.sockets[sfd].slot == Some(j) && s.slots[j].inUse
    {
      assert SlotOk(s, j);
    }
  }

  lemma ReturningKeepsInv(s: State, t: nat, c: Connection)
    requires Inv(s) && Enabled(s, Return(t, c))
    ensures Inv(AfterReturning(s, t, c))
  {
    hide Matches;
    var k := SlotOfHeld(s, t);
    assert ThreadOk(s, t) && SocketOk(s, c.sfd);
    if k < |s.slots| {
      assert SlotOk(s, k);
    }
    OneChangeKeepsInv(s, AfterReturning(s, t, c), t, k, c.sfd);
  }

  lemma StoringKeepsInv(s: State, t: nat)
    requires Inv(s) && Enabled(s, Store(t))
    ensures Inv(AfterStoring(s, t))
  {
    hide Matches;
    var c := s.threads[t].c;
    assert ThreadOk(s, t) && SocketOk(s, c.sfd);
    OneChangeKeepsInv(s, AfterStoring(s, t), t, FindSocket(s.slots, INVALID_SOCKET), c.sfd);
  }

  lemma ForgettingKeepsInv(s: State, t: nat)
    requires Inv(s) && Enabled(s, Forget(t))
    ensures Inv(AfterForgetting(s, t))
  {
    hide Matches;
    var k := SlotOfHeld(s, t);
    assert ThreadOk(s, t) && SocketOk(s, s.threads[t].sfd);
    OneChangeKeepsInv(s, AfterForgetting(s, t), t, k, s.threads[t].sfd);
  }

  lemma StepKeepsInv(s: State, step: Step)
    requires Inv(s) && Enabled(s, step)
    ensures Inv(Next(s, step))
  {
    hide Matches;
    match step
    case Prune(now, alive) => PruningKeepsInv(s, now, alive);
    case Seek(t, _, now, alive) =>
      PruningKeepsInv(s, now, alive);
      OneChangeKeepsInv(AfterPruning(s, now, alive), Next(s, step), t, |s.slots|, INVALID_SOCKET);
    case Take(t) => TakingKeepsInv(s, t);
    case Skip(t, _) => OneChangeKeepsInv(s, Next(s, step), t, |s.slots|, INVALID_SOCKET);
    case Connect(_, _) => ConnectingKeepsInv(s, step);
    case ConnectFails(t) => OneChangeKeepsInv(s, Next(s, step), t, |s.slots|, INVALID_SOCKET);
    case Reuse(_, _) => ReusingKeepsInv(s, step);
    case Return(t, c) => ReturningKeepsInv(s, t, c);
    case Store(t) => StoringKeepsInv(s, t);
    case Forget(t) => ForgettingKeepsInv(s, t);
    case Close(t) =>
      assert ThreadOk(s, t);
      OneChangeKeepsInv(s, Next(s, step), t, |s.slots|, s.threads[t].sfd);
  }

  // ----- Every run --------------------------------------------------------------------

  ghost predicate Initial(s: State) {
    && (forall k | 0 <= k < |s.slots| :: s.slots[k] == Closed())
    && |s.slots| == MAX_REUSABLE_CONNECTIONS
    && (forall t | 0 <= t < |s.threads| :: s.threads[t] == Quiet)
    && s.sockets == map[]
  }

  /** Each state is the one before it after an enabled step. */
  ghost predicate Leads(states: seq<State>, steps: seq<Step>) {
    && |states| == |steps| + 1
    && forall i | 0 <= i < |steps| :: Enabled(states[i], steps[i]) && Follows(states, steps[i], i)
  }

  ghost predicate IsRun(states: seq<State>, steps: seq<Step>) {
    Leads(states, steps) && Initial(states[0])
  }

  ghost predicate Follows(states: seq<State>, step: Step, i: nat)
    requires i + 1 < |states| && Enabled(states[i], step)
  {
    states[i + 1] == Next(states[i], step)
  }

  lemma {:induction false} RunKeepsInv(states: seq<State>, steps: seq<Step>, i: nat)
    requires IsRun(states, steps) && i < |states|
    ensures Inv(states[i])
  {
    hide Inv, Next;
    if i == 0 {
      InitialInv(states[0]);
    } else {
      RunKeepsInv(states, steps, i - 1);
      assert Follows(states, steps[i - 1], i - 1);
      StepKeepsInv(states[i - 1], steps[i - 1]);
    }
  }

  lemma InitialInv(s: State)
    requires Initial(s)
    ensures Inv(s)
  {}

  /** At every moment each open socket is held by exactly one thread and offered by no slot,
      or held by no thread and offered by exactly one slot. */
  lemma OneHome(states: seq<State>, steps: seq<Step>, i: nat, sfd: int)
    requires IsRun(states, steps) && i < |states| && sfd in states[i].sockets
    ensures var s := states[i];
            || (&& (exists t :: 0 <= t < |s.threads| && Held(s.threads[t]) == Some(sfd)
                               && forall u | 0 <= u < |s.threads| && Held(s.threads[u]) == Some(sfd) :: u == t)
                && NotOffered(s.slots, sfd))
            || (&& (exists k :: 0 <= k < |s.slots| && Idle(s.slots[k]) && s.slots[k].sfd == sfd
                               && forall j | 0 <= j < |s.slots| && s.slots[j].sfd == sfd :: j == k)
                && forall t | 0 <= t < |s.threads| :: Held(s.threads[t]) != Some(sfd))
  {
    hide IsRun, Matches, Next;
    RunKeepsInv(states, steps, i);
    var s := states[i];
    assert SocketOk(s, sfd);
    forall u | 0 <= u < |s.threads| && Held(s.threads[u]) == Some(sfd)
      ensures s.sockets[sfd].owner == Some(u)
    {
      assert ThreadOk(s, u);
    }
    forall j | 0 <= j < |s.slots| && s.slots[j].sfd == sfd
      ensures s.sockets[sfd].slot == Some(j) && (s.slots[j].inUse <==> s.sockets[sfd].owner.Some?)
    {
      assert SlotOk(s, j);
    }
    match s.sockets[sfd].owner
    case Some(t) => assert Held(s.threads[t]) == Some(sfd);
    case None => assert Idle(s.slots[s.sockets[sfd].slot.value]);
  }

  /** Conversely, only open sockets are held or offered, and a slot without one is fully cleared. */
  lemma NothingElse(states: seq<State>, steps: seq<Step>, i: nat)
    requires IsRun(states, steps) && i < |states|
    ensures forall t | 0 <= t < |states[i].threads| && Held(states[i].threads[t]).Some? ::
              Held(states[i].threads[t]).value in states[i].sockets
    ensures forall k | 0 <= k < |states[i].slots| ::
              states[i].slots[k].sfd in states[i].sockets || states[i].slots[k] == Closed()
  {
    hide IsRun, Matches, Next;
    RunKeepsInv(states, steps, i);
    forall t | 0 <= t < |states[i].threads| && Held(states[i].threads[t]).Some?
      ensures Held(states[i].threads[t]).value in states[i].sockets
    {
      assert ThreadOk(states[i], t);
    }
    FreeSlotsAreCleared(states[i]);
  }

  lemma FreeSlotsAreCleared(s: State)
    requires Inv(s)
    ensures forall k | 0 <= k < |s.slots| :: s.slots[k].sfd in s.sockets || s.slots[k] == Closed()
    ensures forall k | 0 <= k < |s.slots| && s.slots[k].sfd == INVALID_SOCKET :: s.slots[k] == Closed()
  {
    hide Matches;
    forall k | 0 <= k < |s.slots|
      ensures s.slots[k].sfd in s.sockets || s.slots[k] == Closed()
      ensures s.slots[k].sfd == INVALID_SOCKET ==> s.slots[k] == Closed()
    {
      assert SlotOk(s, k);
    }
  }

  /** The assertions of the critical sections hold whenever a thread enters one. */
  lemma AssertionsHold(states: seq<State>, steps: seq<Step>, i: nat, t: nat)
    requires IsRun(states, steps) && i < |states| && t < |states[i].threads|
    requires Held(states[i].threads[t]).Some?
    ensures var sfd := Held(states[i].threads[t]).value;
            && sfd != INVALID_SOCKET && NotOffered(states[i].slots, sfd)
            && (states[i].threads[t].Returning? || states[i].threads[t].Closing? ==>
                 FindSocket(states[i].slots, sfd) == |states[i].slots|)
    ensures forall k | 0 <= k < |states[i].slots| && states[i].slots[k].sfd == INVALID_SOCKET ::
              states[i].slots[k] == Closed()
  {
    hide IsRun, Matches, Next;
    RunKeepsInv(states, steps, i);
    var k := SlotOfHeld(states[i], t);
    assert ThreadOk(states[i], t);
    assert SocketOk(states[i], Held(states[i].threads[t]).value);
    FreeSlotsAreCleared(states[i]);
  }

  /** A thread serves a request only through a socket that was opened for a matching destination. */
  lemma SocketsServeTheirDestination(states: seq<State>, steps: seq<Step>, i: nat, t: nat)
    requires IsRun(states, steps) && i < |states| && t < |states[i].threads| && states[i].threads[t].Using?
    ensures states[i].threads[t].sfd in states[i].sockets
    ensures var a, b := states[i].sockets[states[i].threads[t].sfd].openedFor, states[i].threads[t].serving;
            && SameDetail(a.host, b.host) && a.port == b.port && a.forwarder == b.forwarder
            && SameDetail(a.gatewayHost, b.gatewayHost) && a.gatewayPort == b.gatewayPort
            && SameDetail(a.authUsername, b.authUsername) && SameDetail(a.authPassword, b.authPassword)
            && SameDetail(a.forwardHost, b.forwardHost) && a.forwardPort == b.forwardPort
  {
    hide IsRun, Matches, Next, SameDetail;
    RunKeepsInv(states, steps, i);
    assert ThreadOk(states[i], t);
    MatchesMeans(states[i].sockets[states[i].threads[t].sfd].openedFor, states[i].threads[t].serving);
  }

  /** The history is honest: what a socket was opened for never changes while it is open, and
      a socket enters the history only when a thread connects it for what the thread wants. */
  lemma HistoryIsHonest(s: State, step: Step, sfd: int)
    requires Enabled(s, step) && sfd in Next(s, step).sockets
    ensures if sfd in s.sockets then Next(s, step).sockets[sfd].openedFor == s.sockets[sfd].openedFor
            else step.Connect? && step.sfd == sfd && Next(s, step).sockets[sfd].openedFor == s.threads[step.t].want
  {
    hide Matches;
  }

  // ----- A socket that is closed but not forgotten ----------------------------------------

  /** jcc.c:4595-4611 with an inspected HTTPS connection: the thread closes its socket, and the table keeps it. */
  ghost function ClosedUnforgotten(s: State, t: nat): State
    requires t < |s.threads| && s.threads[t].Using?
  {
    s.(threads := s.threads[t := Quiet], sockets := s.sockets - {s.threads[t].sfd})
  }

  /** One thread and a table of which only the first slot is in question. */
  ghost function Alone(c: Connection, t: Thread, sockets: map<int, Socket>): State {
    State([c] + seq(MAX_REUSABLE_CONNECTIONS - 1, _ => Closed()), [t], sockets)
  }

  ghost function Fresh(sfd: int, d: Destination): Connection {
    Connection(sfd, false, 0, 0, 0, 1, 0, d)
  }

  lemma OneStep(s: State, step: Step, n: State)
    requires Enabled(s, step) && Next(s, step) == n
    ensures Leads([s, n], [step])
  {}

  lemma {:induction false} LeadsOn(states: seq<State>, steps: seq<Step>, more: seq<State>, others: seq<Step>)
    requires Leads(states, steps) && Leads(more, others) && more[0] == states[|states| - 1]
    ensures Leads(states + more[1..], steps + others)
    ensures (states + more[1..])[0] == states[0]
    ensures (states + more[1..])[|states| + |more| - 2] == more[|more| - 1]
  {
    hide Enabled, Next;
    var all, done := states + more[1..], steps + others;
    forall i | 0 <= i < |done|
      ensures Enabled(all[i], done[i]) && Follows(all, done[i], i)
    {
      if i < |steps| {
        assert Follows(states, steps[i], i);
      } else {
        assert Follows(more, others[i - |steps|], i - |steps|);
        assert all[i] == more[i - |steps|] && all[i + 1] == more[i - |steps| + 1];
      }
    }
  }

  /** Connecting, past the table. */
  lemma ConnectAlone(c: Connection, sockets: map<int, Socket>, sfd: int, d: Destination)
    returns (states: seq<State>, steps: seq<Step>)
    requires sfd != INVALID_SOCKET && sfd !in sockets
    ensures Leads(states, steps) && states[0] == Alone(c, Quiet, sockets)
    ensures states[|states| - 1] == Alone(c, Using(sfd, d, d), sockets[sfd := Socket(d, Some(0), None)])
  {
    var first, second := Alone(c, Quiet, sockets), Alone(c, Connecting(d), sockets);
    var third := Alone(c, Using(sfd, d, d), sockets[sfd := Socket(d, Some(0), None)]);
    assert second.threads == first.threads[0 := Connecting(d)];
    assert third.threads == second.threads[0 := Using(sfd, d, d)];
    OneStep(first, Skip(0, d), second);
    OneStep(second, Connect(0, sfd), third);
    LeadsOn([first, second], [Skip(0, d)], [second, third], [Connect(0, sfd)]);
    states, steps := [first, second] + [second, third][1..], [Skip(0, d)] + [Connect(0, sfd)];
  }

  lemma EmptyTable(sfd: int)
    requires sfd != INVALID_SOCKET
    ensures var slots := Alone(Closed(), Quiet, map[]).slots;
            FindSocket(slots, sfd) == |slots| && FindSocket(slots, INVALID_SOCKET) == 0
  {
    var slots := Alone(Closed(), Quiet, map[]).slots;
    FirstSocket(slots, sfd, |slots|);
    FirstSocket(slots, INVALID_SOCKET, 0);
  }

  /** Remembering a connection in the empty table. */
  lemma RememberAlone(sfd: int, d: Destination) returns (states: seq<State>, steps: seq<Step>)
    requires sfd != INVALID_SOCKET
    ensures Leads(states, steps)
    ensures states[0] == Alone(Closed(), Using(sfd, d, d), map[sfd := Socket(d, Some(0), None)])
    ensures states[|states| - 1] == Alone(Fresh(sfd, d), Quiet, map[sfd := Socket(d, None, Some(0))])
  {
    var c := Fresh(sfd, d);
    var first := Alone(Closed(), Using(sfd, d, d), map[sfd := Socket(d, Some(0), None)]);
    var second := Alone(Closed(), Returning(c), map[sfd := Socket(d, Some(0), None)]);
    var third := Alone(c, Quiet, map[sfd := Socket(d, None, Some(0))]);
    EmptyTable(sfd);
    assert second.threads == first.threads[0 := Returning(c)] && third.threads == second.threads[0 := Quiet];
    assert third.slots == Stored(second.slots, c);
    OneStep(first, Return(0, c), second);
    assert AfterStoring(second, 0).sockets == third.sockets;
    OneStep(second, Store(0), third);
    LeadsOn([first, second], [Return(0, c)], [second, third], [Store(0)]);
    states, steps := [first, second] + [second, third][1..], [Return(0, c)] + [Store(0)];
  }

  /** Taking the connection from the first slot again, for what the slot says it leads to. */
  lemma ReuseAlone(sfd: int, d: Destination, openedFor: Destination, slot: Option<nat>)
    returns (states: seq<State>, steps: seq<Step>)
    requires sfd != INVALID_SOCKET
    ensures Leads(states, steps)
    ensures states[0] == Alone(Fresh(sfd, d), Quiet, map[sfd := Socket(openedFor, None, slot)])
    ensures states[|states| - 1]
         == Alone(Fresh(sfd, d).(inUse := true), Using(sfd, d, d), map[sfd := Socket(openedFor, Some(0), slot)])
  {
    hide Matches;
    var first := Alone(Fresh(sfd, d), Quiet, map[sfd := Socket(openedFor, None, slot)]);
    var second := first.(threads := [Seeking(d)]);
    var third := Alone(Fresh(sfd, d).(inUse := true), Using(sfd, d, d), map[sfd := Socket(openedFor, Some(0), slot)]);
    var seek := Seek(0, d, Midnight, Alive);
    NothingToPrune(first);
    OneStep(first, seek, second);
    MatchesIsEquivalence(d, d, d);
    FirstReusable(second.slots, d, 0);
    assert third.slots == Taken(second.slots, d) && third.threads == second.threads[0 := Using(sfd, d, d)];
    assert AfterTaking(second, 0).sockets == third.sockets;
    OneStep(second, Take(0), third);
    LeadsOn([first, second], [seek], [second, third], [Take(0)]);
    states, steps := [first, second] + [second, third][1..], [seek] + [Take(0)];
  }

  function Midnight(k: nat): int {
    0
  }

  predicate Alive(sfd: int) {
    true
  }

  /** A new connection is not closed while it is alive. */
  lemma NothingToPrune(s: State)
    requires forall k | 0 <= k < |s.slots| ::
               s.slots[k] == Closed() || s.slots[k] == Fresh(s.slots[k].sfd, s.slots[k].destination)
    ensures AfterPruning(s, Midnight, Alive) == s
  {
    forall k | 0 <= k < |s.slots|
      ensures !Unusable(s.slots[k], Midnight(k), Alive)
    {
      assert Halved(0) == 0;
    }
    assert Pruned(s.slots, Midnight, Alive) == s.slots;
    assert ClosedSockets(s.slots, Midnight, Alive) == {};
  }

  /** Giving back the new connection that has the number of the closed one: the slot keeps its old destination. */
  lemma ReturnAlone(sfd: int, d: Destination, e: Destination) returns (states: seq<State>, steps: seq<Step>)
    requires sfd != INVALID_SOCKET
    ensures Leads(states, steps)
    ensures states[0] == Alone(Fresh(sfd, d).(inUse := true), Using(sfd, e, e), map[sfd := Socket(e, Some(0), None)])
    ensures states[|states| - 1] == Alone(Fresh(sfd, d), Quiet, map[sfd := Socket(e, None, None)])
  {
    var first := Alone(Fresh(sfd, d).(inUse := true), Using(sfd, e, e), map[sfd := Socket(e, Some(0), None)]);
    var second := Alone(Fresh(sfd, d), Quiet, map[sfd := Socket(e, None, None)]);
    FirstSocket(first.slots, sfd, 0);
    assert second.slots == MarkedUnused(first.slots, Fresh(sfd, e)) && second.threads == first.threads[0 := Quiet];
    assert AfterReturning(first, 0, Fresh(sfd, e)).sockets == second.sockets;
    OneStep(first, Return(0, Fresh(sfd, e)), second);
    states, steps := [first, second], [Return(0, Fresh(sfd, e))];
  }

  /** A run after which a thread uses a connection that the table knows. */
  lemma PooledRun(sfd: int, d: Destination) returns (states: seq<State>, steps: seq<Step>)
    requires sfd != INVALID_SOCKET
    ensures IsRun(states, steps)
    ensures states[|states| - 1]
         == Alone(Fresh(sfd, d).(inUse := true), Using(sfd, d, d), map[sfd := Socket(d, Some(0), Some(0))])
  {
    hide Leads, Initial, Matches;
    var s1, t1 := ConnectAlone(Closed(), map[], sfd, d);
    AloneAtFirst();
    var s2, t2 := RememberAlone(sfd, d);
    assert map[][sfd := Socket(d, Some(0), None)] == map[sfd := Socket(d, Some(0), None)];
    Lengths(s1, t1);
    Lengths(s2, t2);
    LeadsOn(s1, t1, s2, t2);
    states, steps := s1 + s2[1..], t1 + t2;
    var s3, t3 := ReuseAlone(sfd, d, d, Some(0));
    Lengths(states, steps);
    Lengths(s3, t3);
    LeadsOn(states, steps, s3, t3);
    states, steps := states + s3[1..], steps + t3;
    Lengths(states, steps);
  }

  lemma Lengths(states: seq<State>, steps: seq<Step>)
    requires Leads(states, steps)
    ensures |states| == |steps| + 1
  {}

  lemma AloneAtFirst()
    ensures Initial(Alone(Closed(), Quiet, map[]))
  {}

  /** Runs that lead from one state to another. */
  ghost predicate Reaches(first: State, states: seq<State>, steps: seq<Step>, last: State) {
    Leads(states, steps) && states[0] == first && states[|states| - 1] == last
  }

  /** If a thread closes a pooled socket without forgetting it, the table names a socket that is not
      open, and once the number is used again a thread is given a socket for d that was opened for e. */
  lemma UnforgottenSocketMisroutes(sfd: int, d: Destination, e: Destination)
    returns (states: seq<State>, steps: seq<Step>, pooled: State,
             stale: State, later: seq<State>, laterSteps: seq<Step>, last: State)
    requires sfd != INVALID_SOCKET
    ensures IsRun(states, steps) && states[|states| - 1] == pooled && pooled.threads == [Using(sfd, d, d)]
    ensures stale == ClosedUnforgotten(pooled, 0) && sfd !in stale.sockets
    ensures stale.slots != [] && stale.slots[0].sfd == sfd
    ensures Reaches(stale, later, laterSteps, last) && last.threads == [Using(sfd, d, d)]
    ensures sfd in last.sockets && last.sockets[sfd].openedFor == e
  {
    hide Leads, Initial, Matches;
    var c := Fresh(sfd, d).(inUse := true);
    pooled := Alone(c, Using(sfd, d, d), map[sfd := Socket(d, Some(0), Some(0))]);
    states, steps := PooledRun(sfd, d);
    Lengths(states, steps);
    stale := Alone(c, Quiet, map[]);
    assert ClosedUnforgotten(pooled, 0) == stale;
    last := Alone(c, Using(sfd, d, d), map[sfd := Socket(e, Some(0), None)]);
    var s1, t1 := ConnectAlone(c, map[], sfd, e);
    var s2, t2 := ReturnAlone(sfd, d, e);
    assert map[][sfd := Socket(e, Some(0), None)] == map[sfd := Socket(e, Some(0), None)];
    Lengths(s1, t1);
    Lengths(s2, t2);
    LeadsOn(s1, t1, s2, t2);
    later, laterSteps := s1 + s2[1..], t1 + t2;
    var s3, t3 := ReuseAlone(sfd, d, e, None);
    Lengths(later, laterSteps);
    Lengths(s3, t3);
    LeadsOn(later, laterSteps, s3, t3);
    later, laterSteps := later + s3[1..], laterSteps + t3;
    Lengths(later, laterSteps);
  }
}
