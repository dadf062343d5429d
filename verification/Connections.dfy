/** The table of reusable server connections of gateway.c. Each method is one
    critical section under `connection_reuse_mutex`; the functions say what
    the section makes of the slots. */
module Connections {
  import opened Text

  const INVALID_SOCKET: int := -1
  const MAX_REUSABLE_CONNECTIONS: nat := 100

  datatype ForwarderType = SocksNone | Socks4 | Socks4a | Socks5 | Socks5t | ForwardWebserver

  /** Where a connection leads: the fields of `struct reusable_connection` that
      `connection_destination_matches` looks at, or a request and its forwarder. */
  datatype Destination = Destination(
    host: Option<string>, port: int, forwarder: ForwarderType,
    gatewayHost: Option<string>, gatewayPort: int,
    authUsername: Option<string>, authPassword: Option<string>,
    forwardHost: Option<string>, forwardPort: int)

  /** `struct reusable_connection` */
  datatype Connection = Connection(
    sfd: int, inUse: bool, timestamp: int, requestSent: int, responseReceived: int,
    keepAliveTimeout: nat, requestsSentTotal: nat, destination: Destination)

  function Nowhere(): Destination {
    Destination(None, 0, SocksNone, None, 0, None, None, None, 0)
  }

  /** What `mark_connection_closed` leaves behind. */
  function Closed(): Connection {
    Connection(INVALID_SOCKET, false, 0, 0, 0, 0, 0, Nowhere())
  }

  // ----- Destinations -------------------------------------------------------

  /** `connection_detail_matches` */
  predicate DetailMatches(a: Option<string>, b: Option<string>) {
    match (a, b)
    case (None, None) => true
    case (Some(s), Some(t)) => EqualsIgnoreCase(s, t)
    case _ => false
  }

  /** `connection_destination_matches` */
  predicate Matches(a: Destination, b: Destination) {
    && a.forwarder == b.forwarder && a.gatewayPort == b.gatewayPort
    && a.forwardPort == b.forwardPort && a.port == b.port
    && DetailMatches(a.gatewayHost, b.gatewayHost)
    && DetailMatches(a.authUsername, b.authUsername)
    && DetailMatches(a.authPassword, b.authPassword)
    && DetailMatches(a.forwardHost, b.forwardHost)
    && DetailMatches(a.host, b.host)
  }

  lemma DetailsAreClasses(a: Option<string>, b: Option<string>, c: Option<string>)
    ensures DetailMatches(a, a)
    ensures DetailMatches(a, b) ==> DetailMatches(b, a)
    ensures DetailMatches(a, b) && DetailMatches(b, c) ==> DetailMatches(a, c)
  {}

  /** Matching is an equivalence, though it compares strings without regard to case. */
  lemma MatchesIsEquivalence(a: Destination, b: Destination, c: Destination)
    ensures Matches(a, a)
    ensures Matches(a, b) ==> Matches(b, a)
    ensures Matches(a, b) && Matches(b, c) ==> Matches(a, c)
  {
    hide DetailMatches;
    DetailsAreClasses(a.gatewayHost, b.gatewayHost, c.gatewayHost);
    DetailsAreClasses(a.authUsername, b.authUsername, c.authUsername);
    DetailsAreClasses(a.authPassword, b.authPassword, c.authPassword);
    DetailsAreClasses(a.forwardHost, b.forwardHost, c.forwardHost);
    DetailsAreClasses(a.host, b.host, c.host);
  }

  /** Unset in both, or texts of equal length that agree at every index up to case. */
  ghost predicate SameDetail(a: Option<string>, b: Option<string>) {
    || (a.None? && b.None?)
    || (a.Some? && b.Some? && |a.value| == |b.value|
        && forall i | 0 <= i < |a.value| :: Lower(a.value[i]) == Lower(b.value[i]))
  }

  /** What has to agree for a connection to be reused: all nine details. */
  ghost predicate SameDestination(a: Destination, b: Destination) {
    && SameDetail(a.host, b.host) && a.port == b.port && a.forwarder == b.forwarder
    && SameDetail(a.gatewayHost, b.gatewayHost) && a.gatewayPort == b.gatewayPort
    && SameDetail(a.authUsername, b.authUsername) && SameDetail(a.authPassword, b.authPassword)
    && SameDetail(a.forwardHost, b.forwardHost) && a.forwardPort == b.forwardPort
  }

  lemma DetailMeans(a: Option<string>, b: Option<string>)
    ensures DetailMatches(a, b) <==> SameDetail(a, b)
  {}

  /** Matching compares all nine details, no more and no less. */
  lemma MatchesMeans(a: Destination, b: Destination)
    ensures Matches(a, b) <==> SameDestination(a, b)
  {
    hide DetailMatches, SameDetail;
    DetailMeans(a.host, b.host);
    DetailMeans(a.gatewayHost, b.gatewayHost);
    DetailMeans(a.authUsername, b.authUsername);
    DetailMeans(a.authPassword, b.authPassword);
    DetailMeans(a.forwardHost, b.forwardHost);
  }

  // ----- The slots ------------------------------------------------------------

  /** The first slot with the socket; the number of slots if there is none. */
  function FindSocket(slots: seq<Connection>, sfd: int): (k: nat)
    ensures k <= |slots| && (k < |slots| ==> slots[k].sfd == sfd)
    ensures forall j | 0 <= j < k :: slots[j].sfd != sfd
  {
    if slots == [] || slots[0].sfd == sfd then 0 else 1 + FindSocket(slots[1..], sfd)
  }

  predicate Idle(c: Connection) {
    !c.inUse && c.sfd != INVALID_SOCKET
  }

  /** The first idle slot that leads to the destination; the number of slots if there is none. */
  function FindReusable(slots: seq<Connection>, want: Destination): (k: nat)
    ensures k <= |slots| && (k < |slots| ==> Idle(slots[k]) && Matches(slots[k].destination, want))
    ensures forall j | 0 <= j < k :: !(Idle(slots[j]) && Matches(slots[j].destination, want))
  {
    if slots == [] || (Idle(slots[0]) && Matches(slots[0].destination, want)) then 0
    else 1 + FindReusable(slots[1..], want)
  }

  /** An open socket that no thread uses and that was opened for the same destination. */
  ghost predicate Qualifies(c: Connection, want: Destination) {
    !c.inUse && c.sfd != INVALID_SOCKET && SameDestination(c.destination, want)
  }

  lemma QualifiesMeans(c: Connection, want: Destination)
    ensures Qualifies(c, want) <==> Idle(c) && Matches(c.destination, want)
  {
    hide Matches, SameDestination;
    MatchesMeans(c.destination, want);
  }

  lemma AllQualify(slots: seq<Connection>, want: Destination)
    ensures forall k | 0 <= k < |slots| ::
              Qualifies(slots[k], want) <==> Idle(slots[k]) && Matches(slots[k].destination, want)
  {
    hide Matches, Qualifies, Idle;
    forall k | 0 <= k < |slots|
      ensures Qualifies(slots[k], want) <==> Idle(slots[k]) && Matches(slots[k].destination, want)
    {
      QualifiesMeans(slots[k], want);
    }
  }

  lemma FirstSocket(slots: seq<Connection>, sfd: int, k: nat)
    requires k < |slots| ==> slots[k].sfd == sfd
    requires k <= |slots| && forall j | 0 <= j < k :: slots[j].sfd != sfd
    ensures FindSocket(slots, sfd) == k
  {}

  lemma FirstReusable(slots: seq<Connection>, want: Destination, k: nat)
    requires k < |slots| ==> Idle(slots[k]) && Matches(slots[k].destination, want)
    requires k <= |slots| && forall j | 0 <= j < k :: !(Idle(slots[j]) && Matches(slots[j].destination, want))
    ensures FindReusable(slots, want) == k
  {
    hide Matches;
  }

  /** No slot offers the socket for reuse. */
  ghost predicate NotOffered(slots: seq<Connection>, sfd: int) {
    forall k | 0 <= k < |slots| && slots[k].sfd == sfd :: slots[k].inUse
  }

  /** `mark_connection_unused`: all but the time stays as it was first remembered. */
  function MarkedUnused(slots: seq<Connection>, c: Connection): seq<Connection> {
    var k := FindSocket(slots, c.sfd);
    if k < |slots| then slots[k := slots[k].(inUse := false, timestamp := c.timestamp)] else slots
  }

  /** The second critical section of `remember_connection`. */
  function Stored(slots: seq<Connection>, c: Connection): seq<Connection> {
    var k := FindSocket(slots, INVALID_SOCKET);
    if k < |slots| then slots[k := c.(inUse := false)] else slots
  }

  /** `forget_connection` */
  function Forgotten(slots: seq<Connection>, sfd: int): seq<Connection> {
    var k := FindSocket(slots, sfd);
    if k < |slots| then slots[k := Closed()] else slots
  }

  /** The second critical section of `get_reusable_connection`. */
  function Taken(slots: seq<Connection>, want: Destination): seq<Connection> {
    var k := FindReusable(slots, want);
    if k < |slots| then slots[k := slots[k].(inUse := true)] else slots
  }

  /** C's `/`, which rounds toward zero. */
  function Halved(n: int): int {
    if n >= 0 then n / 2 else -(-n / 2)
  }

  /** An idle connection that `close_unusable_connections` closes. */
  predicate Unusable(c: Connection, now: int, alive: int -> bool) {
    && Idle(c)
    && (c.keepAliveTimeout < now - c.timestamp + Halved(c.responseReceived - c.requestSent) || !alive(c.sfd))
  }

  /** An idle connection is closed exactly if its socket is dead or it is overdue: the time since it became
      idle and half its latency, rounded toward zero, exceed the time the server keeps it open. */
  lemma UnusableMeans(c: Connection, now: int, alive: int -> bool)
    ensures var left, latency := c.keepAliveTimeout - (now - c.timestamp), c.responseReceived - c.requestSent;
            var overdue := latency >= if left >= 0 then 2 * left + 2 else 2 * left + 1;
            Unusable(c, now, alive) <==> !c.inUse && c.sfd != INVALID_SOCKET && (overdue || !alive(c.sfd))
  {}

  /** `close_unusable_connections`; the clock is read once for each slot. */
  function Pruned(slots: seq<Connection>, now: nat -> int, alive: int -> bool): seq<Connection> {
    seq(|slots|, k requires 0 <= k < |slots| => if Unusable(slots[k], now(k), alive) then Closed() else slots[k])
  }

  /** The sockets that are closed on the way. */
  ghost function ClosedSockets(slots: seq<Connection>, now: nat -> int, alive: int -> bool): set<int> {
    set k | 0 <= k < |slots| && Unusable(slots[k], now(k), alive) :: slots[k].sfd
  }

  function IdleCount(slots: seq<Connection>): nat {
    if slots == [] then 0
    else IdleCount(slots[..|slots| - 1]) + if Idle(slots[|slots| - 1]) then 1 else 0
  }

  /** The connections that are counted are those that are open and not in use. */
  lemma {:induction false} IdleCountMeans(slots: seq<Connection>)
    ensures IdleCount(slots) == |set k | 0 <= k < |slots| && !slots[k].inUse && slots[k].sfd != INVALID_SOCKET|
  {
    var idle := set k | 0 <= k < |slots| && !slots[k].inUse && slots[k].sfd != INVALID_SOCKET;
    if slots != [] {
      var n := |slots| - 1;
      var front := slots[..n];
      IdleCountMeans(front);
      var before := set k | 0 <= k < |front| && !front[k].inUse && front[k].sfd != INVALID_SOCKET;
      assert idle == before + if Idle(slots[n]) then {n} else {};
    } else {
      assert idle == {};
    }
  }

  lemma IdleCountStep(slots: seq<Connection>, n: nat)
    requires n < |slots|
    ensures IdleCount(slots[..n + 1]) == IdleCount(slots[..n]) + if Idle(slots[n]) then 1 else 0
  {
    assert slots[..n + 1][..n] == slots[..n];
  }

  class Pool {
    const slots: array<Connection>

    ghost predicate Valid() {
      slots.Length == MAX_REUSABLE_CONNECTIONS
    }

    /** `initialize_reusable_connections` */
    constructor ()
      ensures Valid() && fresh(slots)
      ensures forall k | 0 <= k < slots.Length :: slots[k] == Closed()
    {
      slots := new Connection[MAX_REUSABLE_CONNECTIONS](_ => Closed());
    }

    /** `mark_connection_unused`, which is also the first critical section of `remember_connection`. */
    method MarkConnectionUnused(c: Connection) returns (found: bool)
      requires Valid() && c.sfd != INVALID_SOCKET && NotOffered(slots[..], c.sfd)
      modifies slots
      ensures found <==> exists k | 0 <= k < slots.Length :: old(slots[k].sfd) == c.sfd
      ensures slots[..] == MarkedUnused(old(slots[..]), c)
      ensures !found ==> slots[..] == old(slots[..])
      ensures forall k | 0 <= k < slots.Length && old(slots[k].sfd) == c.sfd
                         && forall j | 0 <= j < k :: old(slots[j].sfd) != c.sfd ::
                slots[..] == old(slots[..])[k := old(slots[k]).(inUse := false, timestamp := c.timestamp)]
    {
      var slot := 0;
      while slot < slots.Length && slots[slot].sfd != c.sfd
        invariant slot <= slots.Length
        invariant forall j | 0 <= j < slot :: slots[j].sfd != c.sfd
      {
        slot := slot + 1;
      }
      FirstSocket(slots[..], c.sfd, slot);
      found := slot < slots.Length;
      if found {
        assert slots[..][slot].inUse;
        slots[slot] := slots[slot].(inUse := false, timestamp := c.timestamp);
      }
    }

    /** The second critical section of `remember_connection`. A socket that finds no slot is closed by the caller. */
    method StoreConnection(c: Connection) returns (stored: bool)
      requires Valid() && c.sfd != INVALID_SOCKET
      requires forall k | 0 <= k < slots.Length && slots[k].sfd == INVALID_SOCKET :: slots[k] == Closed()
      modifies slots
      ensures stored <==> exists k | 0 <= k < slots.Length :: old(slots[k].sfd) == INVALID_SOCKET
      ensures slots[..] == Stored(old(slots[..]), c)
      ensures !stored ==> slots[..] == old(slots[..])
      ensures forall k | 0 <= k < slots.Length && old(slots[k].sfd) == INVALID_SOCKET
                         && forall j | 0 <= j < k :: old(slots[j].sfd) != INVALID_SOCKET ::
                slots[..] == old(slots[..])[k := c.(inUse := false)]
    {
      var slot := 0;
      while slot < slots.Length && slots[slot].sfd != INVALID_SOCKET
        invariant slot <= slots.Length
        invariant forall j | 0 <= j < slot :: slots[j].sfd != INVALID_SOCKET
      {
        slot := slot + 1;
      }
      FirstSocket(slots[..], INVALID_SOCKET, slot);
      stored := slot < slots.Length;
      if stored {
        assert !slots[slot].inUse;
        ghost var free := slots[slot].destination;
        assert free.gatewayHost == None && free.gatewayPort == 0;
        assert free.authUsername == None && free.authPassword == None;
        assert free.forwarder == SocksNone && free.forwardHost == None && free.forwardPort == 0;
        slots[slot] := c.(inUse := false);
      }
    }

    /** `forget_connection` */
    method ForgetConnection(sfd: int)
      requires Valid() && sfd != INVALID_SOCKET && NotOffered(slots[..], sfd)
      modifies slots
      ensures slots[..] == Forgotten(old(slots[..]), sfd)
      ensures (forall k | 0 <= k < slots.Length :: old(slots[k].sfd) != sfd) ==> slots[..] == old(slots[..])
      ensures forall k | 0 <= k < slots.Length && old(slots[k].sfd) == sfd
                         && forall j | 0 <= j < k :: old(slots[j].sfd) != sfd ::
                slots[..] == old(slots[..])[k := Closed()]
    {
      var slot := 0;
      while slot < slots.Length && slots[slot].sfd != sfd
        invariant slot <= slots.Length
        invariant forall j | 0 <= j < slot :: slots[j].sfd != sfd
      {
        slot := slot + 1;
      }
      FirstSocket(slots[..], sfd, slot);
      if slot < slots.Length {
        assert slots[..][slot].inUse;
        slots[slot] := Closed();
      }
    }

    /** `close_unusable_connections` */
    method CloseUnusableConnections(now: nat -> int, alive: int -> bool)
      returns (remaining: nat, ghost closed: set<int>)
      requires Valid()
      modifies slots
      ensures slots[..] == Pruned(old(slots[..]), now, alive)
      ensures closed == ClosedSockets(old(slots[..]), now, alive)
      ensures remaining == IdleCount(slots[..])
    {
      hide Matches;
      ghost var before := slots[..];
      remaining, closed := 0, {};
      var slot := 0;
      while slot < slots.Length
        invariant slot <= slots.Length
        invariant forall j | 0 <= j < slot ::
                    slots[j] == if Unusable(before[j], now(j), alive) then Closed() else before[j]
        invariant forall j | slot <= j < slots.Length :: slots[j] == before[j]
        invariant closed == set k | 0 <= k < slot && Unusable(before[k], now(k), alive) :: before[k].sfd
        invariant remaining == IdleCount(slots[..slot])
      {
        ghost var visited := slots[..slot];
        var unusable := Unusable(slots[slot], now(slot), alive);
        if unusable {
          closed := closed + {slots[slot].sfd};
          slots[slot] := Closed();
        } else if Idle(slots[slot]) {
          remaining := remaining + 1;
        }
        assert slots[..slot] == visited;
        IdleCountStep(slots[..], slot);
        assert slots[..][..slot + 1] == slots[..slot + 1] && slots[..][..slot] == visited;
        slot := slot + 1;
      }
      assert slots[..slot] == slots[..];
    }

    /** The second critical section of `get_reusable_connection`. */
    method TakeReusable(want: Destination) returns (sfd: int)
      requires Valid()
      modifies slots
      ensures var k := FindReusable(old(slots[..]), want);
              sfd == if k < slots.Length then old(slots[..])[k].sfd else INVALID_SOCKET
      ensures slots[..] == Taken(old(slots[..]), want)
      ensures (forall k | 0 <= k < slots.Length :: !Qualifies(old(slots[k]), want)) ==>
                sfd == INVALID_SOCKET && slots[..] == old(slots[..])
      ensures forall k | 0 <= k < slots.Length && Qualifies(old(slots[k]), want)
                         && forall j | 0 <= j < k :: !Qualifies(old(slots[j]), want) ::
                sfd == old(slots[k].sfd) && slots[..] == old(slots[..])[k := old(slots[k]).(inUse := true)]
    {
      hide Matches, Idle, Qualifies;
      ghost var before := slots[..];
      assert forall k | 0 <= k < slots.Length :: before[k] == slots[k];
      AllQualify(before, want);
      var slot := 0;
      while slot < slots.Length && !(Idle(slots[slot]) && Matches(slots[slot].destination, want))
        invariant slot <= slots.Length
        invariant forall j | 0 <= j < slot :: !(Idle(slots[j]) && Matches(slots[j].destination, want))
      {
        slot := slot + 1;
      }
      FirstReusable(slots[..], want, slot);
      sfd := INVALID_SOCKET;
      if slot < slots.Length {
        slots[slot] := slots[slot].(inUse := true);
        sfd := slots[slot].sfd;
      }
    }
  }
}
