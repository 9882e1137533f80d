/** The UDP proxy's flow table under interleaved threads. Each step is what one thread does between
    two points where another may run: a section under the lock, or one act on a socket. */
module UdpFlows {
  import opened Net

  type Client = string
  type Conn = nat
  type Thread = nat

  // ----- the table itself -----

  /** The state the lock guards. */
  datatype Table = Table(flows: map<Client, Conn>, closed: bool)

  datatype Found = Closed | Missing | Flow(conn: Conn)

  function Lookup(t: Table, src: Client): Found {
    if t.closed then Closed else if src in t.flows then Flow(t.flows[src]) else Missing
  }

  /** After dialling: the table may have closed, or another datagram may have won. */
  function Install(t: Table, src: Client, conn: Conn): (Table, Found) {
    match Lookup(t, src)
    case Closed => (t, Closed)
    case Flow(existing) => (t, Flow(existing))
    case Missing => (t.(flows := t.flows[src := conn]), Missing)
  }

  /** A finishing pump removes its own flow, and only its own. */
  function Retire(t: Table, src: Client, conn: Conn): Table {
    if src in t.flows && t.flows[src] == conn then t.(flows := t.flows - {src}) else t
  }

  function Shut(t: Table): Table { Table(map[], true) }

  /** A finishing pump never removes a newer flow, nor anyone else's. */
  lemma {:induction false} RetireSpares(t: Table, src: Client, conn: Conn, other: Client)
    requires other in t.flows
    ensures other in Retire(t, src, conn).flows <==> !(other == src && t.flows[src] == conn)
    ensures other in Retire(t, src, conn).flows ==> Retire(t, src, conn).flows[other] == t.flows[other]
  {
  }

  class UDPProxy {
    var flows: map<Client, Conn>
    var closed: bool

    function Now(): Table
      reads this
    {
      Table(flows, closed)
    }

    constructor ()
      ensures Now() == Table(map[], false)
    {
      flows, closed := map[], false;
    }

    /** flowFor's first section. */
    method LookupLocked(src: Client) returns (r: Found)
      ensures r == Lookup(Now(), src)
    {
      if closed { return Closed; }
      if src in flows { return Flow(flows[src]); }
      r := Missing;
    }

    /** flowFor's second section. */
    method InstallLocked(src: Client, conn: Conn) returns (r: Found)
      modifies this
      ensures (Now(), r) == Install(old(Now()), src, conn)
    {
      if closed { return Closed; }
      if src in flows { return Flow(flows[src]); }
      flows := flows[src := conn];
      r := Missing;
    }

    /** pump's deferred section. */
    method RetireLocked(src: Client, conn: Conn)
      modifies this
      ensures Now() == Retire(old(Now()), src, conn)
    {
      if src in flows && flows[src] == conn {
        flows := flows - {src};
      }
    }

    /** Close's section: the flows it hands back are closed outside the lock. */
    method CloseLocked() returns (taken: map<Client, Conn>)
      modifies this
      ensures Now() == Shut(old(Now())) && taken == old(flows)
    {
      closed := true;
      taken := flows;
      flows := map[];
    }
  }

  // ----- threads -----

  /** A backend socket: the client it was dialled for, and whether it is open. */
  datatype Socket = Socket(client: Client, open: bool)

  /** Where a thread running flowFor stands. */
  datatype Serving =
    | Idle
    | Dialling(src: Client)
    | Dialled(src: Client, conn: Conn)
    | Discarding(conn: Conn, next: Serving)
    | Starting(src: Client, conn: Conn)
    | Sending(src: Client, conn: Conn)

  /** A pump: carrying replies to src, or past its deferred section and about to close the socket. */
  datatype Pump = Running(src: Client) | Retired

  datatype Sys = Sys(
    table: Table,
    sockets: map<Conn, Socket>,
    threads: map<Thread, Serving>,
    pumps: map<Conn, Pump>,
    closing: set<Conn>)

  datatype Step =
    | Arrive(t: Thread, src: Client)
    | Dial(t: Thread, conn: Conn)
    | DialFails(t: Thread)
    | TryInstall(t: Thread)
    | Discard(t: Thread)
    | StartPump(t: Thread)
    | Send(t: Thread)
    | PumpEnds(conn: Conn)
    | PumpCloses(conn: Conn)
    | CloseProxy
    | CloseOne(conn: Conn)

  function At(s: Sys, t: Thread): Serving { if t in s.threads then s.threads[t] else Idle }

  function Close(s: Sys, conn: Conn): map<Conn, Socket> {
    if conn in s.sockets then s.sockets[conn := s.sockets[conn].(open := false)] else s.sockets
  }

  /** The steps that can be taken; a dialled socket is a new one. */
  predicate Enabled(s: Sys, step: Step) {
    match step
    case Arrive(t, _) => At(s, t).Idle?
    case Dial(t, conn) => At(s, t).Dialling? && conn !in s.sockets
    case DialFails(t) => At(s, t).Dialling?
    case TryInstall(t) => At(s, t).Dialled?
    case Discard(t) => At(s, t).Discarding?
    case StartPump(t) => At(s, t).Starting?
    case Send(t) => At(s, t).Sending?
    case PumpEnds(conn) => conn in s.pumps && s.pumps[conn].Running?
    case PumpCloses(conn) => conn in s.pumps && s.pumps[conn].Retired?
    case CloseProxy => true
    case CloseOne(conn) => conn in s.closing
  }

  /** A step that is not enabled changes nothing. */
  function Next(s: Sys, step: Step): Sys {
    if !Enabled(s, step) then s else
    match step
    case Arrive(t, src) =>
      (match Lookup(s.table, src)
       case Closed => s
       case Flow(conn) => s.(threads := s.threads[t := Sending(src, conn)])
       case Missing => s.(threads := s.threads[t := Dialling(src)]))
    case Dial(t, conn) =>
      s.(threads := s.threads[t := Dialled(At(s, t).src, conn)],
         sockets := s.sockets[conn := Socket(At(s, t).src, true)])
    case DialFails(t) => s.(threads := s.threads[t := Idle])
    case TryInstall(t) =>
      var Dialled(src, conn) := At(s, t);
      var (table, found) := Install(s.table, src, conn);
      s.(table := table, threads := s.threads[t :=
        match found
        case Closed => Discarding(conn, Idle)
        case Flow(existing) => Discarding(conn, Sending(src, existing))
        case Missing => Starting(src, conn)])
    case Discard(t) =>
      s.(sockets := Close(s, At(s, t).conn), threads := s.threads[t := At(s, t).next])
    case StartPump(t) =>
      var Starting(src, conn) := At(s, t);
      s.(pumps := s.pumps[conn := Running(src)], threads := s.threads[t := Sending(src, conn)])
    case Send(t) => s.(threads := s.threads[t := Idle])
    case PumpEnds(conn) =>
      s.(table := Retire(s.table, s.pumps[conn].src, conn), pumps := s.pumps[conn := Retired])
    case PumpCloses(conn) => s.(sockets := Close(s, conn), pumps := s.pumps - {conn})
    case CloseProxy => s.(table := Shut(s.table), closing := s.closing + s.table.flows.Values)
    case CloseOne(conn) => s.(sockets := Close(s, conn), closing := s.closing - {conn})
  }

  const START := Sys(Table(map[], false), map[], map[], map[], {})

  function After(steps: seq<Step>): Sys {
    if steps == [] then START else Next(After(steps[..|steps| - 1]), steps[|steps| - 1])
  }

  // ----- the invariant -----

  /** The socket a thread must yet hand over or close. */
  function Held(pc: Serving): Option<Conn> {
    match pc
    case Dialled(_, conn) => Some(conn)
    case Discarding(conn, _) => Some(conn)
    case Starting(_, conn) => Some(conn)
    case _ => None
  }

  predicate OpenedFor(s: Sys, conn: Conn, src: Client) {
    conn in s.sockets && s.sockets[conn].client == src
  }

  /** Every socket a thread works with was dialled for the client it serves; one not yet installed
      is known to no one else. */
  predicate ThreadOk(s: Sys, pc: Serving) {
    match pc
    case Idle => true
    case Dialling(_) => true
    case Dialled(src, conn) => OpenedFor(s, conn, src) && s.sockets[conn].open && Private(s, conn)
    case Discarding(conn, next) =>
      && conn in s.sockets && Private(s, conn)
      && (next.Idle? || (next.Sending? && OpenedFor(s, next.conn, next.src)))
    case Starting(src, conn) => OpenedFor(s, conn, src) && conn !in s.pumps
    case Sending(src, conn) => OpenedFor(s, conn, src)
  }

  predicate Private(s: Sys, conn: Conn) {
    conn !in s.pumps && conn !in s.closing && forall src :: src in s.table.flows ==> s.table.flows[src] != conn
  }

  /** A pump replies only to the client its socket was dialled for; once past its deferred section
      its socket is in the table no more. */
  predicate PumpOk(s: Sys, conn: Conn) {
    && conn in s.pumps && conn in s.sockets
    && match s.pumps[conn]
       case Running(src) => s.sockets[conn].client == src
       case Retired => forall src :: src in s.table.flows ==> s.table.flows[src] != conn
  }

  /** Every flow's socket was dialled for its key and is open. */
  predicate FlowOk(s: Sys, src: Client) {
    src in s.table.flows && OpenedFor(s, s.table.flows[src], src) && s.sockets[s.table.flows[src]].open
  }

  /** Somebody is going to close the socket. */
  ghost predicate Owned(s: Sys, conn: Conn) {
    conn in s.pumps || conn in s.closing || exists t :: t in s.threads && Held(s.threads[t]) == Some(conn)
  }

  ghost predicate Inv(s: Sys) {
    && (s.table.closed ==> s.table.flows == map[])
    && (s.closing != {} ==> s.table.closed)
    && (forall c :: c in s.closing ==> c in s.sockets)
    && (forall src :: src in s.table.flows ==> FlowOk(s, src))
    && (forall t :: t in s.threads ==> ThreadOk(s, s.threads[t]))
    && (forall c :: c in s.pumps ==> PumpOk(s, c))
    && (forall t, u :: t in s.threads && u in s.threads && t != u && Held(s.threads[t]).Some?
         ==> Held(s.threads[t]) != Held(s.threads[u]))
    && (forall c :: c in s.sockets && s.sockets[c].open ==> Owned(s, c))
  }

  /** What a thread holds before and after a step: the same socket, a new one, or none. */
  lemma {:induction false} HeldMoves(s: Sys, step: Step, t: Thread)
    requires Inv(s) && Enabled(s, step) && t in Next(s, step).threads
    ensures var was, now := Held(At(s, t)), Held(Next(s, step).threads[t]);
      now == was || now.None? || (step.Dial? && step.t == t && now == Some(step.conn))
  {
  }

  lemma {:induction false} HeldApart(s: Sys, step: Step)
    requires Inv(s) && Enabled(s, step)
    ensures var n := Next(s, step);
      forall t, u :: t in n.threads && u in n.threads && t != u && Held(n.threads[t]).Some?
          ==> Held(n.threads[t]) != Held(n.threads[u])
  {
    var n := Next(s, step);
    forall t, u | t in n.threads && u in n.threads && t != u && Held(n.threads[t]).Some?
      ensures Held(n.threads[t]) != Held(n.threads[u]) {
      HeldMoves(s, step, t);
      HeldMoves(s, step, u);
      assert t in s.threads ==> ThreadOk(s, s.threads[t]);
      assert u in s.threads ==> ThreadOk(s, s.threads[u]);
    }
  }

  /** Whoever was going to close a socket still is, unless the step closed it or passed it on. */
  lemma {:induction false} OwnedKeeps(s: Sys, step: Step, c: Conn)
    requires Inv(s) && Enabled(s, step)
    requires c in Next(s, step).sockets && Next(s, step).sockets[c].open
    ensures Owned(Next(s, step), c)
  {
    hide FlowOk, PumpOk, ThreadOk;
    var n := Next(s, step);
    if step.Dial? && c == step.conn {
      assert Held(n.threads[step.t]) == Some(c);
    } else {
      assert c in s.sockets && s.sockets[c].open;
      assert Owned(s, c);
      if c !in s.pumps && c !in s.closing {
        var t :| t in s.threads && Held(s.threads[t]) == Some(c);
        assert t in n.threads;
        assert Held(n.threads[t]) == Some(c) || c in n.pumps;
      }
    }
  }

  lemma {:induction false} TableKeeps(s: Sys, step: Step)
    requires Inv(s) && Enabled(s, step)
    ensures var n := Next(s, step);
      && (n.table.closed ==> n.table.flows == map[]) && (n.closing != {} ==> n.table.closed)
      && (forall c :: c in n.closing ==> c in n.sockets)
      && (forall src :: src in n.table.flows ==> FlowOk(n, src))
  {
    hide Owned, Held;
  }

  lemma {:induction false} PumpKeeps(s: Sys, step: Step, c: Conn)
    requires Inv(s) && Enabled(s, step) && c in Next(s, step).pumps
    ensures PumpOk(Next(s, step), c)
  {
    hide Owned, Held;
  }

  /** The thread a step belongs to, if it is one running flowFor. */
  predicate ActsIn(step: Step, t: Thread) {
    match step
    case PumpEnds(_) => false
    case PumpCloses(_) => false
    case CloseProxy => false
    case CloseOne(_) => false
    case _ => step.t == t
  }

  lemma {:induction false} ActorKeeps(s: Sys, step: Step, t: Thread)
    requires Inv(s) && Enabled(s, step) && ActsIn(step, t) && t in Next(s, step).threads
    ensures ThreadOk(Next(s, step), Next(s, step).threads[t])
  {
    hide Owned, Held;
    assert t in s.threads ==> ThreadOk(s, s.threads[t]);
  }

  lemma {:induction false} SocketsStand(s: Sys, step: Step)
    requires Enabled(s, step)
    ensures forall c :: c in s.sockets ==> OpenedFor(Next(s, step), c, s.sockets[c].client)
  {
  }

  /** No step touches a socket held by a thread it does not act in. */
  lemma {:induction false} HeldStands(s: Sys, step: Step, c: Conn)
    requires Enabled(s, step) && c in s.sockets && c !in s.pumps
    requires forall u :: ActsIn(step, u) ==> Held(At(s, u)) != Some(c)
    ensures var n := Next(s, step);
      c !in n.pumps && (Private(s, c) ==> Private(n, c) && n.sockets[c] == s.sockets[c])
  {
  }

  lemma {:induction false} BystanderStands(s: Sys, step: Step, t: Thread)
    requires !ActsIn(step, t)
    ensures t in Next(s, step).threads <==> t in s.threads
    ensures t in s.threads ==> Next(s, step).threads[t] == s.threads[t]
  {
  }

  lemma {:induction false} BystanderKeeps(s: Sys, step: Step, t: Thread)
    requires Inv(s) && Enabled(s, step) && !ActsIn(step, t) && t in Next(s, step).threads
    ensures ThreadOk(Next(s, step), Next(s, step).threads[t])
  {
    hide Owned, PumpOk, FlowOk, Next, Enabled;
    BystanderStands(s, step, t);
    assert ThreadOk(s, s.threads[t]);
    SocketsStand(s, step);
    var held := Held(s.threads[t]);
    if held.Some? {
      forall u | ActsIn(step, u) ensures Held(At(s, u)) != held {}
      hide ActsIn;
      HeldStands(s, step, held.value);
    }
  }

  /** Every step keeps the invariant, whichever thread takes it. */
  lemma {:induction false} NextKeeps(s: Sys, step: Step)
    requires Inv(s)
    ensures Inv(Next(s, step))
  {
    if Enabled(s, step) {
      TableKeeps(s, step);
      HeldApart(s, step);
      var n := Next(s, step);
      forall c | c in n.pumps ensures PumpOk(n, c) { PumpKeeps(s, step, c); }
      forall t | t in n.threads ensures ThreadOk(n, n.threads[t]) {
        if ActsIn(step, t) { ActorKeeps(s, step, t); } else { BystanderKeeps(s, step, t); }
      }
      forall c | c in n.sockets && n.sockets[c].open ensures Owned(n, c) {
        OwnedKeeps(s, step, c);
      }
      hide Next, FlowOk, ThreadOk, PumpOk, Owned, Held, Enabled;
    }
  }

  lemma {:induction false} AfterKeeps(steps: seq<Step>)
    ensures Inv(After(steps))
  {
    hide Next, FlowOk, ThreadOk, PumpOk, Owned, Held;
    if steps != [] {
      AfterKeeps(steps[..|steps| - 1]);
      NextKeeps(After(steps[..|steps| - 1]), steps[|steps| - 1]);
    }
  }

  // ----- what holds over every interleaving -----

  /** In every reachable state: each flow's socket is open and was dialled for its key, a datagram
      goes only to a socket of its own client, and a pump replies only to that client. */
  lemma {:induction false} FlowsAreTheirClients(steps: seq<Step>)
    ensures var s := After(steps);
      && (forall src :: src in s.table.flows ==>
            s.table.flows[src] in s.sockets && s.sockets[s.table.flows[src]] == Socket(src, true))
      && (forall t :: t in s.threads && s.threads[t].Sending? ==> OpenedFor(s, s.threads[t].conn, s.threads[t].src))
      && (forall c :: c in s.pumps && s.pumps[c].Running? ==> OpenedFor(s, c, s.pumps[c].src))
  {
    AfterKeeps(steps);
    var s := After(steps);
    forall src | src in s.table.flows
      ensures s.table.flows[src] in s.sockets && s.sockets[s.table.flows[src]] == Socket(src, true) {
      assert FlowOk(s, src);
    }
    forall t | t in s.threads && s.threads[t].Sending? ensures OpenedFor(s, s.threads[t].conn, s.threads[t].src) {
      assert ThreadOk(s, s.threads[t]);
    }
    forall c | c in s.pumps && s.pumps[c].Running? ensures OpenedFor(s, c, s.pumps[c].src) {
      assert PumpOk(s, c);
    }
  }

  /** Once closed, always closed, and the table stays empty. */
  lemma {:induction false} ClosedStaysEmpty(steps: seq<Step>, more: seq<Step>)
    requires After(steps).table.closed
    ensures After(steps + more).table == Table(map[], true)
  {
    AfterKeeps(steps + more);
    hide Inv;
    if more == [] {
      assert steps + more == steps;
    } else {
      ClosedStaysEmpty(steps, more[..|more| - 1]);
      assert (steps + more)[..|steps + more| - 1] == steps + more[..|more| - 1];
    }
    assert Inv(After(steps + more)) ==>
      (After(steps + more).table.closed ==> After(steps + more).table.flows == map[]) by {
      EmptyWhenClosed(After(steps + more));
    }
  }

  lemma {:induction false} EmptyWhenClosed(s: Sys)
    ensures Inv(s) && s.table.closed ==> s.table.flows == map[]
  {
  }

  /** No socket leaks: one that is open has a pump, a thread, or Close about to close it ... */
  lemma {:induction false} OpenIsOwned(steps: seq<Step>, c: Conn)
    requires c in After(steps).sockets && After(steps).sockets[c].open
    ensures Owned(After(steps), c)
  {
    AfterKeeps(steps);
  }

  /** ... so when the threads, the pumps and Close are done, every socket is closed. */
  lemma {:induction false} QuietMeansClosed(steps: seq<Step>, c: Conn)
    requires var s := After(steps);
      s.pumps == map[] && s.closing == {} && (forall t :: t in s.threads ==> Held(s.threads[t]).None?)
    ensures c in After(steps).sockets ==> !After(steps).sockets[c].open
  {
    AfterKeeps(steps);
    if c in After(steps).sockets && After(steps).sockets[c].open {
      OpenIsOwned(steps, c);
      assert false;
    }
  }

  // ----- what a datagram does -----

  /** A datagram of a client with a flow uses that flow: no socket is dialled, nothing is replaced. */
  lemma {:induction false} ExistingFlowIsUsed(s: Sys, t: Thread, src: Client)
    requires At(s, t).Idle? && !s.table.closed && src in s.table.flows
    ensures Next(s, Arrive(t, src)) == s.(threads := s.threads[t := Sending(src, s.table.flows[src])])
  {
  }

  /** A thread that dialled in vain, because another datagram won or the proxy closed, leaves the table
      alone, gives its own socket up and goes on with the winner's, if there is one. */
  lemma {:induction false} LateDialIsDiscarded(s: Sys, t: Thread)
    requires At(s, t).Dialled? && (s.table.closed || At(s, t).src in s.table.flows)
    ensures var n := Next(s, TryInstall(t));
      var src := At(s, t).src;
      && n.table == s.table && n.sockets == s.sockets && n.pumps == s.pumps
      && At(n, t).Discarding? && At(n, t).conn == At(s, t).conn
      && (At(n, t).next == if s.table.closed then Idle else Sending(src, s.table.flows[src]))
      && (s.table.closed || Next(n, Discard(t)) == n.(
            threads := n.threads[t := Sending(src, s.table.flows[src])], sockets := Close(n, At(s, t).conn)))
  {
  }

  /** The first datagram of a client on an open proxy, left alone: a socket is dialled for it, becomes the
      client's flow, is pumped, and carries the datagram. */
  lemma {:induction false} FirstDatagram(s: Sys, t: Thread, src: Client, conn: Conn)
    requires At(s, t).Idle? && !s.table.closed && src !in s.table.flows && conn !in s.sockets
    ensures var n := Next(Next(Next(Next(s, Arrive(t, src)), Dial(t, conn)), TryInstall(t)), StartPump(t));
      n == s.(table := s.table.(flows := s.table.flows[src := conn]),
              sockets := s.sockets[conn := Socket(src, true)],
              pumps := s.pumps[conn := Running(src)],
              threads := s.threads[t := Sending(src, conn)])
  {
    var a := Next(s, Arrive(t, src));
    assert a == s.(threads := s.threads[t := Dialling(src)]);
    var b := Next(a, Dial(t, conn));
    assert b == s.(threads := s.threads[t := Dialled(src, conn)], sockets := s.sockets[conn := Socket(src, true)]);
    var d := Next(b, TryInstall(t));
    assert d == s.(table := s.table.(flows := s.table.flows[src := conn]),
                   sockets := s.sockets[conn := Socket(src, true)], threads := s.threads[t := Starting(src, conn)]);
  }

  /** On a closed proxy a datagram is dropped. */
  lemma {:induction false} ClosedDrops(s: Sys, t: Thread, src: Client)
    requires At(s, t).Idle? && s.table.closed
    ensures Next(s, Arrive(t, src)) == s
  {
  }

  /** Closing the proxy empties the table and takes every flow's socket to be closed, one by one. */
  lemma {:induction false} ClosingTakesAll(s: Sys, src: Client)
    requires Inv(s) && src in s.table.flows
    ensures var n := Next(s, CloseProxy);
      var conn := s.table.flows[src];
      && n.table == Table(map[], true) && conn in n.closing && n.sockets == s.sockets
      && var m := Next(n, CloseOne(conn));
         && m.sockets == s.sockets[conn := Socket(src, false)] && conn !in m.closing && m.table == n.table
  {
    assert FlowOk(s, src);
    hide ThreadOk, PumpOk, Owned, Held;
  }

  /** A pump that ends takes its own flow out of the table, then closes its socket; other flows, sockets
      and pumps stand. */
  lemma {:induction false} EndedPumpCleansUp(s: Sys, conn: Conn)
    requires Inv(s) && PumpsHoldFlows(s) && conn in s.pumps && s.pumps[conn].Running?
    ensures var src := s.pumps[conn].src;
      var n := Next(Next(s, PumpEnds(conn)), PumpCloses(conn));
      && n.table == s.table.(flows := if s.table.closed then map[] else s.table.flows - {src})
      && n.sockets == s.sockets[conn := Socket(src, false)] && n.pumps == s.pumps - {conn}
      && n.threads == s.threads && n.closing == s.closing
  {
    assert PumpOk(s, conn);
    hide ThreadOk, FlowOk, Owned, Held;
    var m := Next(s, PumpEnds(conn));
    assert m.pumps == s.pumps[conn := Retired] && m.sockets == s.sockets;
  }

  /** While the proxy is open, whoever pumps or is about to pump for a client holds its flow. */
  ghost predicate PumpsHoldFlows(s: Sys) {
    !s.table.closed ==>
      && (forall c :: c in s.pumps && s.pumps[c].Running? ==> Holds(s, s.pumps[c].src, c))
      && (forall t :: t in s.threads && s.threads[t].Starting? ==> Holds(s, s.threads[t].src, s.threads[t].conn))
  }

  predicate Holds(s: Sys, src: Client, conn: Conn) { src in s.table.flows && s.table.flows[src] == conn }

  lemma {:induction false} PumpsHoldKeeps(s: Sys, step: Step)
    requires Inv(s) && PumpsHoldFlows(s)
    ensures PumpsHoldFlows(Next(s, step))
  {
    var n := Next(s, step);
    if Enabled(s, step) && !n.table.closed {
      forall c | c in n.pumps && n.pumps[c].Running? ensures Holds(n, n.pumps[c].src, c) {
        PumpHolds(s, step, c);
      }
      forall t | t in n.threads && n.threads[t].Starting? ensures Holds(n, n.threads[t].src, n.threads[t].conn) {
        StarterHolds(s, step, t);
      }
    }
  }

  lemma {:induction false} PumpHolds(s: Sys, step: Step, c: Conn)
    requires Inv(s) && PumpsHoldFlows(s) && Enabled(s, step)
    requires var n := Next(s, step); !n.table.closed && c in n.pumps && n.pumps[c].Running?
    ensures var n := Next(s, step); Holds(n, n.pumps[c].src, c)
  {
    hide Owned, Held, FlowOk, ThreadOk, PumpOk;
    if c !in s.pumps || !s.pumps[c].Running? {
      assert step.StartPump?;
    }
  }

  lemma {:induction false} StarterHolds(s: Sys, step: Step, t: Thread)
    requires Inv(s) && PumpsHoldFlows(s) && Enabled(s, step)
    requires var n := Next(s, step); !n.table.closed && t in n.threads && n.threads[t].Starting?
    ensures var n := Next(s, step); Holds(n, n.threads[t].src, n.threads[t].conn)
  {
    hide Owned, Held, FlowOk, PumpOk;
    if t in s.threads && s.threads[t] == Next(s, step).threads[t] {
      assert ThreadOk(s, s.threads[t]);
    } else {
      assert step == TryInstall(t);
    }
  }

  /** So over every interleaving, an open proxy pumps for a client from its flow only: never from two
      sockets at once. */
  lemma {:induction false} OnePumpPerClient(steps: seq<Step>, c: Conn)
    requires var s := After(steps); !s.table.closed && c in s.pumps && s.pumps[c].Running?
    ensures var s := After(steps);
      && s.pumps[c].src in s.table.flows && s.table.flows[s.pumps[c].src] == c
      && forall d :: d in s.pumps && s.pumps[d].Running? && s.pumps[d].src == s.pumps[c].src ==> d == c
  {
    AllPumpsHold(steps);
    var s := After(steps);
    hide After;
    forall d | d in s.pumps && s.pumps[d].Running? && s.pumps[d].src == s.pumps[c].src ensures d == c {
      assert Holds(s, s.pumps[d].src, d) && Holds(s, s.pumps[c].src, c);
    }
  }

  lemma {:induction false} AllPumpsHold(steps: seq<Step>)
    ensures PumpsHoldFlows(After(steps))
  {
    hide Inv, Next;
    if steps != [] {
      hide PumpsHoldFlows;
      AllPumpsHold(steps[..|steps| - 1]);
      AfterKeeps(steps[..|steps| - 1]);
      PumpsHoldKeeps(After(steps[..|steps| - 1]), steps[|steps| - 1]);
    }
  }
}
