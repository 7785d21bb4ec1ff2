/**
 * One run of the proxy with one client, state by state: every abort that the safety results allow is
 * reached.
 */
module Reachability {
  import opened Common
  import opened StateEngine
  import opened Lifecycle
  import Safety = LifecycleSafety

  /** A run from what main.c has registered to this world. */
  ghost predicate Leads(ws: seq<World<nat>>, es: seq<Event<nat>>, w: World<nat>) {
    Safety.Execution(ws, es) && Safety.Initial(ws[0]) && ws[|es|] == w
  }

  ghost predicate Reachable(w: World<nat>) {
    exists ws: seq<World<nat>>, es: seq<Event<nat>> :: Leads(ws, es, w)
  }

  /** Some run leads to a world in which the event is enabled and has this outcome. */
  ghost predicate Occurs(e: Event<nat>, r: Result<nat>) {
    exists w: World<nat> :: Reachable(w) && RefInv(w) && Enabled(w, e) && Step(w, e) == r
  }

  lemma RunTo(w: World<nat>) returns (ws: seq<World<nat>>, es: seq<Event<nat>>)
    requires Reachable(w)
    ensures Leads(ws, es, w)
  {
    ws, es :| Leads(ws, es, w);
  }

  lemma ReachableInv(w: World<nat>)
    requires Reachable(w)
    ensures Safety.Inv(w) && RefInv(w)
  {
    hide Reachable, Safety.Inv, Step, Enabled, RefInv, Safety.Initial;
    var ws, es := RunTo(w);
    Safety.InitialInv(ws[0]);
    Safety.RunSafe(ws, es);
    Safety.InvRefs(w);
  }

  lemma ReachableStep(w: World<nat>, e: Event<nat>, w': World<nat>)
    requires Reachable(w) && RefInv(w) && Enabled(w, e) && Step(w, e) == Running(w')
    ensures Reachable(w')
  {
    hide Reachable, Safety.Inv, Step, Enabled, RefInv, Safety.Initial, Leads;
    ReachableInv(w);
    var ws, es := RunTo(w);
    LeadsOn(ws, es, w, e, w');
    RunReaches(ws + [w'], es + [e], w');
  }

  lemma LeadsOn(ws: seq<World<nat>>, es: seq<Event<nat>>, w: World<nat>, e: Event<nat>, w': World<nat>)
    requires Leads(ws, es, w) && Safety.Inv(w) && RefInv(w) && Enabled(w, e) && Step(w, e) == Running(w')
    ensures Leads(ws + [w'], es + [e], w')
  {
    hide Safety.Inv, Step, Enabled, RefInv, Safety.Initial;
    Safety.ExecutionAppended(ws, es, e, w');
  }

  lemma RunReaches(ws: seq<World<nat>>, es: seq<Event<nat>>, w: World<nat>)
    requires Leads(ws, es, w)
    ensures Reachable(w)
  {
    hide Leads;
  }

  // ---------------------------------------------------------------- the worlds of the run

  const LISTEN: int := 3
  const ADMIN: int := 4
  const CLIENT: int := 5
  const ORIGIN: int := 6

  /** An environment in which everything succeeds and nothing is full, empty or finished. */
  const QUIET: Oracle<nat> := Oracle(
    true, true, true, ORIGIN, CLIENT, true, InProgress, None, false, false, false, false, false, OP_NOOP, OP_NOOP)

  function Services(): map<int, Slot<nat>> {
    map[LISTEN := Slot(ListenHandler, OP_READ, None), ADMIN := Slot(AdminHandler, OP_READ, None)]
  }

  /** One client, as `k` says, before its origin is connected. */
  function Alone(client: Interest, k: Conn, jobs: map<nat, int>, next: nat): World<nat> {
    World(Services()[CLIENT := Slot(SocksHandler, client, Some(0))], map[0 := k], [], jobs, next)
  }

  /** The client and its origin. */
  function Pair(client: Interest, origin: Interest, k: Conn): World<nat> {
    World(Services()[CLIENT := Slot(SocksHandler, client, Some(0))][ORIGIN := Slot(SocksHandler, origin, Some(0))],
          map[0 := k], [], map[], 1)
  }

  const FIRST: Conn := FreshConn(CLIENT)
  const RESOLVING: Conn := FIRST.(current := Some(DNS_RESOLUTION_ST), job := Some(0))
  const RESOLVED: Conn := RESOLVING.(job := None)
  const ATTACHED: Conn := RESOLVED.(references := 2, peer := ORIGIN)

  function In(state: StateId): Conn {
    ATTACHED.(originFd := ORIGIN, current := Some(state))
  }

  // ---------------------------------------------------------------- up to the connection

  lemma Accepted()
    ensures Reachable(Alone(OP_WRITE, FIRST, map[], 0))
  {
    var w, o := World(Services(), map[], [], map[], 0), QUIET.(alloc := Some(0));
    assert Leads([w], [], w);
    hide Leads;
    RunReaches([w], [], w);
    hide Reachable;
    ReachableInv(w);
    hide RefInv, Safety.Inv;
    assert NewSock(w, CLIENT, Some(0)) == (w.(conns := map[0 := FIRST]), Some(0));
    assert Accept(w, o) == Alone(OP_WRITE, FIRST, map[], 0);
    ReachableStep(w, ReadReady(LISTEN, o), Alone(OP_WRITE, FIRST, map[], 0));
  }

  /** In CONNECTING_ST and later a dispatch that does not fail changes nothing but the current state. */
  lemma Jumps(w: World<nat>, k: Conn, next: StateId)
    requires RefInv(w) && w.conns == map[0 := k] && next < DONE_ST
    ensures Safety.Finish(w, 0, next) == Running(w.(conns := map[0 := k.(current := Some(next))]))
  {
    hide RefInv;
    assert w.conns[0 := k.(current := Some(next))] == map[0 := k.(current := Some(next))];
  }

  lemma StartsResolution(w: World<nat>)
    requires RefInv(w) && w == Alone(OP_WRITE, FIRST.(current := Some(DNS_RESOLUTION_ST)), map[], 0)
    ensures CallHandler(w, 0, CLIENT, DNS_RESOLUTION_ST, Write, QUIET)
         == Returned(Alone(OP_NOOP, RESOLVING, map[0 := CLIENT], 1), DNS_RESOLUTION_ST)
  {
    hide RefInv;
    var w' := Alone(OP_NOOP, RESOLVING, map[0 := CLIENT], 1);
    assert w.conns[0 := w.conns[0].(job := Some(0))] == w'.conns;
    assert w.jobs[0 := CLIENT] == w'.jobs;
    assert w.items[CLIENT := w.items[CLIENT].(interest := OP_NOOP)] == w'.items;
  }

  lemma Resolving()
    ensures Reachable(Alone(OP_NOOP, RESOLVING, map[0 := CLIENT], 1))
  {
    var w, w' := Alone(OP_WRITE, FIRST, map[], 0), Alone(OP_NOOP, RESOLVING, map[0 := CLIENT], 1);
    Accepted();
    ReachableInv(w);
    var w0 := SetConn(w, 0, FIRST.(current := Some(DNS_RESOLUTION_ST)));
    assert w0 == Alone(OP_WRITE, FIRST.(current := Some(DNS_RESOLUTION_ST)), map[], 0);
    hide RefInv, Reachable, Safety.Inv, CallHandler, Dispatch, Safety.Finish;
    Safety.HandleFirstIsIdempotent(w, 0, CLIENT, QUIET);
    StartsResolution(w0);
    Safety.DispatchFinishes(w0, 0, CLIENT, Write, QUIET);
    Jumps(w', RESOLVING, DNS_RESOLUTION_ST);
    ReachableStep(w, WriteReady(CLIENT, QUIET), w');
  }

  lemma Connects(w: World<nat>)
    requires RefInv(w) && w == Alone(OP_NOOP, RESOLVED, map[], 1)
    ensures CallHandler(w, 0, CLIENT, DNS_RESOLUTION_ST, Block, QUIET)
         == Returned(Pair(OP_NOOP, OP_WRITE, ATTACHED), CONNECTING_ST)
  {
    hide RefInv;
    var w' := Pair(OP_NOOP, OP_WRITE, ATTACHED);
    assert SetInterest(w, CLIENT, OP_NOOP).0 == w;
    assert w.conns[0 := w.conns[0].(references := 2, peer := ORIGIN)] == w'.conns;
    assert AttachOrigin(w, 0, ORIGIN) == (w', Success);
  }

  /** What Deliver hands to the dispatch. */
  lemma Delivered(w: World<nat>, w1: World<nat>)
    requires RefInv(w) && w == Alone(OP_NOOP, RESOLVING, map[0 := CLIENT], 1) && w1 == Alone(OP_NOOP, RESOLVED, map[], 1)
    ensures RefInv(w1)
    ensures Deliver(w, 0, QUIET) == Dispatch(w1, 0, CLIENT, Block, QUIET)
  {
    SameSlots(w, w1);
    hide Dispatch, RefInv;
    var due := w.(jobs := w.jobs - {0});
    assert w1 == due.(conns := due.conns[0 := due.conns[0].(job := None)]);
  }

  lemma DeliveryConnects(w: World<nat>)
    requires RefInv(w) && w == Alone(OP_NOOP, RESOLVING, map[0 := CLIENT], 1)
    ensures Deliver(w, 0, QUIET) == Running(Pair(OP_NOOP, OP_WRITE, ATTACHED.(current := Some(CONNECTING_ST))))
  {
    hide CallHandler, Dispatch, RefInv, Safety.Finish, Deliver;
    var w1 := Alone(OP_NOOP, RESOLVED, map[], 1);
    Delivered(w, w1);
    Connects(w1);
    Safety.DispatchFinishes(w1, 0, CLIENT, Block, QUIET);
    Jumps(Pair(OP_NOOP, OP_WRITE, ATTACHED), ATTACHED, CONNECTING_ST);
  }

  lemma Connected()
    ensures Reachable(Pair(OP_NOOP, OP_WRITE, ATTACHED.(current := Some(CONNECTING_ST))))
  {
    var w := Alone(OP_NOOP, RESOLVING, map[0 := CLIENT], 1);
    hide RefInv, Deliver, Reachable, Safety.Inv, Pair;
    Resolving();
    ReachableInv(w);
    DeliveryConnects(w);
    ReachableStep(w, BlockDone(0, QUIET), Pair(OP_NOOP, OP_WRITE, ATTACHED.(current := Some(CONNECTING_ST))));
  }

  // ---------------------------------------------------------------- from the connection on

  /** A hand-over between the two descriptors of the pair. */
  lemma HandsOver(client: Interest, origin: Interest, k: Conn, from: int, fi: Interest, to: int, ti: Interest, next: nat)
    requires RefInv(Pair(client, origin, k)) && from in {CLIENT, ORIGIN} && to in {CLIENT, ORIGIN}
    ensures HandOver(Pair(client, origin, k), from, fi, to, ti, next)
         == Returned(
              Pair(if to == CLIENT then ti else if from == CLIENT then fi else client,
                   if to == ORIGIN then ti else if from == ORIGIN then fi else origin, k),
              next)
  {
    hide RefInv;
    SetsInterest(client, origin, k, from, fi);
    var w1 := SetInterest(Pair(client, origin, k), from, fi).0;
    SetsInterest(if from == CLIENT then fi else client, if from == ORIGIN then fi else origin, k, to, ti);
  }

  lemma SetsInterest(client: Interest, origin: Interest, k: Conn, fd: int, i: Interest)
    requires RefInv(Pair(client, origin, k)) && fd in {CLIENT, ORIGIN}
    ensures SetInterest(Pair(client, origin, k), fd, i)
         == (Pair(if fd == CLIENT then i else client, if fd == ORIGIN then i else origin, k), true)
  {
    hide RefInv;
    var w := Pair(client, origin, k);
    assert w.items[fd := w.items[fd].(interest := i)]
        == Pair(if fd == CLIENT then i else client, if fd == ORIGIN then i else origin, k).items;
  }

  /** The event runs the handler of the current state; the world it returns jumps to the next state. */
  lemma Moves(client: Interest, origin: Interest, k: Conn, fd: int, op: Op, o: Oracle<nat>, w': World<nat>, next: StateId)
    requires Reachable(Pair(client, origin, k)) && k.current.Some? && fd in {CLIENT, ORIGIN} && o.alloc == None
    requires Safety.WantsOp(if fd == CLIENT then client else origin, op)
    requires Handles(CLIENT_STATES[k.current.value], op) && next < DONE_ST && |w'.conns| == 1 && 0 in w'.conns
    requires RefInv(Pair(client, origin, k)) ==>
      CallHandler(Pair(client, origin, k), 0, fd, k.current.value, op, o) == Returned(w', next)
    ensures Reachable(w'.(conns := map[0 := w'.conns[0].(current := Some(next))]))
  {
    hide CallHandler, Dispatch, RefInv, Safety.Finish, Reachable, Safety.Inv;
    var w := Pair(client, origin, k);
    ReachableInv(w);
    Safety.DispatchFinishes(w, 0, fd, op, o);
    OnlyKey(w'.conns);
    Jumps(w', w'.conns[0], next);
    ReachableStep(w, if op == Read then ReadReady(fd, o) else WriteReady(fd, o),
      w'.(conns := map[0 := w'.conns[0].(current := Some(next))]));
  }

  lemma OnlyKey(m: map<nat, Conn>)
    requires |m| == 1 && 0 in m
    ensures m == map[0 := m[0]]
  {
    assert |m.Keys - {0}| == 0;
    assert m.Keys == {0} + (m.Keys - {0});
  }

  lemma InGreetings()
    ensures Reachable(Pair(OP_NOOP, OP_WRITE, In(GREETINGS_ST)))
  {
    var k := ATTACHED.(current := Some(CONNECTING_ST));
    var k' := In(CONNECTING_ST);
    Connected();
    ReachableInv(Pair(OP_NOOP, OP_WRITE, k));
    hide HandOver, RefInv, Reachable, Safety.Inv;
    var w1 := SetConn(Pair(OP_NOOP, OP_WRITE, k), 0, k');
    assert w1.conns == map[0 := k'];
    assert w1 == Pair(OP_NOOP, OP_WRITE, k');
    HandsOver(OP_NOOP, OP_WRITE, k', ORIGIN, OP_WRITE, CLIENT, OP_NOOP, GREETINGS_ST);
    Moves(OP_NOOP, OP_WRITE, k, ORIGIN, Write, QUIET, w1, GREETINGS_ST);
    assert w1.(conns := map[0 := k'.(current := Some(GREETINGS_ST))]) == Pair(OP_NOOP, OP_WRITE, In(GREETINGS_ST));
  }

  lemma AwaitsGreeting()
    ensures Reachable(Pair(OP_NOOP, OP_READ, In(GREETINGS_ST)))
  {
    var k := In(GREETINGS_ST);
    InGreetings();
    ReachableInv(Pair(OP_NOOP, OP_WRITE, k));
    hide HandOver, SetInterest, RefInv, Reachable, Safety.Inv;
    HandsOver(OP_NOOP, OP_WRITE, k, ORIGIN, OP_NOOP, ORIGIN, OP_READ, GREETINGS_ST);
    Moves(OP_NOOP, OP_WRITE, k, ORIGIN, Write, QUIET.(bufferEmpty := true), Pair(OP_NOOP, OP_READ, k), GREETINGS_ST);
  }

  lemma GreetingRead()
    ensures Reachable(Pair(OP_WRITE, OP_NOOP, In(GREETINGS_ST)))
  {
    var k := In(GREETINGS_ST);
    AwaitsGreeting();
    ReachableInv(Pair(OP_NOOP, OP_READ, k));
    hide HandOver, SetInterest, RefInv, Reachable, Safety.Inv;
    HandsOver(OP_NOOP, OP_READ, k, ORIGIN, OP_NOOP, CLIENT, OP_WRITE, GREETINGS_ST);
    Moves(OP_NOOP, OP_READ, k, ORIGIN, Read, QUIET.(finished := true), Pair(OP_WRITE, OP_NOOP, k), GREETINGS_ST);
  }

  lemma GreetingSent()
    ensures Reachable(Pair(OP_NOOP, OP_WRITE, In(CAPA_ST)))
  {
    var k := In(GREETINGS_ST);
    GreetingRead();
    ReachableInv(Pair(OP_WRITE, OP_NOOP, k));
    hide HandOver, SetInterest, RefInv, Reachable, Safety.Inv;
    HandsOver(OP_WRITE, OP_NOOP, k, CLIENT, OP_NOOP, ORIGIN, OP_WRITE, CAPA_ST);
    Moves(OP_WRITE, OP_NOOP, k, CLIENT, Write, QUIET.(finished := true), Pair(OP_NOOP, OP_WRITE, k), CAPA_ST);
  }

  lemma CapaSent()
    ensures Reachable(Pair(OP_NOOP, OP_READ, In(CAPA_ST)))
  {
    var k := In(CAPA_ST);
    GreetingSent();
    ReachableInv(Pair(OP_NOOP, OP_WRITE, k));
    hide HandOver, SetInterest, RefInv, Reachable, Safety.Inv;
    SetsInterest(OP_NOOP, OP_WRITE, k, ORIGIN, OP_READ);
    Moves(OP_NOOP, OP_WRITE, k, ORIGIN, Write, QUIET, Pair(OP_NOOP, OP_READ, k), CAPA_ST);
  }

  lemma CapaFinished()
    ensures Reachable(Pair(OP_READ, OP_NOOP, In(REQUEST_ST)))
  {
    var k := In(CAPA_ST);
    CapaSent();
    ReachableInv(Pair(OP_NOOP, OP_READ, k));
    hide HandOver, SetInterest, RefInv, Reachable, Safety.Inv;
    HandsOver(OP_NOOP, OP_READ, k, ORIGIN, OP_NOOP, CLIENT, OP_READ, REQUEST_ST);
    Moves(OP_NOOP, OP_READ, k, ORIGIN, Read, QUIET.(finished := true), Pair(OP_READ, OP_NOOP, k), REQUEST_ST);
  }

  lemma CommandsRead()
    ensures Reachable(Pair(OP_NOOP, OP_WRITE, In(REQUEST_ST)))
  {
    var k := In(REQUEST_ST);
    CapaFinished();
    ReachableInv(Pair(OP_READ, OP_NOOP, k));
    hide HandOver, SetInterest, RefInv, Reachable, Safety.Inv;
    HandsOver(OP_READ, OP_NOOP, k, CLIENT, OP_NOOP, ORIGIN, OP_WRITE, REQUEST_ST);
    Moves(OP_READ, OP_NOOP, k, CLIENT, Read, QUIET.(finished := true), Pair(OP_NOOP, OP_WRITE, k), REQUEST_ST);
  }

  lemma RequestSent()
    ensures Reachable(Pair(OP_NOOP, OP_READ, In(RESPONSE_ST)))
  {
    var k := In(REQUEST_ST);
    CommandsRead();
    ReachableInv(Pair(OP_NOOP, OP_WRITE, k));
    hide HandOver, SetInterest, RefInv, Reachable, Safety.Inv;
    HandsOver(OP_NOOP, OP_WRITE, k, ORIGIN, OP_READ, CLIENT, OP_NOOP, RESPONSE_ST);
    Moves(OP_NOOP, OP_WRITE, k, ORIGIN, Write, QUIET, Pair(OP_NOOP, OP_READ, k), RESPONSE_ST);
  }

  // ---------------------------------------------------------------- main result

  /** Each of the three aborts, and the call of exit(), is what some run comes to. */
  lemma EveryStopOccurs()
    ensures Occurs(BlockDone(0, QUIET.(connect := Immediate)), Aborted)
    ensures Occurs(ReadReady(ORIGIN, QUIET.(bufferFull := true)), Aborted)
    ensures Occurs(ReadReady(ORIGIN, QUIET.(overrun := true)), Aborted)
    ensures Occurs(ReadReady(ADMIN, QUIET.(ioOk := false)), Exited)
  {
    hide Reachable, Occurs;
    Resolving();
    Stops(Alone(OP_NOOP, RESOLVING, map[0 := CLIENT], 1), BlockDone(0, QUIET.(connect := Immediate)));
    CapaSent();
    Stops(Pair(OP_NOOP, OP_READ, In(CAPA_ST)), ReadReady(ORIGIN, QUIET.(bufferFull := true)));
    RequestSent();
    Stops(Pair(OP_NOOP, OP_READ, In(RESPONSE_ST)), ReadReady(ORIGIN, QUIET.(overrun := true)));
    Stops(Pair(OP_NOOP, OP_READ, In(RESPONSE_ST)), ReadReady(ADMIN, QUIET.(ioOk := false)));
  }

  lemma Stops(w: World<nat>, e: Event<nat>)
    requires Reachable(w) && Enabled(w, e)
    ensures Safety.AbortsOn(w, e) ==> Occurs(e, Aborted)
    ensures Safety.ExitsOn(w, e) ==> Occurs(e, Exited)
  {
    hide Step, RefInv, Safety.Inv, Enabled, Safety.AbortsOn, Safety.ExitsOn, Reachable;
    ReachableInv(w);
    Safety.StepSafe(w, e);
  }
}
