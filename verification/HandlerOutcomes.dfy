/**
 * What each callback decides: which results of the environment make it fail, which state it returns
 * otherwise, and who may be heard next.
 */
module HandlerOutcomes {
  import opened Common
  import opened StateEngine
  import opened Lifecycle
  import opened Safety = LifecycleSafety

  /** The connection waits for exactly this on its two descriptors. */
  ghost predicate Waits<C>(w: World<C>, c: C, client: Interest, origin: Interest)
    requires c in w.conns
  {
    InterestOf(w, w.conns[c].clientFd) == client && InterestOf(w, w.conns[c].peer) == origin
  }

  /** A connected client and origin at an event: the ready descriptor wants the operation alone. */
  ghost predicate At<C>(w: World<C>, c: C, state: StateId, fd: int, interest: Interest) {
    AtPeace(w, c) && w.conns[c].current == Some(state) && OwnsSlot(w, c, fd) && w.items[fd].interest == interest
  }

  // ---------------------------------------------------------------- the table

  /** Every state but the last two writes, those from GREETINGS_ST on read, only the first is notified. */
  lemma TableHandles(state: StateId, op: Op)
    ensures Handles(CLIENT_STATES[state], op) <==>
      match op
      case Read => GREETINGS_ST <= state <= COPYING_ST
      case Write => state <= COPYING_ST
      case Block => state == DNS_RESOLUTION_ST
  {}

  /** In any walk of a connection the init functions run on entering GREETINGS_ST to COPYING_ST, and nothing else. */
  lemma ClientHooks(path: seq<nat>)
    requires InRange(path, |CLIENT_STATES|)
    ensures Arrivals(HooksOf(CLIENT_STATES, path))
         == Filter(path, {GREETINGS_ST, CAPA_ST, REQUEST_ST, RESPONSE_ST, COPYING_ST})
    ensures Departures(HooksOf(CLIENT_STATES, path)) == []
  {
    HooksAreFiltered(CLIENT_STATES, path);
    ClientCallbacks();
    hide *;
    NothingKept(if path == [] then [] else path[..|path| - 1]);
  }

  lemma ClientCallbacks()
    ensures WithArrival(CLIENT_STATES) == {GREETINGS_ST, CAPA_ST, REQUEST_ST, RESPONSE_ST, COPYING_ST}
    ensures WithDeparture(CLIENT_STATES) == {}
  {
    forall s: nat ensures s in WithArrival(CLIENT_STATES) <==> GREETINGS_ST <= s <= COPYING_ST {}
  }

  lemma NothingKept(path: seq<nat>)
    ensures Filter(path, {}) == []
  {}

  // ---------------------------------------------------------------- accepting and resolving

  /** Which callback the selector makes: accept on a listening socket, the connection's own on any other. */
  lemma CallsOwner<C>(w: World<C>, fd: int, o: Oracle<C>)
    requires RefInv(w)
    ensures Enabled(w, ReadReady(fd, o)) && w.items[fd].handler == ListenHandler ==>
      Step(w, ReadReady(fd, o)) == Running(Accept(w, o))
    ensures Enabled(w, ReadReady(fd, o)) && w.items[fd].data.Some? ==>
      Step(w, ReadReady(fd, o)) == Dispatch(w, w.items[fd].data.value, fd, Read, o)
    ensures Enabled(w, WriteReady(fd, o)) && w.items[fd].data.Some? ==>
      Step(w, WriteReady(fd, o)) == Dispatch(w, w.items[fd].data.value, fd, Write, o)
  {
    if fd in w.items { SlotOwner(w, fd); }
    hide RefInv, Dispatch, Accept;
  }

  /** A client gets a connection exactly if every step of socks_passive_accept succeeds. */
  lemma AcceptOutcome<C>(w: World<C>, o: Oracle<C>)
    requires RefInv(w) && FreshAlloc(w, o)
    ensures var w' := Accept(w, o);
      if o.acceptedFd >= 0 && o.nioOk && (w.pool != [] || o.alloc.Some?)
         && !InvalidFd(o.acceptedFd) && o.acceptedFd !in w.items
      then
        var c := if w.pool != [] then w.pool[0] else o.alloc.value;
        && w'.items == w.items[o.acceptedFd := Slot(SocksHandler, OP_WRITE, Some(c))]
        && w'.conns == w.conns[c := Conn(o.acceptedFd, -1, None, 1, -1, None)]
        && w'.pool == if w.pool != [] then w.pool[1..] else []
      else
        && w'.items == w.items && w'.conns == w.conns
        && (w.pool != [] ==> w'.pool == w.pool)
        && (w.pool == [] && o.acceptedFd >= 0 && o.nioOk && o.alloc.Some? ==> w'.pool == [o.alloc.value])
    ensures Accept(w, o).jobs == w.jobs && Accept(w, o).nextJob == w.nextJob
  {
    var w' := Accept(w, o);
    if o.acceptedFd >= 0 && o.nioOk {
      NewSockShape(w, o.acceptedFd, o.alloc);
      var (w1, s) := NewSock(w, o.acceptedFd, o.alloc);
      hide RefInv, PoolInv;
      if s.Some? && (InvalidFd(o.acceptedFd) || o.acceptedFd in w.items) {
        assert w1.conns - {s.value} == w.conns;
        assert w.pool != [] ==> [w.pool[0]] + w.pool[1..] == w.pool;
      }
    }
  }

  /** The first event: a worker is started for the client's descriptor, which wants nothing meanwhile. */
  lemma ResolutionStarts<C>(w: World<C>, c: C, fd: int, o: Oracle<C>)
    requires RefInv(w) && c in w.conns && fd in w.items
    ensures var r := CallHandler(w, c, fd, DNS_RESOLUTION_ST, Write, o);
      r.Returned? && if !o.threadOk then r.w == w && r.next == ERROR_ST
      else
        && r.next == DNS_RESOLUTION_ST && r.w.pool == w.pool
        && r.w.items == w.items[fd := w.items[fd].(interest := OP_NOOP)]
        && r.w.conns == w.conns[c := w.conns[c].(job := Some(w.nextJob))]
        && r.w.jobs == w.jobs[w.nextJob := fd] && r.w.nextJob == w.nextJob + 1
  {
    hide RefInv;
    assert fd in w.items && !InvalidFd(fd) by { SlotOwner(w, fd); }
  }

  /** The delivery: CONNECTING_ST exactly if an address was found and the origin could be registered. */
  lemma ResolutionEnds<C>(w: World<C>, c: C, fd: int, o: Oracle<C>)
    requires RefInv(w) && c in w.conns && fd in w.items
    ensures var r := CallHandler(w, c, fd, DNS_RESOLUTION_ST, Block, o);
      var open := o.resolved && o.sockFd >= 0 && o.nioOk;
      && (r == Abort <==> open && o.connect == Immediate)
      && (r.Returned? ==>
            && (r.next == CONNECTING_ST || r.next == ERROR_ST)
            && (r.next == CONNECTING_ST <==>
                  open && o.connect == InProgress && !InvalidFd(o.sockFd) && o.sockFd !in w.items)
            && (r.next == CONNECTING_ST ==>
                  && r.w.items == w.items[fd := w.items[fd].(interest := OP_NOOP)]
                                         [o.sockFd := Slot(SocksHandler, OP_WRITE, Some(c))]
                  && r.w.conns == w.conns[c := w.conns[c].(references := w.conns[c].references + 1, peer := o.sockFd)])
            && (r.next == ERROR_ST ==> r.w.conns == w.conns && r.w.items.Keys == w.items.Keys))
  {
    SlotOwner(w, fd);
    hide RefInv;
    assert w.items[fd := w.items[fd].(interest := OP_NOOP)].Keys == w.items.Keys;
  }

  // ---------------------------------------------------------------- connected states

  /** connecting: fails exactly if the connection did; origin_fd is set either way. */
  lemma ConnectingOutcome<C>(w: World<C>, c: C, fd: int, o: Oracle<C>)
    requires At(w, c, CONNECTING_ST, fd, OP_WRITE)
    ensures var r := CallHandler(w, c, fd, CONNECTING_ST, Write, o);
      && r.Returned? && r.w.conns.Keys == w.conns.Keys && c in r.w.conns && r.w.conns[c].originFd == fd
      && (r.next == ERROR_ST <==> !o.ioOk)
      && (r.next != ERROR_ST ==> r.next == GREETINGS_ST && Waits(r.w, c, OP_NOOP, OP_WRITE))
      && (r.next == ERROR_ST ==> Waits(r.w, c, OP_NOOP, OP_NOOP))
  {
    assert !InvalidFd(w.conns[c].clientFd) && !InvalidFd(w.conns[c].peer);
    hide RefInv;
  }

  lemma GreetingsReadOutcome<C>(w: World<C>, c: C, fd: int, o: Oracle<C>)
    requires At(w, c, GREETINGS_ST, fd, OP_READ)
    ensures var r := CallHandler(w, c, fd, GREETINGS_ST, Read, o);
      && r.Returned?
      && (r.next == ERROR_ST <==> !o.bufferFull && !o.ioOk)
      && (r.next != ERROR_ST ==>
            && r.next == GREETINGS_ST && c in r.w.conns
            && if o.bufferFull || o.finished then Waits(r.w, c, OP_WRITE, OP_NOOP) else Waits(r.w, c, OP_NOOP, OP_READ))
  {
    var k := w.conns[c];
    HandOverMoves(w, c, fd, OP_NOOP, k.clientFd, OP_WRITE, GREETINGS_ST);
    hide RefInv, HandOver;
  }

  lemma GreetingsWriteOutcome<C>(w: World<C>, c: C, fd: int, o: Oracle<C>)
    requires At(w, c, GREETINGS_ST, fd, OP_WRITE)
    ensures var r := CallHandler(w, c, fd, GREETINGS_ST, Write, o);
      && r.Returned?
      && (r.next == ERROR_ST <==> !o.bufferEmpty && !o.ioOk)
      && (r.next != ERROR_ST ==>
            && c in r.w.conns && r.next == (if !o.bufferEmpty && o.finished then CAPA_ST else GREETINGS_ST)
            && if o.bufferEmpty then Waits(r.w, c, OP_NOOP, OP_READ)
               else if o.finished then Waits(r.w, c, OP_NOOP, OP_WRITE)
               else r.w == w)
  {
    var k := w.conns[c];
    HandOverMoves(w, c, fd, OP_NOOP, k.originFd, OP_READ, GREETINGS_ST);
    HandOverMoves(w, c, fd, OP_NOOP, k.originFd, OP_WRITE, CAPA_ST);
    hide RefInv, HandOver;
  }

  lemma CapaSendOutcome<C>(w: World<C>, c: C, fd: int, o: Oracle<C>)
    requires At(w, c, CAPA_ST, fd, OP_WRITE)
    ensures var r := CallHandler(w, c, fd, CAPA_ST, Write, o);
      && r.Returned?
      && (r.next == ERROR_ST <==> !o.ioOk)
      && (r.next != ERROR_ST ==> r.next == CAPA_ST && c in r.w.conns && Waits(r.w, c, OP_NOOP, OP_READ))
  {
    SlotOwner(w, w.conns[c].originFd);
    hide RefInv;
  }

  lemma CapaReadOutcome<C>(w: World<C>, c: C, fd: int, o: Oracle<C>)
    requires At(w, c, CAPA_ST, fd, OP_READ)
    ensures var r := CallHandler(w, c, fd, CAPA_ST, Read, o);
      && (r == Abort <==> o.ioOk && o.bufferFull)
      && (r.Returned? ==>
            && (r.next == ERROR_ST <==> !o.ioOk)
            && (r.next != ERROR_ST ==>
                  && c in r.w.conns && r.next == (if o.finished then REQUEST_ST else CAPA_ST)
                  && if o.finished then Waits(r.w, c, OP_READ, OP_NOOP) else Waits(r.w, c, OP_NOOP, OP_READ)))
  {
    HandOverMoves(w, c, fd, OP_NOOP, w.conns[c].clientFd, OP_READ, REQUEST_ST);
    hide RefInv, HandOver;
  }

  lemma RequestReadOutcome<C>(w: World<C>, c: C, fd: int, o: Oracle<C>)
    requires At(w, c, REQUEST_ST, fd, OP_READ)
    ensures var r := CallHandler(w, c, fd, REQUEST_ST, Read, o);
      && r.Returned?
      && (r.next == ERROR_ST <==> !o.ioOk)
      && (r.next != ERROR_ST ==>
            && r.next == REQUEST_ST && c in r.w.conns
            && if o.finished then Waits(r.w, c, OP_NOOP, OP_WRITE) else Waits(r.w, c, OP_READ, OP_NOOP))
  {
    HandOverMoves(w, c, fd, OP_NOOP, w.conns[c].originFd, OP_WRITE, REQUEST_ST);
    hide RefInv, HandOver;
  }

  lemma RequestSendOutcome<C>(w: World<C>, c: C, fd: int, o: Oracle<C>)
    requires At(w, c, REQUEST_ST, fd, OP_WRITE)
    ensures var r := CallHandler(w, c, fd, REQUEST_ST, Write, o);
      && r.Returned?
      && (r.next == ERROR_ST <==> o.queueEmpty || !o.ioOk)
      && (r.next != ERROR_ST ==> r.next == RESPONSE_ST)
      && (o.queueEmpty || o.ioOk ==> c in r.w.conns && Waits(r.w, c, OP_NOOP, OP_READ))
  {
    HandOverMoves(w, c, fd, OP_READ, w.conns[c].clientFd, OP_NOOP, if o.queueEmpty then ERROR_ST else RESPONSE_ST);
    hide RefInv, HandOver;
  }

  lemma ResponseReadOutcome<C>(w: World<C>, c: C, fd: int, o: Oracle<C>)
    requires At(w, c, RESPONSE_ST, fd, OP_READ)
    ensures var r := CallHandler(w, c, fd, RESPONSE_ST, Read, o);
      && (r == Abort <==> !o.bufferFull && o.ioOk && o.overrun)
      && (r.Returned? ==>
            && (r.next == ERROR_ST <==> !o.bufferFull && !o.ioOk)
            && (r.next != ERROR_ST ==>
                  && r.next == RESPONSE_ST && c in r.w.conns
                  && if o.bufferFull || o.finished then Waits(r.w, c, OP_WRITE, OP_NOOP)
                     else Waits(r.w, c, OP_NOOP, OP_READ)))
  {
    HandOverMoves(w, c, fd, OP_NOOP, w.conns[c].clientFd, OP_WRITE, RESPONSE_ST);
    hide RefInv, HandOver;
  }

  /** response_send: a finished reply gives the client its turn, an unfinished one the origin. */
  lemma ResponseSendOutcome<C>(w: World<C>, c: C, fd: int, o: Oracle<C>)
    requires At(w, c, RESPONSE_ST, fd, OP_WRITE)
    ensures var r := CallHandler(w, c, fd, RESPONSE_ST, Write, o);
      && r.Returned?
      && (r.next == ERROR_ST <==> o.bufferEmpty || !o.ioOk)
      && (r.next != ERROR_ST ==>
            && c in r.w.conns && r.next == (if o.finished then REQUEST_ST else RESPONSE_ST)
            && if o.finished then Waits(r.w, c, OP_READ, OP_NOOP) else Waits(r.w, c, OP_NOOP, OP_READ))
  {
    var k := w.conns[c];
    HandOverMoves(w, c, fd, OP_NOOP, k.clientFd, OP_READ, REQUEST_ST);
    HandOverMoves(w, c, fd, OP_NOOP, k.originFd, OP_READ, RESPONSE_ST);
    hide RefInv, HandOver;
  }

  /** copy_r and copy_w: aborts exactly if one of the two descriptors is not registered. */
  lemma CopyOutcome<C>(w: World<C>, c: C, fd: int, op: Op, o: Oracle<C>)
    requires RefInv(w) && c in w.conns && op != Block && w.conns[c].clientFd != w.conns[c].originFd
    ensures var r, k := CallHandler(w, c, fd, COPYING_ST, op, o), w.conns[c];
      && (r == Abort <==> k.clientFd !in w.items || k.originFd !in w.items)
      && (r.Returned? ==>
            && r.next == (if o.finished then DONE_ST else COPYING_ST)
            && InterestOf(r.w, k.clientFd) == o.clientInterest && InterestOf(r.w, k.originFd) == o.originInterest)
  {
    hide RefInv;
  }

  // ---------------------------------------------------------------- the administrator

  /** udp_read: exits exactly if nothing was received; otherwise the reply is due. */
  lemma AdminReadOutcome<C>(w: World<C>, fd: int, o: Oracle<C>)
    requires RefInv(w) && Enabled(w, ReadReady(fd, o)) && w.items[fd].handler == AdminHandler
    ensures Step(w, ReadReady(fd, o)) ==
      if o.ioOk then Running(w.(items := w.items[fd := w.items[fd].(interest := OP_WRITE)])) else Exited
  {
    SlotOwner(w, fd);
    hide RefInv;
  }

  /** udp_write: the next message is due. */
  lemma AdminWriteOutcome<C>(w: World<C>, fd: int, o: Oracle<C>)
    requires RefInv(w) && Enabled(w, WriteReady(fd, o)) && w.items[fd].handler == AdminHandler
    ensures Step(w, WriteReady(fd, o)) == Running(w.(items := w.items[fd := w.items[fd].(interest := OP_READ)]))
  {
    SlotOwner(w, fd);
    hide RefInv;
  }
}
